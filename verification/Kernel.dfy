/**
  The kernel's guarded tables as objects, each call mutating them in the order the source does.
 */
module Kernels {
  import opened Wrappers
  import opened Capabilities
  import opened CapTables
  import opened Agents
  import opened AgentTables
  import opened Machines
  import A = AuditLogs

  class Kernel {
    const caps: CapTable
    const table: AgentTable
    const log: A.AuditLog

    ghost predicate Valid()
      reads caps, caps.entries, table, log, log.entries
    {
      caps.Valid() && table.Valid() && log.Valid()
    }

    ghost function View(): Machine
      reads caps, table, log
    {
      Machine(caps.slots, caps.nextCapId, table.agents, table.nextAgentId, log.history)
    }

    constructor ()
      ensures Valid() && caps.slots == [] && table.agents == [] && log.history == []
    {
      var c := new CapTable();
      var t := new AgentTable();
      var l := new A.AuditLog();
      caps, table, log := c, t, l;
    }

    method Audit(tick: nat, agent: AgentId, event: A.AuditEvent, handle: CapHandle, result: int)
      requires Valid()
      modifies log, log.entries
      ensures Valid() && View() == Audited(old(View()), tick, agent, event, handle, result)
    {
      log.Record(tick, agent, event, handle, result);
    }

    method ResourceRead(agent: AgentId, handle: CapHandle, tick: nat) returns (r: SyscallResult)
      requires Valid()
      modifies log, log.entries
      ensures Valid() && (View(), r) == ReadOn(old(View()), agent, handle, tick)
    {
      var checked := caps.CheckHandle(handle, {Read}, tick);
      match checked {
        case Ok(_) =>
          Audit(tick, agent, A.CapGranted, handle, 0);
          r := Done;
        case Err(e) =>
          Audit(tick, agent, A.CapCheckFail, handle, -1);
          r := Failed(CapabilityDenied(e));
      }
    }

    /** The budget part of a write: false when the agent is there and out of I/O operations. */
    method Charge(agent: AgentId) returns (ok: bool)
      requires Valid()
      modifies table`agents
      ensures Valid() && ok == !OutOfIo(old(View()).agents, agent)
      ensures View() == if ok then old(View()).(agents := ChargeIo(old(View()).agents, agent)) else old(View())
    {
      var at := table.Find(agent);
      if at == |table.agents| {
        assert ChargeIo(table.agents, agent) == table.agents;
        return true;
      }
      var a := table.agents[at];
      forall i | 0 <= i < |table.agents| && table.agents[i].id == agent ensures i == at {
        OneAgentPerId(table.agents, table.nextAgentId, i, at);
      }
      if !a.budget.CanIo() {
        return false;
      }
      table.agents := table.agents[at := a.(budget := a.budget.RecordIo())];
      assert table.agents == ChargeIo(old(table.agents), agent);
      ok := true;
    }

    method ResourceWrite(agent: AgentId, handle: CapHandle, tick: nat) returns (r: SyscallResult)
      requires Valid()
      modifies table`agents, log, log.entries
      ensures Valid() && (View(), r) == WriteOn(old(View()), agent, handle, tick)
    {
      var checked := caps.CheckHandle(handle, {Write}, tick);
      match checked {
        case Ok(_) =>
          var ok := Charge(agent);
          if !ok {
            Audit(tick, agent, A.AgentOverBudget, handle, -2);
            return Failed(BudgetExceeded);
          }
          Audit(tick, agent, A.CapGranted, handle, 0);
          r := Done;
        case Err(e) =>
          Audit(tick, agent, A.CapCheckFail, handle, -1);
          r := Failed(CapabilityDenied(e));
      }
    }

    method AddCapability(agent: AgentId, handle: CapHandle)
      requires Valid()
      modifies table`agents
      ensures Valid() && View() == old(View()).(agents := GiveHandle(old(View()).agents, agent, handle))
    {
      var at := table.Find(agent);
      if at < |table.agents| {
        var a := table.agents[at];
        forall i | 0 <= i < |table.agents| && table.agents[i].id == agent ensures i == at {
          OneAgentPerId(table.agents, table.nextAgentId, i, at);
        }
        table.agents := table.agents[at := a.(capabilities := a.capabilities + [handle])];
      }
      assert table.agents == GiveHandle(old(table.agents), agent, handle);
    }

    /** The table's grant, as a step of the whole machine. */
    method Place(agent: AgentId, resource: ResourceRef, rights: Rights, expires: nat, tick: nat)
      returns (r: Result<CapHandle, CapError>)
      requires Valid()
      modifies caps`activeCount, caps`slots, caps`nextCapId, caps.entries
      ensures Valid()
      ensures
        var placed := GrantOn(old(caps.slots), old(caps.nextCapId), agent, resource, rights, expires, tick);
        View() == Placing(old(View()), placed) && r == placed.1
    {
      r := caps.Grant(agent, resource, rights, expires, tick);
    }

    /** The bookkeeping after a successful grant: the agent's own list, then the trail. */
    method NoteGrant(agent: AgentId, handle: CapHandle, tick: nat)
      requires Valid()
      modifies table`agents, log, log.entries
      ensures Valid()
      ensures
        var given := old(View()).(agents := GiveHandle(old(View()).agents, agent, handle));
        View() == Audited(given, tick, agent, A.CapGranted, handle, 0)
    {
      AddCapability(agent, handle);
      Audit(tick, agent, A.CapGranted, handle, 0);
    }

    method CapGrant(agent: AgentId, resource: ResourceRef, rights: Rights, timeoutTicks: nat, tick: nat)
      returns (r: SyscallResult)
      requires Valid()
      modifies caps`activeCount, caps`slots, caps`nextCapId, caps.entries, table`agents, log, log.entries
      ensures Valid() && (View(), r) == CapGrantOn(old(View()), agent, resource, rights, timeoutTicks, tick)
    {
      var expires := if timeoutTicks > 0 then tick + timeoutTicks else 0;
      var granted := Place(agent, resource, rights, expires, tick);
      match granted {
        case Ok(handle) =>
          NoteGrant(agent, handle, tick);
          r := Handle(handle);
        case Err(e) =>
          Audit(tick, agent, A.CapCheckFail, 0, -1);
          r := Failed(CapabilityDenied(e));
      }
    }

    method CapRevoke(agent: AgentId, handle: CapHandle, tick: nat) returns (r: SyscallResult)
      requires Valid()
      modifies caps`activeCount, caps`slots, caps.entries, log, log.entries
      ensures Valid() && (View(), r) == CapRevokeOn(old(View()), agent, handle, tick)
    {
      var checked := caps.CheckHandle(handle, {}, tick);
      match checked {
        case Ok(e) =>
          if e.owner != agent {
            return Failed(CapabilityDenied(NotOwner));
          }
        case Err(e) =>
          return Failed(CapabilityDenied(e));
      }
      var revoked := caps.Revoke(handle);
      match revoked {
        case Ok(_) =>
          Audit(tick, agent, A.CapRevoked, handle, 0);
          r := Done;
        case Err(e) =>
          r := Failed(CapabilityDenied(e));
      }
    }

    method GrantDirect(agent: AgentId, resource: ResourceRef, rights: Rights, tick: nat)
      returns (r: Option<CapHandle>)
      requires Valid()
      modifies caps`activeCount, caps`slots, caps`nextCapId, caps.entries
      ensures Valid() && View() == GrantTo(old(View()), agent, resource, rights, tick)
      ensures r == match GrantOn(old(caps.slots), old(caps.nextCapId), agent, resource, rights, 0, tick).1
                   case Ok(h) => Some(h)
                   case Err(_) => None
    {
      var granted := Place(agent, resource, rights, 0, tick);
      r := match granted case Ok(h) => Some(h) case Err(_) => None;
    }

    method GrantForChannel(agent: AgentId, chan: Option<nat>, rights: Rights, tick: nat)
      returns (r: Option<(CapHandle, nat)>)
      requires Valid()
      modifies caps`activeCount, caps`slots, caps`nextCapId, caps.entries
      ensures Valid() && View() == GrantChannel(old(View()), agent, chan, rights, tick)
    {
      r := None;
      if chan.Some? {
        var h := GrantDirect(agent, Channel(chan.value), rights, tick);
        r := match h case Some(cap) => Some((cap, chan.value)) case None => None;
      }
    }

    method Activate(id: AgentId)
      requires Valid()
      modifies table`agents
      ensures Valid() && View() == old(View()).(agents := SetState(old(View()).agents, id, Active))
    {
      var at := table.Find(id);
      if at < |table.agents| {
        forall i | 0 <= i < |table.agents| && table.agents[i].id == id ensures i == at {
          OneAgentPerId(table.agents, table.nextAgentId, i, at);
        }
        table.agents := table.agents[at := table.agents[at].(state := Active)];
      }
      assert table.agents == SetState(old(table.agents), id, Active);
    }

    method EquipAgent(id: AgentId, chanWrite: Option<nat>, chanRead: Option<nat>, tick: nat)
      requires Valid()
      modifies caps`activeCount, caps`slots, caps`nextCapId, caps.entries
      ensures Valid() && View() == Equip(old(View()), id, chanWrite, chanRead, tick)
    {
      var serialCap := GrantDirect(id, Serial, {Write}, tick);
      var writeCap := GrantForChannel(id, chanWrite, {Write}, tick);
      var readCap := GrantForChannel(id, chanRead, {Read}, tick);
      var fsWriteCap := GrantDirect(id, Filesystem, {Write}, tick);
      var fsReadCap := GrantDirect(id, Filesystem, {Read}, tick);
    }

    method SpawnAgent(name: string, parent: Option<AgentId>, budget: ResourceBudget, maxLifetime: nat, tick: nat)
      returns (r: Result<AgentId, AgentError>)
      requires Valid()
      modifies table
      ensures Valid() && (View(), r) == SpawnOn(old(View()), name, parent, budget, maxLifetime, tick)
    {
      r := table.Spawn(name, parent, budget, maxLifetime, tick);
    }

    method KillAgent(id: AgentId) returns (r: Result<(), AgentError>)
      requires Valid()
      modifies caps`activeCount, caps`slots, caps.entries, table`agents
      ensures Valid() && (View(), r) == KillOn(old(View()), id)
    {
      r := table.Kill(id, caps);
    }

    method EnforceTimeouts(tick: nat)
      requires Valid()
      modifies caps`activeCount, caps`slots, caps.entries, table`agents
      ensures Valid() && View() == EnforceOn(old(View()), tick)
    {
      table.EnforceTimeouts(tick, caps);
    }

    method RunAgent(id: AgentId, run: EngineRun, endTick: nat) returns (r: Result<(), ExecError>)
      requires Valid()
      modifies caps`activeCount, caps`slots, caps.entries, table`agents, log, log.entries
      ensures Valid() && (View(), r) == RunOn(old(View()), id, run, endTick)
    {
      if run.LoadFailed? || run.InstantiationFailed? {
        return Err(EngineFailed(run));
      }
      Activate(id);
      if run.NoStart? {
        return Err(EngineFailed(run));
      }
      var _ := KillAgent(id);
      Audit(endTick, id, A.AgentKilled, 0, 0);
      r := Ok(());
    }

    /** Spawn, equip, run and kill one agent; only the path that runs its code reaches the clean-up. */
    method ExecuteAgent(name: string, parent: Option<AgentId>, chanWrite: Option<nat>, chanRead: Option<nat>,
                        run: EngineRun, tick: nat, endTick: nat)
      returns (r: Result<(), ExecError>)
      requires Valid()
      modifies caps`activeCount, caps`slots, caps`nextCapId, caps.entries, table, log, log.entries
      ensures Valid()
      ensures (View(), r) == ExecuteAgentOn(old(View()), name, parent, chanWrite, chanRead, run, tick, endTick)
    {
      var spawned := SpawnAgent(name, parent, DEFAULT_BUDGET, EXEC_LIFETIME, tick);
      if spawned.Err? {
        return Err(SpawnFailed(spawned.error));
      }
      Audit(tick, spawned.value, A.AgentSpawned, 0, 0);
      EquipAgent(spawned.value, chanWrite, chanRead, tick);
      r := RunAgent(spawned.value, run, endTick);
    }
  }
}
