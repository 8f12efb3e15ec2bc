/**
  The kernel's guarded state as one value (capabilities, agents, audit trail) and what each
  system call, agent operation and agent execution does to it.
 */
module Machines {
  import opened Wrappers
  import opened Capabilities
  import opened Agents
  import A = AuditLogs

  datatype Machine = Machine(
    caps: Slots, nextCapId: nat, agents: seq<Agent>, nextAgentId: AgentId, audit: seq<A.AuditEntry>)

  datatype SyscallError = CapabilityDenied(error: CapError) | BudgetExceeded

  datatype SyscallResult = Done | Value(value: nat) | Handle(handle: CapHandle) | Failed(error: SyscallError)

  function Audited(m: Machine, tick: nat, agent: AgentId, event: A.AuditEvent, cap: CapHandle, result: int): Machine {
    m.(audit := A.Append(m.audit, tick, agent, event, cap, result))
  }

  // ----- Changes to one agent -----

  ghost function ChargeIo(list: seq<Agent>, id: AgentId): (r: seq<Agent>)
    ensures |r| == |list|
    ensures forall i | 0 <= i < |list| ::
      r[i] == if list[i].id == id then list[i].(budget := list[i].budget.RecordIo()) else list[i]
  {
    seq(|list|, i requires 0 <= i < |list| =>
      if list[i].id == id then list[i].(budget := list[i].budget.RecordIo()) else list[i])
  }

  ghost function GiveHandle(list: seq<Agent>, id: AgentId, h: CapHandle): (r: seq<Agent>)
    ensures |r| == |list|
    ensures forall i | 0 <= i < |list| ::
      r[i] == if list[i].id == id then list[i].(capabilities := list[i].capabilities + [h]) else list[i]
  {
    seq(|list|, i requires 0 <= i < |list| =>
      if list[i].id == id then list[i].(capabilities := list[i].capabilities + [h]) else list[i])
  }

  ghost function SetState(list: seq<Agent>, id: AgentId, state: AgentState): (r: seq<Agent>)
    ensures |r| == |list|
    ensures forall i | 0 <= i < |list| ::
      r[i] == if list[i].id == id then list[i].(state := state) else list[i]
  {
    seq(|list|, i requires 0 <= i < |list| => if list[i].id == id then list[i].(state := state) else list[i])
  }

  ghost predicate OutOfIo(list: seq<Agent>, id: AgentId) {
    exists i :: 0 <= i < |list| && list[i].id == id && !list[i].budget.CanIo()
  }

  // ----- System calls -----

  function ReadOn(m: Machine, agent: AgentId, h: CapHandle, tick: nat): (Machine, SyscallResult) {
    match Check(m.caps, h, {Read}, tick)
    case Ok(_) => (Audited(m, tick, agent, A.CapGranted, h, 0), Done)
    case Err(e) => (Audited(m, tick, agent, A.CapCheckFail, h, -1), Failed(CapabilityDenied(e)))
  }

  ghost function WriteOn(m: Machine, agent: AgentId, h: CapHandle, tick: nat): (Machine, SyscallResult) {
    match Check(m.caps, h, {Write}, tick)
    case Ok(_) =>
      if OutOfIo(m.agents, agent) then
        (Audited(m, tick, agent, A.AgentOverBudget, h, -2), Failed(BudgetExceeded))
      else
        (Audited(m.(agents := ChargeIo(m.agents, agent)), tick, agent, A.CapGranted, h, 0), Done)
    case Err(e) => (Audited(m, tick, agent, A.CapCheckFail, h, -1), Failed(CapabilityDenied(e)))
  }

  function Placing(m: Machine, placed: (Slots, Result<CapHandle, CapError>)): Machine {
    m.(caps := placed.0, nextCapId := m.nextCapId + if placed.1.Ok? then 1 else 0)
  }

  ghost function CapGrantOn(m: Machine, agent: AgentId, resource: ResourceRef, rights: Rights,
                            timeout: nat, tick: nat): (Machine, SyscallResult)
  {
    var expires := if timeout > 0 then tick + timeout else 0;
    var placed := GrantOn(m.caps, m.nextCapId, agent, resource, rights, expires, tick);
    match placed.1
    case Ok(h) =>
      (Audited(Placing(m, placed).(agents := GiveHandle(m.agents, agent, h)), tick, agent, A.CapGranted, h, 0), Handle(h))
    case Err(e) => (Audited(m, tick, agent, A.CapCheckFail, 0, -1), Failed(CapabilityDenied(e)))
  }

  ghost function CapRevokeOn(m: Machine, agent: AgentId, h: CapHandle, tick: nat): (Machine, SyscallResult) {
    match Check(m.caps, h, {}, tick)
    case Err(e) => (m, Failed(CapabilityDenied(e)))
    case Ok(e) =>
      if e.owner != agent then (m, Failed(CapabilityDenied(NotOwner)))
      else (Audited(m.(caps := Cascade(m.caps, h)), tick, agent, A.CapRevoked, h, 0), Done)
  }

  // ----- Agents -----

  function SpawnOn(m: Machine, name: string, parent: Option<AgentId>, budget: ResourceBudget,
                   maxLifetime: nat, tick: nat): (Machine, Result<AgentId, AgentError>)
  {
    if |m.agents| >= MAX_AGENTS then (m, Err(MaxAgentsReached))
    else (m.(agents := m.agents + [NewAgent(m.nextAgentId, name, parent, budget, maxLifetime, tick)],
             nextAgentId := m.nextAgentId + 1),
          Ok(m.nextAgentId))
  }

  ghost function KillOn(m: Machine, id: AgentId): (Machine, Result<(), AgentError>) {
    if Present(m.agents, id)
    then (m.(agents := Terminate(m.agents, {id}), caps := RevokeAllOn(m.caps, id)), Ok(()))
    else (m, Err(AgentNotFound))
  }

  ghost function EnforceOn(m: Machine, tick: nat): Machine {
    var ids := OverdueIds(m.agents, tick);
    m.(agents := Terminate(m.agents, ids), caps := RevokeOwners(m.caps, ids))
  }

  // ----- Executing an agent -----

  /** How the engine fares: it fails before the agent's code starts, or runs it to an end or a trap. */
  datatype EngineRun = LoadFailed | InstantiationFailed | NoStart | Ran(trapped: bool)

  datatype ExecError = SpawnFailed(error: AgentError) | EngineFailed(run: EngineRun)

  const EXEC_LIFETIME: nat := 60_000

  function GrantTo(m: Machine, agent: AgentId, resource: ResourceRef, rights: Rights, tick: nat): Machine {
    Placing(m, GrantOn(m.caps, m.nextCapId, agent, resource, rights, 0, tick))
  }

  function GrantChannel(m: Machine, agent: AgentId, chan: Option<nat>, rights: Rights, tick: nat): Machine {
    match chan
    case Some(c) => GrantTo(m, agent, Channel(c), rights, tick)
    case None => m
  }

  /** The grants every execution starts with. */
  function Equip(m: Machine, agent: AgentId, chanWrite: Option<nat>, chanRead: Option<nat>, tick: nat): Machine {
    var m1 := GrantTo(m, agent, Serial, {Write}, tick);
    var m2 := GrantChannel(m1, agent, chanWrite, {Write}, tick);
    var m3 := GrantChannel(m2, agent, chanRead, {Read}, tick);
    var m4 := GrantTo(m3, agent, Filesystem, {Write}, tick);
    GrantTo(m4, agent, Filesystem, {Read}, tick)
  }

  /** From the equipped agent to the end: only running its code leads to the clean-up. */
  ghost function RunOn(m: Machine, id: AgentId, run: EngineRun, endTick: nat): (Machine, Result<(), ExecError>) {
    if run.LoadFailed? || run.InstantiationFailed? then (m, Err(EngineFailed(run)))
    else
      var active := m.(agents := SetState(m.agents, id, Active));
      if run.NoStart? then (active, Err(EngineFailed(run)))
      else (Audited(KillOn(active, id).0, endTick, id, A.AgentKilled, 0, 0), Ok(()))
  }

  ghost function ExecuteAgentOn(m: Machine, name: string, parent: Option<AgentId>, chanWrite: Option<nat>,
                                chanRead: Option<nat>, run: EngineRun, tick: nat, endTick: nat)
    : (Machine, Result<(), ExecError>)
  {
    var (m0, spawned) := SpawnOn(m, name, parent, DEFAULT_BUDGET, EXEC_LIFETIME, tick);
    match spawned
    case Err(e) => (m0, Err(SpawnFailed(e)))
    case Ok(id) =>
      RunOn(Equip(Audited(m0, tick, id, A.AgentSpawned, 0, 0), id, chanWrite, chanRead, tick), id, run, endTick)
  }
}
