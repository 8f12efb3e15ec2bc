/**
  Whole runs of the guarded kernel: any sequence of system calls, agent operations, agent executions
  and direct operations on the capability table.
 */
module MachineRuns {
  import opened Wrappers
  import opened Capabilities
  import opened Agents
  import opened Machines
  import A = AuditLogs
  import R = CapabilityRuns

  datatype Call =
    | ReadCall(agent: AgentId, handle: CapHandle, tick: nat)
    | WriteCall(agent: AgentId, handle: CapHandle, tick: nat)
    | GrantCall(agent: AgentId, resource: ResourceRef, rights: Rights, timeout: nat, tick: nat)
    | RevokeCall(agent: AgentId, handle: CapHandle, tick: nat)
    | SpawnCall(name: string, parent: Option<AgentId>, budget: ResourceBudget, maxLifetime: nat, tick: nat)
    | KillCall(id: AgentId)
    | CollectCall
    | TimeoutCall(tick: nat)
    | ExecuteCall(name: string, parent: Option<AgentId>, chanWrite: Option<nat>, chanRead: Option<nat>,
                  run: EngineRun, tick: nat, endTick: nat)
    | TableCall(op: R.Op)

  ghost function Step(m: Machine, c: Call): Machine {
    match c
    case ReadCall(agent, h, tick) => ReadOn(m, agent, h, tick).0
    case WriteCall(agent, h, tick) => WriteOn(m, agent, h, tick).0
    case GrantCall(agent, resource, rights, timeout, tick) => CapGrantOn(m, agent, resource, rights, timeout, tick).0
    case RevokeCall(agent, h, tick) => CapRevokeOn(m, agent, h, tick).0
    case SpawnCall(name, parent, budget, maxLifetime, tick) => SpawnOn(m, name, parent, budget, maxLifetime, tick).0
    case KillCall(id) => KillOn(m, id).0
    case CollectCall => m.(agents := Retained(m.agents))
    case TimeoutCall(tick) => EnforceOn(m, tick)
    case ExecuteCall(name, parent, chanWrite, chanRead, run, tick, endTick) =>
      ExecuteAgentOn(m, name, parent, chanWrite, chanRead, run, tick, endTick).0
    case TableCall(op) => m.(caps := R.Step(m.caps, op).0)
  }

  ghost function RunFrom(m: Machine, calls: seq<Call>): Machine {
    if calls == [] then m else Step(RunFrom(m, calls[..|calls| - 1]), calls[|calls| - 1])
  }

  // ----- The invariant -----

  ghost predicate SaneCaps(s: Slots) {
    Forest(s) && Closed(s) && |s| <= MAX_CAPABILITIES
  }

  /** The delegation forest is closed, agent ids are unique and rising, and the audit trail is chained. */
  ghost predicate Sane(m: Machine) {
    SaneCaps(m.caps) && Ordered(m.agents, m.nextAgentId) && |m.agents| <= MAX_AGENTS && A.Chained(m.audit)
  }

  lemma SaneMark(s: Slots, roots: set<CapHandle>)
    requires SaneCaps(s)
    ensures SaneCaps(Mark(s, roots)) && R.Extends(s, Mark(s, roots))
  {
    MarkKeepsForest(s, roots);
  }

  lemma SaneGrant(m: Machine, agent: AgentId, resource: ResourceRef, rights: Rights, expires: nat, tick: nat)
    requires SaneCaps(m.caps)
    ensures
      var s := GrantOn(m.caps, m.nextCapId, agent, resource, rights, expires, tick).0;
      SaneCaps(s) && R.Extends(m.caps, s) && Grown(m.caps, s, agent)
    ensures |m.caps| >= MAX_CAPABILITIES <==>
      |GrantOn(m.caps, m.nextCapId, agent, resource, rights, expires, tick).0| == |m.caps|
  {
    PlaceKeepsForest(m.caps, CapEntry(m.nextCapId, resource, rights, agent, None, expires, false, tick));
  }

  /** `t` is `s` with live root entries of one owner appended. */
  ghost predicate Grown(s: Slots, t: Slots, owner: AgentId) {
    s <= t && forall i | |s| <= i < |t| :: t[i].owner == owner && !t[i].revoked
  }

  lemma SaneGrantTo(m: Machine, agent: AgentId, resource: ResourceRef, rights: Rights, tick: nat)
    requires SaneCaps(m.caps)
    ensures
      var n := GrantTo(m, agent, resource, rights, tick);
      && n == m.(caps := n.caps, nextCapId := n.nextCapId)
      && SaneCaps(n.caps) && Grown(m.caps, n.caps, agent)
      && (|m.caps| >= MAX_CAPABILITIES <==> |n.caps| == |m.caps|)
  {
    SaneGrant(m, agent, resource, rights, 0, tick);
  }

  lemma SaneGrantChannel(m: Machine, agent: AgentId, chan: Option<nat>, rights: Rights, tick: nat)
    requires SaneCaps(m.caps)
    ensures
      var n := GrantChannel(m, agent, chan, rights, tick);
      && n == m.(caps := n.caps, nextCapId := n.nextCapId)
      && SaneCaps(n.caps) && Grown(m.caps, n.caps, agent)
      && (|m.caps| >= MAX_CAPABILITIES ==> |n.caps| == |m.caps|)
  {
    if chan.Some? {
      SaneGrantTo(m, agent, Channel(chan.value), rights, tick);
    }
  }

  lemma GrownTwice(s: Slots, t: Slots, u: Slots, owner: AgentId)
    requires Grown(s, t, owner) && Grown(t, u, owner)
    ensures Grown(s, u, owner)
  {
    forall i | |s| <= i < |u| ensures u[i].owner == owner && !u[i].revoked {
      if i < |t| { assert u[i] == t[i]; }
    }
  }

  /** Equipping an agent only appends capabilities of its own; it appends some unless the table is full. */
  lemma EquipGrows(m: Machine, id: AgentId, chanWrite: Option<nat>, chanRead: Option<nat>, tick: nat)
    requires SaneCaps(m.caps)
    ensures
      var n := Equip(m, id, chanWrite, chanRead, tick);
      && n == m.(caps := n.caps, nextCapId := n.nextCapId)
      && SaneCaps(n.caps) && Grown(m.caps, n.caps, id)
      && (|m.caps| >= MAX_CAPABILITIES <==> |n.caps| == |m.caps|)
  {
    var m1 := GrantTo(m, id, Serial, {Write}, tick);
    SaneGrantTo(m, id, Serial, {Write}, tick);
    var m2 := GrantChannel(m1, id, chanWrite, {Write}, tick);
    SaneGrantChannel(m1, id, chanWrite, {Write}, tick);
    GrownTwice(m.caps, m1.caps, m2.caps, id);
    var m3 := GrantChannel(m2, id, chanRead, {Read}, tick);
    SaneGrantChannel(m2, id, chanRead, {Read}, tick);
    GrownTwice(m.caps, m2.caps, m3.caps, id);
    var m4 := GrantTo(m3, id, Filesystem, {Write}, tick);
    SaneGrantTo(m3, id, Filesystem, {Write}, tick);
    GrownTwice(m.caps, m3.caps, m4.caps, id);
    SaneGrantTo(m4, id, Filesystem, {Read}, tick);
    GrownTwice(m.caps, m4.caps, Equip(m, id, chanWrite, chanRead, tick).caps, id);
  }

  lemma GrownExtends(s: Slots, t: Slots, owner: AgentId)
    requires Grown(s, t, owner)
    ensures R.Extends(s, t)
  {
  }

  lemma ExtendsTwice(s: Slots, t: Slots, u: Slots)
    requires R.Extends(s, t) && R.Extends(t, u)
    ensures R.Extends(s, u)
  {
  }

  /** What one step does to the capability table. */
  lemma StepCaps(m: Machine, c: Call)
    requires SaneCaps(m.caps)
    ensures SaneCaps(Step(m, c).caps) && R.Extends(m.caps, Step(m, c).caps)
  {
    match c {
      case ReadCall(_, _, _) =>
      case WriteCall(_, _, _) =>
      case GrantCall(agent, resource, rights, timeout, tick) =>
        SaneGrant(m, agent, resource, rights, if timeout > 0 then tick + timeout else 0, tick);
      case RevokeCall(_, h, _) =>
        CascadeRevokesSubtree(m.caps, h);
        SaneMark(m.caps, {h});
      case SpawnCall(_, _, _, _, _) =>
      case KillCall(id) => SaneMark(m.caps, Select(m.caps, |m.caps|, OwnedBy(id)));
      case CollectCall =>
      case TimeoutCall(tick) => SaneMark(m.caps, HandlesOf(m.caps, OverdueIds(m.agents, tick)));
      case ExecuteCall(name, parent, chanWrite, chanRead, run, tick, endTick) =>
        ExecuteCaps(m, name, parent, chanWrite, chanRead, run, tick, endTick);
      case TableCall(op) =>
        R.StepShape(m.caps, op);
        R.StepKeepsForest(m.caps, op);
    }
  }

  lemma ExecuteCaps(m: Machine, name: string, parent: Option<AgentId>, chanWrite: Option<nat>,
                    chanRead: Option<nat>, run: EngineRun, tick: nat, endTick: nat)
    requires SaneCaps(m.caps)
    ensures
      var n := ExecuteAgentOn(m, name, parent, chanWrite, chanRead, run, tick, endTick).0;
      SaneCaps(n.caps) && R.Extends(m.caps, n.caps)
  {
    if |m.agents| < MAX_AGENTS {
      var id := m.nextAgentId;
      var m0 := Audited(SpawnOn(m, name, parent, DEFAULT_BUDGET, EXEC_LIFETIME, tick).0, tick, id, A.AgentSpawned, 0, 0);
      EquipGrows(m0, id, chanWrite, chanRead, tick);
      var s := Equip(m0, id, chanWrite, chanRead, tick).caps;
      GrownExtends(m.caps, s, id);
      SaneMark(s, Select(s, |s|, OwnedBy(id)));
      ExtendsTwice(m.caps, s, RevokeAllOn(s, id));
    }
  }

  /** Appending the next agent, or changing agents in place without touching ids, keeps the order. */
  lemma OrderedKept(list: seq<Agent>, list': seq<Agent>, nextId: AgentId)
    requires Ordered(list, nextId) && |list'| == |list| && forall i | 0 <= i < |list| :: list'[i].id == list[i].id
    ensures Ordered(list', nextId)
  {
  }

  ghost predicate Wrote(m: Machine, c: Call, id: AgentId) {
    c.WriteCall? && c.agent == id && WriteOn(m, c.agent, c.handle, c.tick).1 == Done
  }

  lemma OrderedGrows(list: seq<Agent>, list': seq<Agent>, nextId: AgentId)
    requires Ordered(list, nextId)
    ensures |list'| == |list| + 1 && list <= list' && list'[|list|].id == nextId ==> Ordered(list', nextId + 1)
  {
  }

  /** Most calls change agents in place: no id changes, and only a successful write of its own touches a budget. */
  lemma StepInPlace(m: Machine, c: Call)
    requires !c.CollectCall? && !c.ExecuteCall? && !c.SpawnCall? && Ordered(m.agents, m.nextAgentId)
    ensures
      var n := Step(m, c);
      && n.nextAgentId == m.nextAgentId && |n.agents| == |m.agents|
      && (forall i | 0 <= i < |m.agents| :: n.agents[i].id == m.agents[i].id)
      && (forall i | 0 <= i < |m.agents| ::
            n.agents[i].budget == if Wrote(m, c, m.agents[i].id) then m.agents[i].budget.RecordIo() else m.agents[i].budget)
  {
    match c {
      case WriteCall(agent, h, tick) =>
      case GrantCall(agent, resource, rights, timeout, tick) =>
      case KillCall(id) =>
      case TimeoutCall(tick) =>
      case _ =>
    }
  }

  lemma StepAgentsOrdered(m: Machine, c: Call)
    requires Ordered(m.agents, m.nextAgentId) && |m.agents| <= MAX_AGENTS
    ensures Ordered(Step(m, c).agents, Step(m, c).nextAgentId) && |Step(m, c).agents| <= MAX_AGENTS
    ensures m.nextAgentId <= Step(m, c).nextAgentId
  {
    if c.CollectCall? {
      RetainedIsOrdered(m.agents, m.nextAgentId);
    } else if c.ExecuteCall? {
      ExecuteAgents(m, c);
      OrderedGrows(m.agents, Step(m, c).agents, m.nextAgentId);
    } else if c.SpawnCall? {
      OrderedGrows(m.agents, Step(m, c).agents, m.nextAgentId);
    } else {
      StepInPlace(m, c);
      OrderedKept(m.agents, Step(m, c).agents, m.nextAgentId);
    }
  }

  /** An execution adds at most one agent, the next one, and leaves the others as they are. */
  lemma ExecuteAgents(m: Machine, c: Call)
    requires c.ExecuteCall? && Ordered(m.agents, m.nextAgentId)
    ensures
      var n := Step(m, c);
      if |m.agents| >= MAX_AGENTS then n == m
      else n.nextAgentId == m.nextAgentId + 1 && |n.agents| == |m.agents| + 1 && m.agents <= n.agents &&
           n.agents[|m.agents|].id == m.nextAgentId && n.agents[|m.agents|].budget == DEFAULT_BUDGET
  {
    if |m.agents| < MAX_AGENTS {
      var id := m.nextAgentId;
      var m0 := SpawnOn(m, c.name, c.parent, DEFAULT_BUDGET, EXEC_LIFETIME, c.tick).0;
      var m1 := Equip(Audited(m0, c.tick, id, A.AgentSpawned, 0, 0), id, c.chanWrite, c.chanRead, c.tick);
      assert m1.agents == m.agents + [NewAgent(id, c.name, c.parent, DEFAULT_BUDGET, EXEC_LIFETIME, c.tick)];
      assert m1.nextAgentId == id + 1;
      RunAgents(m1, m.agents, id, c.run, c.endTick);
    }
  }

  lemma RunAgents(m: Machine, others: seq<Agent>, id: AgentId, run: EngineRun, endTick: nat)
    requires |m.agents| == |others| + 1 && others <= m.agents && m.agents[|others|].id == id
    requires forall i | 0 <= i < |others| :: others[i].id != id
    ensures
      var n := RunOn(m, id, run, endTick).0;
      && n.nextAgentId == m.nextAgentId && |n.agents| == |m.agents| && others <= n.agents
      && n.agents[|others|].id == id && n.agents[|others|].budget == m.agents[|others|].budget
  {
  }

  /** At most one more record, linked to the last. */
  ghost predicate Follows(h: seq<A.AuditEntry>, h': seq<A.AuditEntry>) {
    h' == h || (|h'| == |h| + 1 && h <= h' && h'[|h|].prevHash == A.LastHash(h))
  }

  lemma FollowsKeepsChain(h: seq<A.AuditEntry>, h': seq<A.AuditEntry>)
    requires A.Chained(h) && Follows(h, h')
    ensures A.Chained(h')
  {
    if h' != h {
      var e := h'[|h|];
      A.AppendKeepsChain(h, e.tick, e.agent, e.event, e.capHandle, e.result);
      assert h' == A.Append(h, e.tick, e.agent, e.event, e.capHandle, e.result);
    }
  }

  lemma CallFollows(m: Machine, c: Call)
    requires !c.ExecuteCall?
    ensures Follows(m.audit, Step(m, c).audit)
  {
  }

  lemma StepAudit(m: Machine, c: Call)
    requires A.Chained(m.audit)
    ensures A.Chained(Step(m, c).audit)
  {
    if !c.ExecuteCall? {
      CallFollows(m, c);
      FollowsKeepsChain(m.audit, Step(m, c).audit);
    } else if |m.agents| < MAX_AGENTS {
      var begun := Audited(m, c.tick, m.nextAgentId, A.AgentSpawned, 0, 0);
      FollowsKeepsChain(m.audit, begun.audit);
      ExecuteFollows(m, c);
      FollowsKeepsChain(begun.audit, Step(m, c).audit);
    }
  }

  lemma ExecuteFollows(m: Machine, c: Call)
    requires c.ExecuteCall? && |m.agents| < MAX_AGENTS
    ensures Follows(Audited(m, c.tick, m.nextAgentId, A.AgentSpawned, 0, 0).audit, Step(m, c).audit)
  {
    var id := m.nextAgentId;
    var m0 := Audited(SpawnOn(m, c.name, c.parent, DEFAULT_BUDGET, EXEC_LIFETIME, c.tick).0, c.tick, id, A.AgentSpawned, 0, 0);
    assert Equip(m0, id, c.chanWrite, c.chanRead, c.tick).audit == m0.audit;
  }

  /** Every run of the guarded kernel keeps all three invariants, and handles never lose what was said of them. */
  lemma {:induction false} RunIsSane(m: Machine, calls: seq<Call>)
    requires Sane(m)
    ensures Sane(RunFrom(m, calls)) && R.Extends(m.caps, RunFrom(m, calls).caps)
    ensures m.nextAgentId <= RunFrom(m, calls).nextAgentId
  {
    if calls != [] {
      var n, c := RunFrom(m, calls[..|calls| - 1]), calls[|calls| - 1];
      RunIsSane(m, calls[..|calls| - 1]);
      StepCaps(n, c);
      StepAgentsOrdered(n, c);
      StepAudit(n, c);
      ExtendsTwice(m.caps, n.caps, Step(n, c).caps);
    }
  }

  const BOOT: Machine := Machine([], 1, [], 1, [])

  lemma RunFromBootIsSane(calls: seq<Call>)
    ensures Sane(RunFrom(BOOT, calls))
  {
    RunIsSane(BOOT, calls);
  }

  // ----- Killing -----

  /**
    Killing an agent leaves nothing live that it owned or that was delegated from what it owned,
    touches nothing else, and terminates that agent alone.
   */
  lemma KillIsExact(m: Machine, id: AgentId)
    requires Sane(m) && Present(m.agents, id)
    ensures KillOn(m, id).1 == Ok(())
    ensures
      var n := KillOn(m, id).0;
      && (forall i | 0 <= i < |m.caps| && DescendsFrom(m.caps, HandlesOf(m.caps, {id}), i) :: n.caps[i].revoked)
      && (forall i | 0 <= i < |m.caps| && !DescendsFrom(m.caps, HandlesOf(m.caps, {id}), i) :: n.caps[i] == m.caps[i])
      && (forall i | 0 <= i < |m.caps| && m.caps[i].owner == id :: n.caps[i].revoked)
      && (forall i | 0 <= i < |m.agents| ::
            n.agents[i] == if m.agents[i].id == id then m.agents[i].(state := Terminated) else m.agents[i])
  {
    assert Select(m.caps, |m.caps|, OwnedBy(id)) == HandlesOf(m.caps, {id});
  }

  /** Killing somebody who is not there changes nothing. */
  lemma KillNobody(m: Machine, id: AgentId)
    requires forall i | 0 <= i < |m.agents| :: m.agents[i].id != id
    ensures KillOn(m, id) == (m, Err(AgentNotFound))
  {
  }

  /** Whatever happens afterwards, no handle delegated from a killed agent's is ever accepted again. */
  lemma KilledHandlesStayDead(m: Machine, id: AgentId, calls: seq<Call>, h: CapHandle, r: Rights, tick: nat)
    requires Sane(m) && Present(m.agents, id)
    requires h < |m.caps| && DescendsFrom(m.caps, HandlesOf(m.caps, {id}), h)
    ensures Check(RunFrom(KillOn(m, id).0, calls).caps, h, r, tick) == Err(Revoked)
  {
    KillIsExact(m, id);
    StepCaps(m, KillCall(id));
    StepAgentsOrdered(m, KillCall(id));
    RunIsSane(KillOn(m, id).0, calls);
  }

  lemma {:induction false} RunExtendsPrefix(m: Machine, calls: seq<Call>, k: nat)
    requires Sane(m) && k <= |calls|
    ensures R.Extends(RunFrom(m, calls[..k]).caps, RunFrom(m, calls).caps)
  {
    if k == |calls| {
      assert calls[..k] == calls;
    } else {
      var before, c := calls[..|calls| - 1], calls[|calls| - 1];
      RunExtendsPrefix(m, before, k);
      assert before[..k] == calls[..k];
      RunIsSane(m, before);
      StepCaps(RunFrom(m, before), c);
      ExtendsTwice(RunFrom(m, calls[..k]).caps, RunFrom(m, before).caps, Step(RunFrom(m, before), c).caps);
    }
  }

  /** The call is one that gives the agent a capability, if it adds any at all. */
  predicate Gives(m: Machine, c: Call, id: AgentId) {
    match c
    case GrantCall(agent, _, _, _, _) => agent == id
    case ExecuteCall(_, _, _, _, _, _, _) => m.nextAgentId == id
    case TableCall(GrantOp(_, agent, _, _, _, _)) => agent == id
    case TableCall(DelegateOp(_, _, newOwner, _, _)) => newOwner == id
    case _ => false
  }

  /** Only a grant to an agent, a delegation to it or its own execution puts an entry of its own into the table. */
  lemma OnlyGiftsAdd(m: Machine, c: Call, h: CapHandle)
    requires Sane(m) && |m.caps| <= h < |Step(m, c).caps|
    ensures Gives(m, c, Step(m, c).caps[h].owner)
  {
    if c.ExecuteCall? {
      ExecuteGives(m, c, h);
    } else if c.TableCall? {
      R.StepShape(m.caps, c.op);
    }
  }

  lemma ExecuteGives(m: Machine, c: Call, h: CapHandle)
    requires Sane(m) && c.ExecuteCall? && |m.caps| <= h < |Step(m, c).caps|
    ensures Step(m, c).caps[h].owner == m.nextAgentId
  {
    if |m.agents| < MAX_AGENTS {
      var id := m.nextAgentId;
      var m0 := Audited(SpawnOn(m, c.name, c.parent, DEFAULT_BUDGET, EXEC_LIFETIME, c.tick).0, c.tick, id, A.AgentSpawned, 0, 0);
      EquipGrows(m0, id, c.chanWrite, c.chanRead, c.tick);
      var s := Equip(m0, id, c.chanWrite, c.chanRead, c.tick).caps;
      SaneMark(s, Select(s, |s|, OwnedBy(id)));
    }
  }

  /** Call `k` of the run is a gift to agent `id`, and put the entry at handle `h` into the table. */
  ghost predicate IssuedTo(m: Machine, calls: seq<Call>, k: nat, h: CapHandle, id: AgentId)
    requires k < |calls|
  {
    var before, after := RunFrom(m, calls[..k]).caps, RunFrom(m, calls[..k + 1]).caps;
    Gives(RunFrom(m, calls[..k]), calls[k], id) && |before| <= h < |after| && after[h].owner == id
  }

  /** Every handle a run adds was put there by one of its calls. */
  lemma {:induction false} IssuedBySomeCall(m: Machine, calls: seq<Call>, h: CapHandle) returns (k: nat)
    requires Sane(m) && |m.caps| <= h < |RunFrom(m, calls).caps|
    ensures k < |calls| && IssuedTo(m, calls, k, h, RunFrom(m, calls).caps[h].owner)
  {
    var n := |calls| - 1;
    var before := RunFrom(m, calls[..n]);
    if h < |before.caps| {
      k := IssuedBySomeCall(m, calls[..n], h);
      assert calls[..n][..k] == calls[..k] && calls[..n][..k + 1] == calls[..k + 1];
      RunIsSane(m, calls[..n]);
      StepCaps(before, calls[n]);
    } else {
      k := n;
      RunIsSane(m, calls[..n]);
      OnlyGiftsAdd(before, calls[n], h);
      assert calls[..n + 1] == calls;
    }
  }

  lemma IssuedKeepsOwner(m: Machine, calls: seq<Call>, k: nat, h: CapHandle, id: AgentId)
    requires Sane(m) && k < |calls| && IssuedTo(m, calls, k, h, id)
    ensures h < |RunFrom(m, calls).caps| && RunFrom(m, calls).caps[h].owner == id
  {
    RunExtendsPrefix(m, calls, k + 1);
  }

  ghost predicate LiveOf(s: Slots, h: CapHandle, id: AgentId) {
    h < |s| && s[h].owner == id && !s[h].revoked
  }

  /** Call `k` gave the agent something that is still live at the end of the run. */
  ghost predicate GiftLasts(m: Machine, calls: seq<Call>, k: nat, h: CapHandle, id: AgentId) {
    k < |calls| && IssuedTo(m, calls, k, h, id) && h < |RunFrom(m, calls).caps| && !RunFrom(m, calls).caps[h].revoked
  }

  /**
    What a killed agent may own later: no call looks at an agent's state before it gives it something,
    so the agent owns something live again iff a later grant, delegation or execution gave it something
    that has not been revoked since.  Nothing it owned before comes back.
   */
  lemma KilledAgentOwnsOnlyGifts(m: Machine, id: AgentId, calls: seq<Call>)
    requires Sane(m) && Present(m.agents, id)
    ensures
      var n := KillOn(m, id).0;
      (exists h :: LiveOf(RunFrom(n, calls).caps, h, id)) <==> (exists k, h :: GiftLasts(n, calls, k, h, id))
  {
    KillIsExact(m, id);
    StepCaps(m, KillCall(id));
    StepAgentsOrdered(m, KillCall(id));
    OwnsOnlyGifts(KillOn(m, id).0, id, calls);
  }

  lemma OwnsOnlyGifts(n: Machine, id: AgentId, calls: seq<Call>)
    requires Sane(n) && forall h :: !LiveOf(n.caps, h, id)
    ensures (exists h :: LiveOf(RunFrom(n, calls).caps, h, id)) <==> (exists k, h :: GiftLasts(n, calls, k, h, id))
  {
    RunIsSane(n, calls);
    if h :| LiveOf(RunFrom(n, calls).caps, h, id) {
      NotLiveBefore(n.caps, RunFrom(n, calls).caps, h, id);
      var k := IssuedBySomeCall(n, calls, h);
      assert GiftLasts(n, calls, k, h, id);
    }
    if k, h :| GiftLasts(n, calls, k, h, id) {
      IssuedKeepsOwner(n, calls, k, h, id);
      assert LiveOf(RunFrom(n, calls).caps, h, id);
    }
  }

  lemma NotLiveBefore(s: Slots, t: Slots, h: CapHandle, id: AgentId)
    requires R.Extends(s, t) && !LiveOf(s, h, id) && LiveOf(t, h, id)
    ensures |s| <= h
  {
  }

  /** Timeouts terminate exactly the overdue agents and revoke exactly what descends from their handles. */
  lemma TimeoutsAreExact(m: Machine, tick: nat)
    requires Ordered(m.agents, m.nextAgentId)
    ensures forall id :: id in OverdueIds(m.agents, tick) <==>
      exists j :: 0 <= j < |m.agents| && m.agents[j].id == id && m.agents[j].state != Terminated &&
                  0 < m.agents[j].maxLifetime <= tick - m.agents[j].spawnTick
    ensures
      var n := EnforceOn(m, tick);
      && (forall i | 0 <= i < |m.agents| ::
            n.agents[i] == if Overdue(m.agents[i], tick) then m.agents[i].(state := Terminated) else m.agents[i])
      && (forall i | 0 <= i < |m.caps| :: n.caps[i] == m.caps[i].(revoked := n.caps[i].revoked))
      && (forall i | 0 <= i < |m.caps| ::
            n.caps[i].revoked <==>
            m.caps[i].revoked || DescendsFrom(m.caps, HandlesOf(m.caps, OverdueIds(m.agents, tick)), i))
  {
    var ids := OverdueIds(m.agents, tick);
    forall i | 0 <= i < |m.agents| && m.agents[i].id in ids ensures Overdue(m.agents[i], tick) {
      var j :| 0 <= j < |m.agents| && Overdue(m.agents[j], tick) && m.agents[j].id == m.agents[i].id;
      OneAgentPerId(m.agents, m.nextAgentId, i, j);
    }
  }

  // ----- Executing an agent -----

  lemma {:induction false} SomeRootAbove(s: Slots, roots: set<CapHandle>, i: CapHandle)
    requires i < |s| && DescendsFrom(s, roots, i)
    ensures exists r :: r in roots && r <= i
  {
    if i !in roots {
      SomeRootAbove(s, roots, s[i].parent.value);
    }
  }

  lemma CleanUpRestores(s: Slots, t: Slots, id: AgentId)
    requires SaneCaps(t) && Grown(s, t, id)
    ensures Live(RevokeAllOn(t, id)) == Live(s) <==>
            forall i | 0 <= i < |s| && !s[i].revoked :: s[i].owner != id
  {
    var roots := Select(t, |t|, OwnedBy(id));
    var after := RevokeAllOn(t, id);
    if forall i | 0 <= i < |s| && !s[i].revoked :: s[i].owner != id {
      forall i | 0 <= i < |t| ensures i in Live(after) <==> i in Live(s) {
        if i < |s| && !s[i].revoked {
          LiveRootsOfLive(t, roots, i);
          if DescendsFrom(t, roots * Live(t), i) {
            SomeRootAbove(t, roots * Live(t), i);
          }
        }
      }
      assert Live(after) == Live(s);
    } else {
      var i :| 0 <= i < |s| && !s[i].revoked && s[i].owner == id;
      assert i in Live(s) && i !in Live(after);
    }
  }

  /**
    An execution leaves the set of live capabilities as it found it iff it could not spawn its agent,
    or it reached the clean-up and the new agent's id owned nothing live before, or it failed in the
    engine with the table already full.
   */
  lemma ExecutionRestoresIff(m: Machine, name: string, parent: Option<AgentId>, chanWrite: Option<nat>,
                             chanRead: Option<nat>, run: EngineRun, tick: nat, endTick: nat)
    requires Sane(m)
    ensures
      Live(ExecuteAgentOn(m, name, parent, chanWrite, chanRead, run, tick, endTick).0.caps) == Live(m.caps) <==>
      |m.agents| >= MAX_AGENTS ||
      (if run.Ran? then forall i | 0 <= i < |m.caps| && !m.caps[i].revoked :: m.caps[i].owner != m.nextAgentId
       else |m.caps| >= MAX_CAPABILITIES)
  {
    if |m.agents| < MAX_AGENTS {
      var id := m.nextAgentId;
      var m0 := SpawnOn(m, name, parent, DEFAULT_BUDGET, EXEC_LIFETIME, tick).0;
      var m1 := Equip(Audited(m0, tick, id, A.AgentSpawned, 0, 0), id, chanWrite, chanRead, tick);
      EquipGrows(Audited(m0, tick, id, A.AgentSpawned, 0, 0), id, chanWrite, chanRead, tick);
      if run.Ran? {
        assert m1.agents[|m.agents|].id == id;
        RunRevokesOwned(m1, id, run, endTick, |m.agents|);
        CleanUpRestores(m.caps, m1.caps, id);
      } else {
        assert RunOn(m1, id, run, endTick).0.caps == m1.caps;
        GrownLive(m.caps, m1.caps, id);
      }
    }
  }

  lemma RunRevokesOwned(m: Machine, id: AgentId, run: EngineRun, endTick: nat, i: nat)
    requires run.Ran? && i < |m.agents| && m.agents[i].id == id
    ensures RunOn(m, id, run, endTick).0.caps == RevokeAllOn(m.caps, id)
  {
    assert SetState(m.agents, id, Active)[i].id == id;
  }

  lemma GrownLive(s: Slots, t: Slots, id: AgentId)
    requires Grown(s, t, id)
    ensures Live(t) == Live(s) <==> |t| == |s|
  {
    if |t| > |s| {
      assert |s| in Live(t) && |s| !in Live(s);
    }
  }

  function ChannelItem(chan: Option<nat>, rights: Rights): seq<(ResourceRef, Rights)> {
    match chan
    case Some(c) => [(Channel(c), rights)]
    case None => []
  }

  /** What an agent starts with, in the order the kernel grants it. */
  function Outfit(chanWrite: Option<nat>, chanRead: Option<nat>): seq<(ResourceRef, Rights)> {
    [(Serial, {Write})] + ChannelItem(chanWrite, {Write}) + ChannelItem(chanRead, {Read}) +
    [(Filesystem, {Write})] + [(Filesystem, {Read})]
  }

  /** `t` is `s` with root entries for `id` appended, one for each item in order, as long as the table has room. */
  ghost predicate Given(s: Slots, t: Slots, items: seq<(ResourceRef, Rights)>, id: AgentId) {
    && |t| == Min(|s| + |items|, MAX_CAPABILITIES) && s <= t
    && forall k | 0 <= k < |t| - |s| :: IsItem(t[|s| + k], items[k], id)
  }

  predicate IsItem(e: CapEntry, item: (ResourceRef, Rights), id: AgentId) {
    (e.resource, e.rights) == item && e.owner == id && e.parent == None && e.expiresAt == 0
  }

  lemma GivenTwice(s: Slots, t: Slots, u: Slots, a: seq<(ResourceRef, Rights)>, b: seq<(ResourceRef, Rights)>, id: AgentId)
    requires |s| <= MAX_CAPABILITIES && Given(s, t, a, id) && Given(t, u, b, id)
    ensures Given(s, u, a + b, id)
  {
    forall k | 0 <= k < |u| - |s| ensures IsItem(u[|s| + k], (a + b)[k], id) {
      if |s| + k < |t| {
        assert u[|s| + k] == t[|s| + k];
      } else {
        assert u[|t| + (|s| + k - |t|)] == u[|s| + k];
      }
    }
  }

  lemma GrantIsGiven(m: Machine, id: AgentId, resource: ResourceRef, rights: Rights, tick: nat)
    requires |m.caps| <= MAX_CAPABILITIES
    ensures Given(m.caps, GrantTo(m, id, resource, rights, tick).caps, [(resource, rights)], id)
  {
  }

  lemma ChannelIsGiven(m: Machine, id: AgentId, chan: Option<nat>, rights: Rights, tick: nat)
    requires |m.caps| <= MAX_CAPABILITIES
    ensures Given(m.caps, GrantChannel(m, id, chan, rights, tick).caps, ChannelItem(chan, rights), id)
  {
  }

  /**
    An agent gets exactly its outfit, nothing it did not ask for and no right beyond the one named, as far
    as the table has room: the grants that no longer fit are dropped without a word.
   */
  lemma EquipGivesOutfit(m: Machine, id: AgentId, chanWrite: Option<nat>, chanRead: Option<nat>, tick: nat)
    requires |m.caps| <= MAX_CAPABILITIES
    ensures Given(m.caps, Equip(m, id, chanWrite, chanRead, tick).caps, Outfit(chanWrite, chanRead), id)
  {
    var m1 := GrantTo(m, id, Serial, {Write}, tick);
    var m2 := GrantChannel(m1, id, chanWrite, {Write}, tick);
    var m3 := GrantChannel(m2, id, chanRead, {Read}, tick);
    var m4 := GrantTo(m3, id, Filesystem, {Write}, tick);
    var m5 := GrantTo(m4, id, Filesystem, {Read}, tick);
    var a, b, c := [(Serial, {Write})], ChannelItem(chanWrite, {Write}), ChannelItem(chanRead, {Read});
    var d, e := [(Filesystem, {Write})], [(Filesystem, {Read})];
    GrantIsGiven(m, id, Serial, {Write}, tick);
    ChannelIsGiven(m1, id, chanWrite, {Write}, tick);
    ChannelIsGiven(m2, id, chanRead, {Read}, tick);
    GrantIsGiven(m3, id, Filesystem, {Write}, tick);
    GrantIsGiven(m4, id, Filesystem, {Read}, tick);
    GivenTwice(m.caps, m1.caps, m2.caps, a, b, id);
    GivenTwice(m.caps, m2.caps, m3.caps, a + b, c, id);
    GivenTwice(m.caps, m3.caps, m4.caps, a + b + c, d, id);
    GivenTwice(m.caps, m4.caps, m5.caps, a + b + c + d, e, id);
  }

  /** `a` is what its spawner asked for, and has not done anything yet; a long name is cut to 63 bytes. */
  ghost predicate FreshAgent(a: Agent, id: AgentId, name: string, parent: Option<AgentId>, budget: ResourceBudget,
                             maxLifetime: nat, tick: nat)
  {
    && a.id == id && a.parent == parent && a.budget == budget && a.capabilities == []
    && a.name <= name && |a.name| == Min(|name|, 63)
    && a.spawnTick == tick && a.maxLifetime == maxLifetime
  }

  /**
    Spawning fails iff there are 256 agents, and then changes nothing; else it adds one agent that is still
    initializing.
   */
  lemma SpawnAddsFreshAgent(m: Machine, name: string, parent: Option<AgentId>, budget: ResourceBudget,
                            maxLifetime: nat, tick: nat)
    ensures
      var (n, r) := SpawnOn(m, name, parent, budget, maxLifetime, tick);
      if |m.agents| >= 256 then n == m && r == Err(MaxAgentsReached)
      else
        && r == Ok(m.nextAgentId) && n == m.(agents := n.agents, nextAgentId := m.nextAgentId + 1)
        && m.agents <= n.agents && |n.agents| == |m.agents| + 1
        && FreshAgent(n.agents[|m.agents|], m.nextAgentId, name, parent, budget, maxLifetime, tick)
        && n.agents[|m.agents|].state == Initializing
  {
  }

  /**
    What an execution answers and how it leaves its agent: Ok iff the agent could be spawned and its code
    ran, to an end or a trap, and then the agent is terminated; after a failure of the engine it stays
    behind, active if only the start function was missing, and initializing if its code never loaded.
   */
  lemma ExecutionOutcome(m: Machine, name: string, parent: Option<AgentId>, chanWrite: Option<nat>,
                         chanRead: Option<nat>, run: EngineRun, tick: nat, endTick: nat)
    requires Sane(m)
    ensures
      var (n, r) := ExecuteAgentOn(m, name, parent, chanWrite, chanRead, run, tick, endTick);
      if |m.agents| >= 256 then n == m && r == Err(SpawnFailed(MaxAgentsReached))
      else
        && r == (if run.Ran? then Ok(()) else Err(EngineFailed(run)))
        && m.agents <= n.agents && |n.agents| == |m.agents| + 1
        && FreshAgent(n.agents[|m.agents|], m.nextAgentId, name, parent,
                      ResourceBudget(16 * 1024 * 1024, 1_000_000, 10_000, 4, 0, 0, 0, 0), 60_000, tick)
        && n.agents[|m.agents|].state ==
             match run { case Ran(_) => Terminated case NoStart => Active case _ => Initializing }
  {
    if |m.agents| < 256 {
      var id := m.nextAgentId;
      var m0 := Audited(SpawnOn(m, name, parent, DEFAULT_BUDGET, EXEC_LIFETIME, tick).0, tick, id, A.AgentSpawned, 0, 0);
      SpawnAddsFreshAgent(m, name, parent, DEFAULT_BUDGET, EXEC_LIFETIME, tick);
      var m1 := Equip(m0, id, chanWrite, chanRead, tick);
      assert m1.agents == m0.agents;
      RunLeavesAgent(m1, m.agents, id, run, endTick);
    }
  }

  lemma RunLeavesAgent(m: Machine, others: seq<Agent>, id: AgentId, run: EngineRun, endTick: nat)
    requires |m.agents| == |others| + 1 && others <= m.agents && m.agents[|others|].id == id
    requires forall i | 0 <= i < |others| :: others[i].id != id
    ensures
      var (n, r) := RunOn(m, id, run, endTick);
      var a := m.agents[|others|];
      && r == (if run.Ran? then Ok(()) else Err(EngineFailed(run)))
      && others <= n.agents && |n.agents| == |m.agents|
      && n.agents[|others|] ==
           match run { case Ran(_) => a.(state := Terminated) case NoStart => a.(state := Active) case _ => a }
  {
  }

  /** A spawned agent is terminated by a timeout sweep iff it has a lifetime and that has run out. */
  lemma SpawnedAgentTimesOut(m: Machine, name: string, parent: Option<AgentId>, budget: ResourceBudget,
                             maxLifetime: nat, tick: nat, later: nat)
    requires Sane(m) && |m.agents| < MAX_AGENTS
    ensures
      var n := EnforceOn(SpawnOn(m, name, parent, budget, maxLifetime, tick).0, later);
      n.agents[|m.agents|].state == Terminated <==> maxLifetime > 0 && later >= tick + maxLifetime
  {
    var s := SpawnOn(m, name, parent, budget, maxLifetime, tick).0;
    StepAgentsOrdered(m, SpawnCall(name, parent, budget, maxLifetime, tick));
    TimeoutsAreExact(s, later);
  }

  // ----- The I/O budget -----

  ghost function Lookup(list: seq<Agent>, id: AgentId): Option<Agent> {
    if list == [] then None
    else if list[|list| - 1].id == id then Some(list[|list| - 1])
    else Lookup(list[..|list| - 1], id)
  }

  lemma {:induction false} LookupFinds(list: seq<Agent>, nextId: AgentId, i: nat)
    requires Ordered(list, nextId) && i < |list|
    ensures Lookup(list, list[i].id) == Some(list[i])
  {
    if i < |list| - 1 {
      LookupFinds(list[..|list| - 1], nextId, i);
    }
  }

  lemma {:induction false} LookupIsThere(list: seq<Agent>, id: AgentId) returns (i: nat)
    requires Lookup(list, id).Some?
    ensures i < |list| && list[i].id == id && Lookup(list, id) == Some(list[i])
  {
    if list[|list| - 1].id == id {
      i := |list| - 1;
    } else {
      i := LookupIsThere(list[..|list| - 1], id);
    }
  }

  /** The successful writes of one agent during a run. */
  ghost function Writes(m: Machine, calls: seq<Call>, id: AgentId): nat {
    if calls == [] then 0 else
      var before := calls[..|calls| - 1];
      Writes(m, before, id) + if Wrote(RunFrom(m, before), calls[|calls| - 1], id) then 1 else 0
  }

  lemma CollectKeepsAgent(list: seq<Agent>, i: nat) returns (j: nat)
    requires i < |Retained(list)|
    ensures j < |list| && list[j] == Retained(list)[i]
  {
    RetainedMembers(list, Retained(list)[i]);
    j :| 0 <= j < |list| && list[j] == Retained(list)[i];
  }

  /** `b` is `a` after the step, as far as the budget goes. */
  ghost predicate SameAgent(m: Machine, c: Call, a: Agent, b: Agent) {
    a.id == b.id && b.budget == if Wrote(m, c, b.id) then a.budget.RecordIo() else a.budget
  }

  lemma StepKeepsPosition(m: Machine, c: Call, i: nat)
    requires Ordered(m.agents, m.nextAgentId) && !c.CollectCall?
    requires i < |Step(m, c).agents| && Step(m, c).agents[i].id < m.nextAgentId
    ensures i < |m.agents| && SameAgent(m, c, m.agents[i], Step(m, c).agents[i])
  {
    if c.ExecuteCall? {
      ExecuteAgents(m, c);
    } else if !c.SpawnCall? {
      StepInPlace(m, c);
    }
  }

  /** Every agent found after a step whose id was given out before it was there before it, at some position. */
  lemma StepKeepsAgent(m: Machine, c: Call, i: nat) returns (j: nat)
    requires Ordered(m.agents, m.nextAgentId)
    requires i < |Step(m, c).agents| && Step(m, c).agents[i].id < m.nextAgentId
    ensures j < |m.agents| && SameAgent(m, c, m.agents[j], Step(m, c).agents[i])
  {
    if c.CollectCall? {
      j := CollectKeepsAgent(m.agents, i);
    } else {
      StepKeepsPosition(m, c, i);
      j := i;
    }
  }

  /**
    An agent known before a step and present after it was present before it, and only a successful write
    changes its budget.
   */
  lemma StepBudget(m: Machine, c: Call, id: AgentId)
    requires Ordered(m.agents, m.nextAgentId) && id < m.nextAgentId && Lookup(Step(m, c).agents, id).Some?
    ensures Lookup(m.agents, id).Some?
    ensures
      var a, b := Lookup(m.agents, id).value, Lookup(Step(m, c).agents, id).value;
      && b.budget == (if Wrote(m, c, id) then a.budget.RecordIo() else a.budget)
      && (Wrote(m, c, id) ==> a.budget.CanIo())
  {
    var i := LookupIsThere(Step(m, c).agents, id);
    var j := StepKeepsAgent(m, c, i);
    LookupFinds(m.agents, m.nextAgentId, j);
    WroteWithinBudget(m, c, id, j);
  }

  lemma WroteWithinBudget(m: Machine, c: Call, id: AgentId, i: nat)
    requires i < |m.agents| && m.agents[i].id == id
    ensures Wrote(m, c, id) ==> m.agents[i].budget.CanIo()
  {
  }

  /**
    Over any run, an agent that is there at both ends has used exactly as many I/O operations as it
    made successful writes, and never more than its limit if it started within it.
   */
  lemma {:induction false} IoBudgetIsExact(m: Machine, calls: seq<Call>, id: AgentId)
    requires Sane(m) && id < m.nextAgentId && Lookup(RunFrom(m, calls).agents, id).Some?
    ensures Lookup(m.agents, id).Some?
    ensures
      var a, b := Lookup(m.agents, id).value.budget, Lookup(RunFrom(m, calls).agents, id).value.budget;
      && b.usedIo == a.usedIo + Writes(m, calls, id) && b.ioOps == a.ioOps
      && (a.usedIo <= a.ioOps ==> b.usedIo <= b.ioOps)
  {
    if calls != [] {
      var before := calls[..|calls| - 1];
      RunIsSane(m, before);
      StepBudget(RunFrom(m, before), calls[|calls| - 1], id);
      IoBudgetIsExact(m, before, id);
    }
  }

  predicate Usable(e: CapEntry, right: Right, tick: nat) {
    !e.revoked && !(0 < e.expiresAt <= tick) && right in e.rights
  }

  /**
    When a write goes through, and which refusal it gets otherwise: the handle must be live, unexpired and
    carry the right, and the agent, if the table knows it, must have used fewer operations than it has.
   */
  lemma WriteSucceedsIff(m: Machine, id: AgentId, h: CapHandle, tick: nat)
    ensures
      var r := WriteOn(m, id, h, tick).1;
      var usable := h < |m.caps| && Usable(m.caps[h], Write, tick);
      var within := forall i | 0 <= i < |m.agents| && m.agents[i].id == id ::
                      m.agents[i].budget.usedIo < m.agents[i].budget.ioOps;
      && (r == Done <==> usable && within)
      && (r == Failed(BudgetExceeded) <==> usable && !within)
  {
  }

  /**
    Over any run: an agent's next write by way of a usable handle goes through iff what it had used at the
    start and its successful writes since are still below its limit.
   */
  lemma WritesUntilLimit(m: Machine, calls: seq<Call>, id: AgentId, h: CapHandle, tick: nat)
    requires Sane(m) && id < m.nextAgentId && Lookup(RunFrom(m, calls).agents, id).Some?
    requires h < |RunFrom(m, calls).caps| && Usable(RunFrom(m, calls).caps[h], Write, tick)
    ensures Lookup(m.agents, id).Some?
    ensures
      var start := Lookup(m.agents, id).value.budget;
      WriteOn(RunFrom(m, calls), id, h, tick).1 == Done <==> start.usedIo + Writes(m, calls, id) < start.ioOps
  {
    var n := RunFrom(m, calls);
    RunIsSane(m, calls);
    IoBudgetIsExact(m, calls, id);
    WriteSucceedsIff(n, id, h, tick);
    var i := LookupIsThere(n.agents, id);
    forall j | 0 <= j < |n.agents| && n.agents[j].id == id ensures j == i {
      OneAgentPerId(n.agents, n.nextAgentId, i, j);
    }
  }

  // ----- The audit trail -----

  ghost predicate OneMore(m: Machine, n: Machine, agent: AgentId, tick: nat, event: A.AuditEvent, cap: CapHandle,
                          result: int)
  {
    n.audit == m.audit + [A.AuditEntry(tick, agent, event, cap, result, A.LastHash(m.audit))]
  }

  /**
    A read and a write each leave exactly one record, which says whether they succeeded, and no trace on
    the capabilities.
   */
  lemma AccessIsRecorded(m: Machine, agent: AgentId, h: CapHandle, tick: nat)
    ensures
      var (n, r) := ReadOn(m, agent, h, tick);
      && n == m.(audit := n.audit)
      && r == (match Check(m.caps, h, {Read}, tick) case Ok(_) => Done case Err(e) => Failed(CapabilityDenied(e)))
      && (if r == Done then OneMore(m, n, agent, tick, A.CapGranted, h, 0)
          else OneMore(m, n, agent, tick, A.CapCheckFail, h, -1))
    ensures
      var (n, r) := WriteOn(m, agent, h, tick);
      && n == m.(audit := n.audit, agents := n.agents)
      && r == (match Check(m.caps, h, {Write}, tick)
               case Ok(_) => if OutOfIo(m.agents, agent) then Failed(BudgetExceeded) else Done
               case Err(e) => Failed(CapabilityDenied(e)))
      && (if r == Done then OneMore(m, n, agent, tick, A.CapGranted, h, 0)
          else n.agents == m.agents &&
               OneMore(m, n, agent, tick, if r == Failed(BudgetExceeded) then A.AgentOverBudget else A.CapCheckFail, h,
                       if r == Failed(BudgetExceeded) then -2 else -1))
  {
  }

  /**
    Neither a read nor a write asks whose the handle is.  So every read an agent can make is by way of a
    handle of its own iff nobody else owns one that is live, unexpired and carries the right; the same
    goes for writes unless the agent's I/O budget stops them all.
   */
  lemma AccessIsByOwnerIff(m: Machine, agent: AgentId, tick: nat)
    ensures
      (forall h | 0 <= h < |m.caps| && ReadOn(m, agent, h, tick).1 == Done :: m.caps[h].owner == agent) <==>
      (forall h | 0 <= h < |m.caps| && Usable(m.caps[h], Read, tick) :: m.caps[h].owner == agent)
    ensures
      (forall h | 0 <= h < |m.caps| && WriteOn(m, agent, h, tick).1 == Done :: m.caps[h].owner == agent) <==>
      OutOfIo(m.agents, agent) ||
      (forall h | 0 <= h < |m.caps| && Usable(m.caps[h], Write, tick) :: m.caps[h].owner == agent)
  {
    forall h | 0 <= h < |m.caps|
      ensures ReadOn(m, agent, h, tick).1 == Done <==> Usable(m.caps[h], Read, tick)
      ensures WriteOn(m, agent, h, tick).1 == Done <==> Usable(m.caps[h], Write, tick) && !OutOfIo(m.agents, agent)
    {
    }
  }

  /**
    A grant leaves exactly one record; it succeeds iff a slot is free, and then the new handle is good for
    exactly the rights named, until its timeout.
   */
  lemma GrantIsRecorded(m: Machine, agent: AgentId, resource: ResourceRef, rights: Rights, timeout: nat, tick: nat,
                        q: Rights, later: nat)
    requires Sane(m)
    ensures
      var (n, r) := CapGrantOn(m, agent, resource, rights, timeout, tick);
      if |m.caps| < MAX_CAPABILITIES then
        && r == Handle(|m.caps|) && OneMore(m, n, agent, tick, A.CapGranted, |m.caps|, 0)
        && (Check(n.caps, |m.caps|, q, later).Ok? <==> q <= rights && (timeout == 0 || later < tick + timeout))
        && m.caps <= n.caps && n.caps[|m.caps|].owner == agent && n.caps[|m.caps|].resource == resource
        && |n.agents| == |m.agents|
        && (forall i | 0 <= i < |m.agents| ::
              n.agents[i].capabilities == m.agents[i].capabilities + if m.agents[i].id == agent then [|m.caps|] else [])
      else
        && r == Failed(CapabilityDenied(TableFull)) && OneMore(m, n, agent, tick, A.CapCheckFail, 0, -1)
        && n == m.(audit := n.audit)
  {
  }

  /**
    A revocation by system call succeeds iff the caller owns the handle and it is live and unexpired.
    A failed one changes nothing at all; a successful one leaves one record and revokes exactly the
    handle and its live descendants.
   */
  lemma RevokeCallIsExact(m: Machine, agent: AgentId, h: CapHandle, tick: nat)
    requires Sane(m)
    ensures
      var (n, r) := CapRevokeOn(m, agent, h, tick);
      && (r == Done <==> h < |m.caps| && m.caps[h].owner == agent && !m.caps[h].revoked && !ExpiredAt(m.caps[h], tick))
      && (r == Failed(CapabilityDenied(NotOwner)) <==>
            h < |m.caps| && m.caps[h].owner != agent && !m.caps[h].revoked && !ExpiredAt(m.caps[h], tick))
      && (r != Done ==> n == m)
      && (r == Done ==>
            && OneMore(m, n, agent, tick, A.CapRevoked, h, 0) && n == m.(caps := n.caps, audit := n.audit)
            && |n.caps| == |m.caps|
            && forall i | 0 <= i < |m.caps| ::
                 n.caps[i] == m.caps[i].(revoked := m.caps[i].revoked || DescendsFrom(m.caps, {h}, i)))
  {
    if h < |m.caps| {
      CascadeRevokesSubtree(m.caps, h);
    }
  }

  // ----- The whole trail -----

  datatype Note = Note(tick: nat, agent: AgentId, event: A.AuditEvent, cap: CapHandle, result: int)

  function NoteOf(e: A.AuditEntry): Note {
    Note(e.tick, e.agent, e.event, e.capHandle, e.result)
  }

  /** What the trail has to say about an access, by its outcome. */
  function AccessNote(tick: nat, agent: AgentId, h: CapHandle, r: SyscallResult): Note {
    match r
    case Failed(BudgetExceeded) => Note(tick, agent, A.AgentOverBudget, h, -2)
    case Failed(CapabilityDenied(_)) => Note(tick, agent, A.CapCheckFail, h, -1)
    case _ => Note(tick, agent, A.CapGranted, h, 0)
  }

  /** What one call leaves in the trail; agent operations and direct operations on the table leave nothing. */
  ghost function Notes(m: Machine, c: Call): seq<Note> {
    match c
    case ReadCall(agent, h, tick) => [AccessNote(tick, agent, h, ReadOn(m, agent, h, tick).1)]
    case WriteCall(agent, h, tick) => [AccessNote(tick, agent, h, WriteOn(m, agent, h, tick).1)]
    case GrantCall(agent, resource, rights, timeout, tick) =>
      var r := CapGrantOn(m, agent, resource, rights, timeout, tick).1;
      [AccessNote(tick, agent, if r.Handle? then r.handle else 0, r)]
    case RevokeCall(agent, h, tick) =>
      if CapRevokeOn(m, agent, h, tick).1 == Done then [Note(tick, agent, A.CapRevoked, h, 0)] else []
    case ExecuteCall(_, _, _, _, run, tick, endTick) =>
      if |m.agents| >= MAX_AGENTS then []
      else [Note(tick, m.nextAgentId, A.AgentSpawned, 0, 0)] +
           if run.Ran? then [Note(endTick, m.nextAgentId, A.AgentKilled, 0, 0)] else []
    case _ => []
  }

  ghost function Trail(m: Machine, calls: seq<Call>): seq<Note> {
    if calls == [] then [] else
      var before := calls[..|calls| - 1];
      Trail(m, before) + Notes(RunFrom(m, before), calls[|calls| - 1])
  }

  /** `h'` is `h` followed by one entry for each note, in order. */
  ghost predicate Adds(h: seq<A.AuditEntry>, h': seq<A.AuditEntry>, notes: seq<Note>) {
    |h'| == |h| + |notes| && h <= h' && forall i | 0 <= i < |notes| :: NoteOf(h'[|h| + i]) == notes[i]
  }

  lemma AddsTwice(h: seq<A.AuditEntry>, h': seq<A.AuditEntry>, h'': seq<A.AuditEntry>, a: seq<Note>, b: seq<Note>)
    requires Adds(h, h', a) && Adds(h', h'', b)
    ensures Adds(h, h'', a + b)
  {
    forall i | 0 <= i < |a + b| ensures NoteOf(h''[|h| + i]) == (a + b)[i] {
      if i < |a| {
        assert h''[|h| + i] == h'[|h| + i];
      } else {
        assert h''[|h'| + (i - |a|)] == h''[|h| + i];
      }
    }
  }

  lemma StepAdds(m: Machine, c: Call)
    ensures Adds(m.audit, Step(m, c).audit, Notes(m, c))
  {
    if c.ExecuteCall? && |m.agents| < MAX_AGENTS {
      ExecuteAdds(m, c);
    }
  }

  lemma ExecuteAdds(m: Machine, c: Call)
    requires c.ExecuteCall? && |m.agents| < MAX_AGENTS
    ensures Adds(m.audit, Step(m, c).audit, Notes(m, c))
  {
    var id := m.nextAgentId;
    var m0 := Audited(SpawnOn(m, c.name, c.parent, DEFAULT_BUDGET, EXEC_LIFETIME, c.tick).0, c.tick, id, A.AgentSpawned, 0, 0);
    var m1 := Equip(m0, id, c.chanWrite, c.chanRead, c.tick);
    assert m1.audit == m0.audit;
    RunAdds(m1, id, c.run, c.endTick);
    AddsTwice(m.audit, m0.audit, RunOn(m1, id, c.run, c.endTick).0.audit, [Note(c.tick, id, A.AgentSpawned, 0, 0)],
              if c.run.Ran? then [Note(c.endTick, id, A.AgentKilled, 0, 0)] else []);
  }

  lemma RunAdds(m: Machine, id: AgentId, run: EngineRun, endTick: nat)
    ensures Adds(m.audit, RunOn(m, id, run, endTick).0.audit,
                 if run.Ran? then [Note(endTick, id, A.AgentKilled, 0, 0)] else [])
  {
  }

  /**
    The trail of a whole run: the old one, untouched, followed by one record for each thing its calls had
    to note, in the order of the calls and with every recorded field as the call's outcome demands.
   */
  lemma {:induction false} RunLeavesTrail(m: Machine, calls: seq<Call>)
    ensures Adds(m.audit, RunFrom(m, calls).audit, Trail(m, calls))
  {
    if calls != [] {
      var before := calls[..|calls| - 1];
      RunLeavesTrail(m, before);
      StepAdds(RunFrom(m, before), calls[|calls| - 1]);
      AddsTwice(m.audit, RunFrom(m, before).audit, RunFrom(m, calls).audit, Trail(m, before),
                Notes(RunFrom(m, before), calls[|calls| - 1]));
    }
  }
}
