/**
  Whole runs of the capability table: what one flag per entry knows about a run's history.

  The independent reference is the history itself.  `Targets` collects the handles a run named
  for revocation, looking only at fields that never change, and `ChainWalk` is the slow check that
  walks the whole delegation chain and never looks at a revoked flag.
 */
module CapabilityRuns {
  import opened Wrappers
  import opened Capabilities

  datatype Op =
    | GrantOp(id: nat, agent: AgentId, resource: ResourceRef, rights: Rights, expiresAt: nat, tick: nat)
    | DelegateOp(id: nat, parent: CapHandle, newOwner: AgentId, newRights: Rights, tick: nat)
    | RevokeOp(handle: CapHandle)
    | RevokeAllOp(agent: AgentId)
    | GcOp(tick: nat)

  datatype Reply = Handle(handle: CapHandle) | Done | Failed(error: CapError)

  function Placed(r: Result<CapHandle, CapError>): Reply {
    match r
    case Ok(h) => Handle(h)
    case Err(e) => Failed(e)
  }

  ghost function Step(s: Slots, op: Op): (Slots, Reply) {
    match op
    case GrantOp(id, agent, resource, rights, expiresAt, tick) =>
      var (t, r) := GrantOn(s, id, agent, resource, rights, expiresAt, tick); (t, Placed(r))
    case DelegateOp(id, parent, newOwner, newRights, tick) =>
      var (t, r) := DelegateOn(s, id, parent, newOwner, newRights, tick); (t, Placed(r))
    case RevokeOp(h) => if h < |s| then (Cascade(s, h), Done) else (s, Failed(InvalidHandle))
    case RevokeAllOp(agent) => (RevokeAllOn(s, agent), Done)
    case GcOp(tick) => (GcOn(s, tick), Done)
  }

  ghost function RunFrom(s: Slots, ops: seq<Op>): Slots {
    if ops == [] then s else Step(RunFrom(s, ops[..|ops| - 1]), ops[|ops| - 1]).0
  }

  /** The table after a run from boot. */
  ghost function Run(ops: seq<Op>): Slots {
    RunFrom([], ops)
  }

  // ----- The reference -----

  /** The handles one operation names for revocation. */
  ghost function Aims(s: Slots, op: Op): set<CapHandle> {
    match op
    case RevokeOp(h) => if h < |s| then {h} else {}
    case RevokeAllOp(agent) => Select(s, |s|, OwnedBy(agent))
    case GcOp(tick) => Select(s, |s|, OutOfTime(tick))
    case _ => {}
  }

  ghost function Targets(ops: seq<Op>): set<CapHandle> {
    if ops == [] then {} else
      var before := ops[..|ops| - 1];
      Targets(before) + Aims(Run(before), ops[|ops| - 1])
  }

  ghost predicate ChainWalk(s: Slots, targets: set<CapHandle>, h: CapHandle, required: Rights, tick: nat)
    requires h < |s|
  {
    h !in targets && !ExpiredAt(s[h], tick) && required <= s[h].rights &&
    (s[h].parent.Some? && s[h].parent.value < h ==> ChainWalk(s, targets, s[h].parent.value, required, tick))
  }

  // ----- Invariants of every run -----

  lemma {:induction false} RunIsClosedForest(ops: seq<Op>)
    ensures Forest(Run(ops)) && Closed(Run(ops)) && |Run(ops)| <= MAX_CAPABILITIES
  {
    if ops != [] {
      var s, op := Run(ops[..|ops| - 1]), ops[|ops| - 1];
      RunIsClosedForest(ops[..|ops| - 1]);
      StepKeepsForest(s, op);
    }
  }

  lemma StepKeepsForest(s: Slots, op: Op)
    requires Forest(s) && Closed(s)
    ensures Forest(Step(s, op).0) && Closed(Step(s, op).0)
    ensures |s| <= MAX_CAPABILITIES ==> |Step(s, op).0| <= MAX_CAPABILITIES
  {
    match op {
      case GrantOp(id, agent, resource, rights, expiresAt, tick) =>
        PlaceKeepsForest(s, CapEntry(id, resource, rights, agent, None, expiresAt, false, tick));
      case DelegateOp(id, parent, newOwner, newRights, tick) =>
        if Check(s, parent, newRights, tick).Ok? {
          var p := s[parent];
          PlaceKeepsForest(s, CapEntry(id, p.resource, newRights, newOwner, Some(parent), p.expiresAt, false, tick));
        }
      case RevokeOp(h) =>
        CascadeRevokesSubtree(s, h);
        MarkKeepsForest(s, {h});
      case RevokeAllOp(agent) => MarkKeepsForest(s, Aims(s, op));
      case GcOp(tick) => MarkKeepsForest(s, Aims(s, op));
    }
  }

  /** Every step either appends one entry or marks what lies below the handles it aims at. */
  lemma StepShape(s: Slots, op: Op)
    requires Forest(s) && Closed(s)
    ensures
      var t := Step(s, op).0;
      if op.GrantOp? || op.DelegateOp? then
        t == s || (|t| == |s| + 1 && t == s + [t[|s|]] && !t[|s|].revoked && Aims(s, op) == {} &&
                   (t[|s|].parent.Some? ==> t[|s|].parent.value < |s| && !s[t[|s|].parent.value].revoked))
      else t == Mark(s, Aims(s, op))
  {
    if op.RevokeOp? {
      CascadeRevokesSubtree(s, op.handle);
      NobodyBelowNothing(s);
    }
  }

  /**
    In every reachable table an entry carries the revoked flag iff it, or some ancestor of it, was
    named for revocation at some point of the run.
   */
  lemma {:induction false} FlagIsHistory(ops: seq<Op>, i: CapHandle)
    requires i < |Run(ops)|
    ensures Run(ops)[i].revoked <==> DescendsFrom(Run(ops), Targets(ops), i)
  {
    FlagsAreHistory(ops);
    assert Flagging(Run(ops), Targets(ops), i);
  }

  ghost predicate Tracks(s: Slots, targets: set<CapHandle>) {
    (forall h | h in targets :: h < |s|) &&
    forall i: CapHandle :: i < |s| ==> Flagging(s, targets, i)
  }

  ghost predicate Flagging(s: Slots, targets: set<CapHandle>, i: CapHandle)
    requires i < |s|
  {
    s[i].revoked <==> DescendsFrom(s, targets, i)
  }

  lemma {:induction false} FlagsAreHistory(ops: seq<Op>)
    ensures Tracks(Run(ops), Targets(ops))
  {
    if ops != [] {
      var before, op := ops[..|ops| - 1], ops[|ops| - 1];
      FlagsAreHistory(before);
      RunIsClosedForest(before);
      StepTracks(Run(before), Targets(before), op);
    }
  }

  lemma StepTracks(s: Slots, targets: set<CapHandle>, op: Op)
    requires Forest(s) && Closed(s) && Tracks(s, targets)
    ensures Tracks(Step(s, op).0, targets + Aims(s, op))
  {
    StepShape(s, op);
    var t := Step(s, op).0;
    if op.GrantOp? || op.DelegateOp? {
      assert targets + Aims(s, op) == targets;
      if t != s {
        AppendTracks(s, targets, t[|s|]);
      }
    } else {
      MarkTracks(s, targets, Aims(s, op));
    }
  }

  lemma AppendTracks(s: Slots, targets: set<CapHandle>, e: CapEntry)
    requires Tracks(s, targets) && !e.revoked
    requires e.parent.Some? ==> e.parent.value < |s| && !s[e.parent.value].revoked
    ensures Tracks(s + [e], targets)
  {
    var t := s + [e];
    forall i: CapHandle | i < |t| ensures Flagging(t, targets, i) {
      if i < |s| {
        DescendsInPrefix(s, e, targets, i);
        assert Flagging(s, targets, i);
      } else if e.parent.Some? {
        DescendsInPrefix(s, e, targets, e.parent.value);
        assert Flagging(s, targets, e.parent.value);
      }
    }
  }

  lemma MarkTracks(s: Slots, targets: set<CapHandle>, more: set<CapHandle>)
    requires Tracks(s, targets) && forall h | h in more :: h < |s|
    ensures Tracks(Mark(s, more), targets + more)
  {
    var t := Mark(s, more);
    forall i: CapHandle | i < |t| ensures Flagging(t, targets + more, i) {
      assert Flagging(s, targets, i);
      DescendsFromUnion(s, targets, more, i);
      DescendsBySameLinks(s, t, targets + more, i);
    }
  }

  /**
    The constant-time check agrees with the chain walk: it succeeds iff nobody on the handle's
    delegation chain was ever named for revocation, nothing on it has expired, and every link of it
    carries the required rights.
   */
  lemma CheckIsChainWalk(ops: seq<Op>, h: CapHandle, required: Rights, tick: nat)
    ensures Check(Run(ops), h, required, tick).Ok? <==>
            h < |Run(ops)| && ChainWalk(Run(ops), Targets(ops), h, required, tick)
  {
    if h < |Run(ops)| {
      RunIsClosedForest(ops);
      FlagIsHistory(ops, h);
      WalkCollapses(Run(ops), Targets(ops), h, required, tick);
    }
  }

  lemma {:induction false} WalkCollapses(s: Slots, targets: set<CapHandle>, h: CapHandle, required: Rights, tick: nat)
    requires Forest(s) && h < |s|
    ensures ChainWalk(s, targets, h, required, tick) <==>
            !DescendsFrom(s, targets, h) && !ExpiredAt(s[h], tick) && required <= s[h].rights
  {
    assert Linked(s, h);
    if s[h].parent.Some? {
      WalkCollapses(s, targets, s[h].parent.value, required, tick);
    }
  }

  /** Delegation only attenuates, over whole runs. */
  lemma Attenuation(ops: seq<Op>, a: CapHandle, i: CapHandle)
    requires a < |Run(ops)| && i < |Run(ops)| && DescendsFrom(Run(ops), {a}, i)
    ensures Run(ops)[i].rights <= Run(ops)[a].rights
    ensures Run(ops)[i].resource == Run(ops)[a].resource && Run(ops)[i].expiresAt == Run(ops)[a].expiresAt
  {
    RunIsClosedForest(ops);
    InheritedFromAncestor(Run(ops), a, i);
  }

  // ----- Handles are for ever -----

  /** `t` may know more handles than `s`; the ones of `s` keep every field, and the flag only ever rises. */
  ghost predicate Extends(s: Slots, t: Slots) {
    |s| <= |t| &&
    forall i | 0 <= i < |s| :: t[i] == s[i].(revoked := t[i].revoked) && (s[i].revoked ==> t[i].revoked)
  }

  lemma {:induction false} RunExtends(s: Slots, ops: seq<Op>)
    requires Forest(s) && Closed(s)
    ensures Extends(s, RunFrom(s, ops)) && Forest(RunFrom(s, ops)) && Closed(RunFrom(s, ops))
  {
    if ops != [] {
      var before := ops[..|ops| - 1];
      RunExtends(s, before);
      StepShape(RunFrom(s, before), ops[|ops| - 1]);
      StepKeepsForest(RunFrom(s, before), ops[|ops| - 1]);
    }
  }

  lemma {:induction false} RunSplits(s: Slots, ops: seq<Op>, more: seq<Op>)
    ensures RunFrom(s, ops + more) == RunFrom(RunFrom(s, ops), more)
  {
    if more == [] {
      assert ops + more == ops;
    } else {
      RunSplits(s, ops, more[..|more| - 1]);
      assert (ops + more)[..|ops + more| - 1] == ops + more[..|more| - 1];
    }
  }

  /** A handle refused as Revoked is refused as Revoked for ever, whatever is asked of it. */
  lemma RevokedForEver(ops: seq<Op>, more: seq<Op>, h: CapHandle, r: Rights, tick: nat, r': Rights, later: nat)
    requires Check(Run(ops), h, r, tick) == Err(Revoked)
    ensures Check(Run(ops + more), h, r', later) == Err(Revoked)
  {
    RunIsClosedForest(ops);
    RunExtends(Run(ops), more);
    RunSplits([], ops, more);
  }

  // ----- What a handle is good for -----

  /**
    Why a handle issued during a run is refused, in the order in which the reasons take precedence:
    somebody on its chain was named for revocation, then its time has run out, then it lacks a right.
   */
  lemma RefusalsHaveReasons(ops: seq<Op>, h: CapHandle, q: Rights, tick: nat)
    ensures
      var s := Run(ops);
      var r := Check(s, h, q, tick);
      && (r == Err(InvalidHandle) <==> h >= |s|)
      && (h < |s| ==>
            var named := DescendsFrom(s, Targets(ops), h);
            var over := 0 < s[h].expiresAt <= tick;
            && (r == Err(Revoked) <==> named)
            && (r == Err(Expired) <==> !named && over)
            && (r == Err(InsufficientRights) <==> !named && !over && exists right :: right in q && right !in s[h].rights)
            && (r.Ok? ==> r.value == s[h]))
      && (r.Err? ==> r.error in {InvalidHandle, Revoked, Expired, InsufficientRights})
  {
    if h < |Run(ops)| {
      FlagIsHistory(ops, h);
    }
  }

  /** A granted handle is good for exactly the rights named and exactly until the expiry named, on the resource named. */
  lemma GrantedHandle(s: Slots, id: nat, agent: AgentId, resource: ResourceRef, rights: Rights,
                      expiresAt: nat, tick: nat, q: Rights, later: nat)
    requires GrantOn(s, id, agent, resource, rights, expiresAt, tick).1.Ok?
    ensures
      var (t, r) := GrantOn(s, id, agent, resource, rights, expiresAt, tick);
      var c := Check(t, r.value, q, later);
      && s <= t && |t| == |s| + 1 && r.value == |s|
      && (c.Ok? <==> q <= rights && !(0 < expiresAt <= later))
      && (c.Ok? ==>
            c.value.owner == agent && c.value.resource == resource && c.value.parent == None &&
            c.value.createdAt == tick)
  {
  }

  /**
    A delegated handle is good for exactly the rights passed on, whatever its parent is good for, and
    until its parent runs out; it is the new owner's and stands for the parent's resource.  The
    delegation changes nothing else, and succeeds iff the parent could itself be used for those rights
    and a slot is free.
   */
  lemma DelegatedHandle(s: Slots, id: nat, p: CapHandle, to: AgentId, r: Rights, tick: nat, q: Rights, later: nat)
    ensures DelegateOn(s, id, p, to, r, tick).1.Ok? <==> Check(s, p, r, tick).Ok? && |s| < 4096
    ensures DelegateOn(s, id, p, to, r, tick).1.Err? ==> DelegateOn(s, id, p, to, r, tick).0 == s
    ensures
      var (t, made) := DelegateOn(s, id, p, to, r, tick);
      made.Ok? ==>
        var c := Check(t, made.value, q, later);
        && s <= t && |t| == |s| + 1 && made.value == |s|
        && (c.Ok? <==> q <= r && !ExpiredAt(s[p], later))
        && (c.Ok? ==>
              c.value.owner == to && c.value.resource == s[p].resource && c.value.parent == Some(p) &&
              c.value.createdAt == tick)
  {
  }

  // ----- Numbering -----

  ghost function Successes(ops: seq<Op>): nat {
    if ops == [] then 0 else
      var before := ops[..|ops| - 1];
      Successes(before) + if Step(Run(before), ops[|ops| - 1]).1.Handle? then 1 else 0
  }

  lemma {:induction false} SuccessesAreSlots(ops: seq<Op>)
    ensures |Run(ops)| == Successes(ops)
  {
    if ops != [] {
      SuccessesAreSlots(ops[..|ops| - 1]);
    }
  }

  /**
    The n-th successful grant or delegation of a run returns handle n-1; a grant is refused exactly
    after capacity-many successes, a delegation also when its parent does not check; and no
    delegation is ever refused as an escalation, because the check on the parent comes first.
   */
  lemma HandlesAreConsecutive(ops: seq<Op>, op: Op)
    requires op.GrantOp? || op.DelegateOp?
    ensures
      var reply := Step(Run(ops), op).1;
      var parentCheck := if op.DelegateOp? then Check(Run(ops), op.parent, op.newRights, op.tick) else Err(NotOwner);
      reply == if op.DelegateOp? && parentCheck.Err? then Failed(parentCheck.error)
               else if Successes(ops) >= MAX_CAPABILITIES then Failed(TableFull)
               else Handle(Successes(ops))
    ensures Step(Run(ops), op).1 != Failed(EscalationDenied)
    ensures Successes(ops) <= MAX_CAPABILITIES
  {
    SuccessesAreSlots(ops);
    RunIsClosedForest(ops);
  }

  // ----- The grant right -----

  /**
    When no delegation by way of a handle succeeds unless the handle carries the grant right: if it
    does carry it, and otherwise only if no delegation succeeds at all.
   */
  lemma GrantRightIsIdle(s: Slots, id: nat, p: CapHandle, to: AgentId, tick: nat)
    requires p < |s|
    ensures
      (forall r :: DelegateOn(s, id, p, to, r, tick).1.Ok? ==> Right.Grant in s[p].rights) <==>
      Right.Grant in s[p].rights || s[p].revoked || ExpiredAt(s[p], tick) || |s| >= MAX_CAPABILITIES
  {
    if Right.Grant !in s[p].rights && !s[p].revoked && !ExpiredAt(s[p], tick) && |s| < MAX_CAPABILITIES {
      assert DelegateOn(s, id, p, to, s[p].rights, tick).1.Ok?;
    }
  }

  /** An agent that was granted only the right to read passes it on. */
  lemma DelegationWithoutGrantRight()
    ensures
      var s := GrantOn([], 0, 1, Serial, {Right.Read}, 0, 0).0;
      |s| == 1 && Right.Grant !in s[0].rights && DelegateOn(s, 1, 0, 2, {Right.Read}, 0).1 == Ok(1)
  {
  }

  // ----- What a delegation and a grant mean for later revocations -----

  /**
    A delegated capability falls, for ever, with its parent and with every ancestor of its parent, and
    with every capability of the agent it was delegated to.
   */
  lemma DelegateeFallsWithAncestor(ops: seq<Op>, d: Op, a: CapHandle, more: seq<Op>, r: Rights, tick: nat)
    requires d.DelegateOp? && Step(Run(ops), d).1.Handle?
    requires a < |Run(ops)| && DescendsFrom(Run(ops), {a}, d.parent)
    ensures
      var h := Step(Run(ops), d).1.handle;
      && Check(Run(ops + [d, RevokeOp(a)] + more), h, r, tick) == Err(Revoked)
      && Check(Run(ops + [d, RevokeAllOp(d.newOwner)] + more), h, r, tick) == Err(Revoked)
  {
    var s, t := Run(ops), Step(Run(ops), d).0;
    RunIsClosedForest(ops);
    StepKeepsForest(s, d);
    DescendsInPrefix(s, t[|s|], {a}, d.parent);
    CascadeRevokesSubtree(t, a);
    RevokedAfterTwo(ops, d, RevokeOp(a), more, |s|, r, tick);
    RevokedAfterTwo(ops, d, RevokeAllOp(d.newOwner), more, |s|, r, tick);
  }

  lemma RevokedAfterTwo(ops: seq<Op>, c: Op, d: Op, more: seq<Op>, h: CapHandle, r: Rights, tick: nat)
    requires h < |Step(Step(Run(ops), c).0, d).0| && Step(Step(Run(ops), c).0, d).0[h].revoked
    ensures Check(Run(ops + [c, d] + more), h, r, tick) == Err(Revoked)
  {
    RunAppend(ops, c);
    RunAppend(ops + [c], d);
    assert ops + [c] + [d] == ops + [c, d];
    RevokedForEver(ops + [c, d], more, h, r, tick, r, tick);
  }

  lemma RunAppend(ops: seq<Op>, op: Op)
    ensures Run(ops + [op]) == Step(Run(ops), op).0
  {
    assert (ops + [op])[..|ops|] == ops;
  }

  /** A granted capability answers to its own agent's wholesale revocation and to nobody else's. */
  lemma GrantAnswersToItsOwner(ops: seq<Op>, g: Op, other: AgentId)
    requires g.GrantOp? && Step(Run(ops), g).1.Handle?
    ensures
      var (s, h) := (Step(Run(ops), g).0, Step(Run(ops), g).1.handle);
      RevokeAllOn(s, other)[h].revoked <==> other == g.agent
  {
    var s, h := Step(Run(ops), g).0, |Run(ops)|;
    assert s[h].parent == None;
    assert DescendsFrom(s, Select(s, |s|, OwnedBy(other)), h) <==> h in Select(s, |s|, OwnedBy(other));
  }
}
