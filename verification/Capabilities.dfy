/**
  The capability table as a mathematical value.

  No kernel code writes `None` back into a slot, so the occupied slots always form a
  prefix of the array; that prefix is a `Slots` value and a handle is an index into it.
  Parent links make it a forest stored flat.  `Cascade` is what one revocation does to an
  arbitrary forest; `Mark` is the reference meaning, phrased only with the delegation
  links: everything below a set of handles becomes revoked.
 */
module Capabilities {
  import opened Wrappers

  const MAX_CAPABILITIES: nat := 4096

  datatype Right = Read | Write | Execute | Grant | Create | Delete

  type Rights = set<Right>

  datatype ResourceRef =
    | Memory(base: nat, length: nat)
    | IoPort(port: nat, count: nat)
    | Compute(device: nat, slot: nat)
    | Serial
    | Display(x: nat, y: nat, width: nat, height: nat)
    | Channel(channelId: nat)
    | AuditLog
    | Filesystem

  type AgentId = nat
  type CapHandle = nat

  datatype CapEntry = CapEntry(
    id: nat,
    resource: ResourceRef,
    rights: Rights,
    owner: AgentId,
    parent: Option<CapHandle>,
    expiresAt: nat,
    revoked: bool,
    createdAt: nat)

  datatype CapError =
    | TableFull
    | InvalidHandle
    | Revoked
    | Expired
    | InsufficientRights
    | EscalationDenied
    | NotOwner

  type Slots = seq<CapEntry>

  predicate ExpiredAt(e: CapEntry, tick: nat) {
    e.expiresAt > 0 && tick >= e.expiresAt
  }

  // ----- The operations that do not revoke -----

  function Check(s: Slots, h: CapHandle, required: Rights, tick: nat): Result<CapEntry, CapError> {
    if h >= |s| then Err(InvalidHandle)
    else if s[h].revoked then Err(Revoked)
    else if ExpiredAt(s[h], tick) then Err(Expired)
    else if !(required <= s[h].rights) then Err(InsufficientRights)
    else Ok(s[h])
  }

  function Place(s: Slots, e: CapEntry): (Slots, Result<CapHandle, CapError>) {
    if |s| < MAX_CAPABILITIES then (s + [e], Ok(|s|)) else (s, Err(TableFull))
  }

  function GrantOn(s: Slots, id: nat, agent: AgentId, resource: ResourceRef, rights: Rights,
                   expiresAt: nat, tick: nat): (Slots, Result<CapHandle, CapError>)
  {
    Place(s, CapEntry(id, resource, rights, agent, None, expiresAt, false, tick))
  }

  function DelegateOn(s: Slots, id: nat, parent: CapHandle, newOwner: AgentId, newRights: Rights,
                      tick: nat): (Slots, Result<CapHandle, CapError>)
  {
    match Check(s, parent, newRights, tick)
    case Err(e) => (s, Err(e))
    case Ok(p) =>
      if !(newRights <= p.rights) then (s, Err(EscalationDenied))
      else Place(s, CapEntry(id, p.resource, newRights, newOwner, Some(parent), p.expiresAt, false, tick))
  }

  // ----- The delegation forest -----

  /** `i` is one of `roots` or was delegated, in any number of steps, from one of them. */
  ghost predicate DescendsFrom(s: Slots, roots: set<CapHandle>, i: CapHandle)
    requires i < |s|
  {
    i in roots ||
    (s[i].parent.Some? && s[i].parent.value < i && DescendsFrom(s, roots, s[i].parent.value))
  }

  /** A delegated entry sits above its parent, has no more rights, and shares its resource and expiry. */
  ghost predicate Linked(s: Slots, i: CapHandle)
    requires i < |s|
  {
    match s[i].parent
    case None => true
    case Some(p) =>
      p < i && s[i].rights <= s[p].rights && s[i].resource == s[p].resource && s[i].expiresAt == s[p].expiresAt
  }

  ghost predicate Forest(s: Slots) {
    forall i: CapHandle :: i < |s| ==> Linked(s, i)
  }

  /** Not live below a revoked parent. */
  ghost predicate Shaded(s: Slots, i: CapHandle)
    requires i < |s|
  {
    s[i].parent.Some? && s[i].parent.value < i && s[s[i].parent.value].revoked ==> s[i].revoked
  }

  /** Nothing delegated from a revoked entry is still live. */
  ghost predicate Closed(s: Slots) {
    forall i: CapHandle :: i < |s| ==> Shaded(s, i)
  }

  ghost function Live(s: Slots): set<CapHandle> {
    set i | 0 <= i < |s| && !s[i].revoked
  }

  // ----- Revocation -----

  /** Every entry on the way from `h` down to `d`, both included, is live. */
  ghost predicate LivePath(s: Slots, h: CapHandle, d: CapHandle)
    requires d < |s|
  {
    !s[d].revoked &&
    (d == h || (s[d].parent.Some? && s[d].parent.value < d && LivePath(s, h, s[d].parent.value)))
  }

  /** The same table with the entries selected by `on` revoked as well. */
  ghost function Flagged(s: Slots, on: set<CapHandle>): (r: Slots)
    ensures |r| == |s|
    ensures forall i | 0 <= i < |s| :: r[i] == s[i].(revoked := s[i].revoked || i in on)
  {
    seq(|s|, i requires 0 <= i < |s| => s[i].(revoked := s[i].revoked || i in on))
  }

  ghost function Below(s: Slots, roots: set<CapHandle>): set<CapHandle> {
    set i | 0 <= i < |s| && DescendsFrom(s, roots, i)
  }

  /** The effect of `revoke(h)` on any forest, closed or not. */
  ghost function Cascade(s: Slots, h: CapHandle): Slots {
    Flagged(s, set d | 0 <= d < |s| && LivePath(s, h, d))
  }

  /** The meaning of revoking `roots`: everything delegated from them goes too. */
  ghost function Mark(s: Slots, roots: set<CapHandle>): Slots {
    Flagged(s, Below(s, roots))
  }

  ghost predicate SameLinks(s: Slots, t: Slots) {
    |s| == |t| && forall i | 0 <= i < |s| :: t[i].parent == s[i].parent
  }

  lemma {:induction false} DescendsBySameLinks(s: Slots, t: Slots, roots: set<CapHandle>, i: CapHandle)
    requires SameLinks(s, t) && i < |s|
    ensures DescendsFrom(t, roots, i) == DescendsFrom(s, roots, i)
  {
    if s[i].parent.Some? && s[i].parent.value < i {
      DescendsBySameLinks(s, t, roots, s[i].parent.value);
    }
  }

  lemma {:induction false} DescendsFromUnion(s: Slots, a: set<CapHandle>, b: set<CapHandle>, i: CapHandle)
    requires i < |s|
    ensures DescendsFrom(s, a + b, i) <==> DescendsFrom(s, a, i) || DescendsFrom(s, b, i)
  {
    if s[i].parent.Some? && s[i].parent.value < i {
      DescendsFromUnion(s, a, b, s[i].parent.value);
    }
  }

  /** Appending an entry changes nobody else's ancestry. */
  lemma {:induction false} DescendsInPrefix(s: Slots, e: CapEntry, roots: set<CapHandle>, i: CapHandle)
    requires i < |s|
    ensures DescendsFrom(s + [e], roots, i) == DescendsFrom(s, roots, i)
  {
    if s[i].parent.Some? && s[i].parent.value < i {
      DescendsInPrefix(s, e, roots, s[i].parent.value);
    }
  }

  /** In a closed forest a live entry has only live ancestors. */
  lemma {:induction false} LivePathInClosed(s: Slots, h: CapHandle, d: CapHandle)
    requires Closed(s) && d < |s|
    ensures LivePath(s, h, d) <==> !s[d].revoked && DescendsFrom(s, {h}, d)
  {
    assert Shaded(s, d);
    if d != h && s[d].parent.Some? && s[d].parent.value < d {
      LivePathInClosed(s, h, s[d].parent.value);
    }
  }

  /** From a closed forest, `revoke(h)` newly revokes exactly the live entries with `h` on their parent chain. */
  lemma CascadeRevokesSubtree(s: Slots, h: CapHandle)
    requires Closed(s)
    ensures Cascade(s, h) == Mark(s, {h})
    ensures forall i | 0 <= i < |s| ::
      (Cascade(s, h)[i].revoked && !s[i].revoked) <==> (!s[i].revoked && DescendsFrom(s, {h}, i))
  {
    forall i | 0 <= i < |s| ensures LivePath(s, h, i) <==> !s[i].revoked && DescendsFrom(s, {h}, i) {
      LivePathInClosed(s, h, i);
    }
  }

  lemma MarkKeepsForest(s: Slots, roots: set<CapHandle>)
    requires Forest(s) && Closed(s)
    ensures Forest(Mark(s, roots)) && Closed(Mark(s, roots)) && SameLinks(s, Mark(s, roots))
  {
    var t := Mark(s, roots);
    forall i: CapHandle | i < |s| ensures Linked(t, i) && Shaded(t, i) {
      assert Linked(s, i) && Shaded(s, i);
    }
  }

  /** Revoking in two goes is revoking the union in one. */
  lemma MarkTwice(s: Slots, a: set<CapHandle>, b: set<CapHandle>)
    ensures Mark(Mark(s, a), b) == Mark(s, a + b)
  {
    forall i | 0 <= i < |s| ensures Mark(Mark(s, a), b)[i] == Mark(s, a + b)[i] {
      DescendsFromUnion(s, a, b, i);
      DescendsBySameLinks(s, Mark(s, a), b, i);
    }
  }

  lemma {:induction false} RevokedRootHidesSubtree(s: Slots, h: CapHandle, i: CapHandle)
    requires Closed(s) && h < |s| && s[h].revoked && i < |s| && DescendsFrom(s, {h}, i)
    ensures s[i].revoked
  {
    assert Shaded(s, i);
    if i != h {
      RevokedRootHidesSubtree(s, h, s[i].parent.value);
    }
  }

  /** Revoking a handle that is already revoked changes nothing: revocation is idempotent. */
  lemma MarkRevokedIsNoop(s: Slots, h: CapHandle)
    requires Closed(s) && h < |s| && s[h].revoked
    ensures Mark(s, {h}) == s
  {
    forall i | 0 <= i < |s| ensures Mark(s, {h})[i] == s[i] {
      if DescendsFrom(s, {h}, i) {
        RevokedRootHidesSubtree(s, h, i);
      }
    }
  }

  lemma RevocationsCommute(s: Slots, g: CapHandle, h: CapHandle)
    requires Forest(s) && Closed(s)
    ensures Cascade(Cascade(s, g), h) == Cascade(Cascade(s, h), g) == Mark(s, {g, h})
    ensures Cascade(Cascade(s, h), h) == Cascade(s, h)
  {
    CascadeTwice(s, g, h);
    CascadeTwice(s, h, g);
    CascadeTwice(s, h, h);
    assert {g} + {h} == {g, h} == {h} + {g} && {h} + {h} == {h};
    CascadeRevokesSubtree(s, h);
  }

  lemma CascadeTwice(s: Slots, g: CapHandle, h: CapHandle)
    requires Forest(s) && Closed(s)
    ensures Cascade(Cascade(s, g), h) == Mark(s, {g} + {h})
  {
    CascadeRevokesSubtree(s, g);
    MarkKeepsForest(s, {g});
    CascadeRevokesSubtree(Mark(s, {g}), h);
    MarkTwice(s, {g}, {h});
  }

  /** One `revoke` call after another, in the order of `hs`. */
  ghost function RevokeEach(s: Slots, hs: seq<CapHandle>): Slots {
    if hs == [] then s else Cascade(RevokeEach(s, hs[..|hs| - 1]), hs[|hs| - 1])
  }

  ghost function Elements(hs: seq<CapHandle>): (r: set<CapHandle>)
    ensures forall h :: h in r <==> h in hs
  {
    if hs == [] then {} else
      assert hs == hs[..|hs| - 1] + [hs[|hs| - 1]];
      Elements(hs[..|hs| - 1]) + {hs[|hs| - 1]}
  }

  lemma ElementsGrow(hs: seq<CapHandle>, k: nat)
    requires k < |hs|
    ensures Elements(hs[..k + 1]) == Elements(hs[..k]) + {hs[k]}
  {
    assert hs[..k + 1][..k] == hs[..k];
  }

  /** Any sequence of revocations is the union of the subtrees, so its order and repetitions do not matter. */
  lemma {:induction false} RevokeInOrder(s: Slots, hs: seq<CapHandle>)
    requires Forest(s) && Closed(s)
    ensures RevokeEach(s, hs) == Mark(s, Elements(hs))
  {
    if hs == [] {
      NobodyBelowNothing(s);
    } else {
      var init, last := hs[..|hs| - 1], hs[|hs| - 1];
      RevokeInOrder(s, init);
      MarkKeepsForest(s, Elements(init));
      CascadeRevokesSubtree(Mark(s, Elements(init)), last);
      MarkTwice(s, Elements(init), {last});
    }
  }

  lemma NobodyBelowNothing(s: Slots)
    ensures Below(s, {}) == {} && Mark(s, {}) == s
  {
    forall i | 0 <= i < |s| ensures !DescendsFrom(s, {}, i) {
      NotBelowNothing(s, i);
    }
  }

  lemma {:induction false} NotBelowNothing(s: Slots, i: CapHandle)
    requires i < |s|
    ensures !DescendsFrom(s, {}, i)
  {
    if s[i].parent.Some? && s[i].parent.value < i {
      NotBelowNothing(s, s[i].parent.value);
    }
  }

  // ----- Bulk revocation -----

  /** What a sweep over the table looks for: an owner, or expiry at a tick. */
  datatype Selector = OwnedBy(agent: AgentId) | OutOfTime(tick: nat)

  predicate Hits(who: Selector, e: CapEntry) {
    match who
    case OwnedBy(agent) => e.owner == agent
    case OutOfTime(tick) => ExpiredAt(e, tick)
  }

  /** The selected handles among the first `k`. */
  ghost function Select(s: Slots, k: nat, who: Selector): set<CapHandle> {
    set i | 0 <= i < |s| && i < k && Hits(who, s[i])
  }

  ghost function RevokeAllOn(s: Slots, agent: AgentId): Slots {
    Mark(s, Select(s, |s|, OwnedBy(agent)))
  }

  ghost function GcOn(s: Slots, tick: nat): Slots {
    Mark(s, Select(s, |s|, OutOfTime(tick)))
  }

  /** Visit the first `k` slots in order, revoking each selected entry that is still live by then. */
  ghost function Sweep(s: Slots, k: nat, who: Selector): (r: Slots)
    ensures |r| == |s|
  {
    if k == 0 then s else SweepTurn(Sweep(s, k - 1, who), k - 1, who)
  }

  ghost function SweepTurn(now: Slots, i: nat, who: Selector): (r: Slots)
    ensures |r| == |now|
  {
    if i < |now| && Hits(who, now[i]) && !now[i].revoked then Cascade(now, i) else now
  }

  lemma SweepTurnIsMark(s: Slots, i: nat, who: Selector)
    requires Forest(s) && Closed(s)
    ensures SweepTurn(Mark(s, Select(s, i, who)), i, who) == Mark(s, Select(s, i + 1, who))
  {
    var roots := Select(s, i, who);
    if i < |s| && Hits(who, s[i]) {
      var now := Mark(s, roots);
      MarkKeepsForest(s, roots);
      assert Select(s, i + 1, who) == roots + {i};
      MarkTwice(s, roots, {i});
      if now[i].revoked {
        MarkRevokedIsNoop(now, i);
      } else {
        CascadeRevokesSubtree(now, i);
      }
    } else {
      assert Select(s, i + 1, who) == roots;
    }
  }

  /** A sweep over a closed forest, cascading as it goes, revokes the subtrees of all selected entries. */
  lemma {:induction false} SweepIsMark(s: Slots, k: nat, who: Selector)
    requires Forest(s) && Closed(s)
    ensures Sweep(s, k, who) == Mark(s, Select(s, k, who))
  {
    if k == 0 {
      NobodyBelowNothing(s);
      assert Select(s, 0, who) == {};
    } else {
      SweepIsMark(s, k - 1, who);
      SweepTurnIsMark(s, k - 1, who);
    }
  }

  lemma FullSweepIsMark(s: Slots, k: nat, who: Selector)
    requires Forest(s) && Closed(s) && |s| <= k
    ensures Sweep(s, k, who) == Mark(s, Select(s, |s|, who))
  {
    SweepIsMark(s, k, who);
    assert Select(s, k, who) == Select(s, |s|, who);
  }

  /** Entries that were already revoked contribute nothing as roots. */
  lemma OnlyLiveRootsMatter(s: Slots, roots: set<CapHandle>)
    requires Closed(s)
    ensures Mark(s, roots) == Mark(s, roots * Live(s))
  {
    forall i | 0 <= i < |s| ensures Mark(s, roots)[i] == Mark(s, roots * Live(s))[i] {
      if !s[i].revoked {
        LiveRootsOfLive(s, roots, i);
      }
    }
  }

  lemma {:induction false} LiveRootsOfLive(s: Slots, roots: set<CapHandle>, i: CapHandle)
    requires Closed(s) && i < |s| && !s[i].revoked
    ensures DescendsFrom(s, roots, i) <==> DescendsFrom(s, roots * Live(s), i)
  {
    assert Shaded(s, i);
    if s[i].parent.Some? && s[i].parent.value < i {
      LiveRootsOfLive(s, roots, s[i].parent.value);
    }
  }

  /**
    `revoke_all_for_agent(a)` revokes the union of the subtrees rooted at a's live entries, in any
    order; afterwards a owns nothing live, and what lies outside that union is as before.
   */
  lemma RevokeAllIsUnionOfSubtrees(s: Slots, agent: AgentId, hs: seq<CapHandle>)
    requires Forest(s) && Closed(s)
    requires forall h: nat :: h in hs <==> h < |s| && s[h].owner == agent && !s[h].revoked
    ensures RevokeAllOn(s, agent) == RevokeEach(s, hs)
    ensures forall i | 0 <= i < |s| && s[i].owner == agent :: RevokeAllOn(s, agent)[i].revoked
    ensures forall i | 0 <= i < |s| && !DescendsFrom(s, Elements(hs), i) :: RevokeAllOn(s, agent)[i] == s[i]
  {
    var roots := Select(s, |s|, OwnedBy(agent));
    RevokeInOrder(s, hs);
    OnlyLiveRootsMatter(s, roots);
    assert roots * Live(s) == Elements(hs);
  }

  // ----- Expiry -----

  /** Expiry, resource and the upper bound on rights are inherited from every ancestor. */
  lemma {:induction false} InheritedFromAncestor(s: Slots, a: CapHandle, i: CapHandle)
    requires Forest(s) && a < |s| && i < |s| && DescendsFrom(s, {a}, i)
    ensures a <= i
    ensures s[i].rights <= s[a].rights
    ensures s[i].resource == s[a].resource && s[i].expiresAt == s[a].expiresAt
  {
    assert Linked(s, i);
    if i != a {
      InheritedFromAncestor(s, a, s[i].parent.value);
    }
  }

  lemma {:induction false} ExpiryIsInherited(s: Slots, tick: nat, i: CapHandle)
    requires Forest(s) && i < |s|
    ensures DescendsFrom(s, Select(s, |s|, OutOfTime(tick)), i) <==> ExpiredAt(s[i], tick)
  {
    assert Linked(s, i);
    if s[i].parent.Some? {
      ExpiryIsInherited(s, tick, s[i].parent.value);
    }
  }

  /**
    Garbage collection revokes exactly the expired entries, even through the cascade, and no client
    can tell: a later check succeeds after it iff it would have succeeded without it.  Only the
    reason of a refusal changes, from Expired to Revoked.
   */
  lemma GcIsInvisible(s: Slots, tick: nat, h: CapHandle, r: Rights, later: nat)
    requires Forest(s) && tick <= later
    ensures forall i | 0 <= i < |s| :: GcOn(s, tick)[i] == s[i].(revoked := s[i].revoked || ExpiredAt(s[i], tick))
    ensures Check(GcOn(s, tick), h, r, later).Ok? <==> Check(s, h, r, later).Ok?
    ensures Check(GcOn(s, tick), h, r, later) ==
            if h < |s| && ExpiredAt(s[h], tick) then Err(Revoked) else Check(s, h, r, later)
  {
    forall i | 0 <= i < |s|
      ensures DescendsFrom(s, Select(s, |s|, OutOfTime(tick)), i) <==> ExpiredAt(s[i], tick)
    {
      ExpiryIsInherited(s, tick, i);
    }
  }

  // ----- Growth -----

  lemma PlaceKeepsForest(s: Slots, e: CapEntry)
    requires Forest(s) && Closed(s) && !e.revoked
    requires e.parent.Some? ==>
      var p := e.parent.value;
      p < |s| && !s[p].revoked && e.rights <= s[p].rights && e.resource == s[p].resource &&
      e.expiresAt == s[p].expiresAt
    ensures Forest(s + [e]) && Closed(s + [e])
    ensures Live(s + [e]) == Live(s) + {|s|}
  {
    forall i: CapHandle | i < |s| ensures Linked(s + [e], i) && Shaded(s + [e], i) {
      assert Linked(s, i) && Shaded(s, i);
    }
    assert Linked(s + [e], |s|) && Shaded(s + [e], |s|);
  }
}
