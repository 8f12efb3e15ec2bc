/**
  The kernel's capability table, updated in place, proved against the values of `Capabilities`.
 */
module CapTables {
  import opened Wrappers
  import opened Capabilities

  // ----- What the cascade has done before it looks at slot `k` -----

  /** The child of `h` through which `d` was delegated. */
  ghost function Branch(s: Slots, h: CapHandle, d: CapHandle): (b: CapHandle)
    requires d < |s|
    ensures b <= d
  {
    if s[d].parent.Some? && s[d].parent.value < d && s[d].parent.value != h
    then Branch(s, h, s[d].parent.value)
    else d
  }

  ghost predicate Reached(s: Slots, h: CapHandle, k: nat, d: CapHandle)
    requires d < |s|
  {
    LivePath(s, h, d) && (d == h || Branch(s, h, d) < k)
  }

  /** `h` itself and the live subtrees of its children below slot `k` are revoked. */
  ghost function PartialCascade(s: Slots, h: CapHandle, k: nat): Slots {
    Flagged(s, set d | 0 <= d < |s| && Reached(s, h, k, d))
  }

  lemma {:induction false} LivePathBasics(s: Slots, h: CapHandle, d: CapHandle)
    requires d < |s| && LivePath(s, h, d)
    ensures h <= d && !s[h].revoked
    ensures d != h ==>
      var b := Branch(s, h, d);
      h < b && s[b].parent == Some(h) && LivePath(s, b, d)
  {
    if d != h {
      LivePathBasics(s, h, s[d].parent.value);
    }
  }

  lemma {:induction false} LivePathExtends(s: Slots, h: CapHandle, b: CapHandle, d: CapHandle)
    requires b < |s| && d < |s| && h < b && s[b].parent == Some(h) && !s[h].revoked && LivePath(s, b, d)
    ensures LivePath(s, h, d) && d != h && Branch(s, h, d) == b
  {
    LivePathBasics(s, b, d);
    if d != b {
      var p := s[d].parent.value;
      LivePathBasics(s, b, p);
      LivePathExtends(s, h, b, p);
    }
  }

  /** Subtrees of different children are disjoint, so the child's own cascade still sees all of its subtree. */
  lemma {:induction false} ChildPathUntouched(s: Slots, h: CapHandle, k: CapHandle, d: CapHandle)
    requires k < |s| && d < |s| && h < k && s[k].parent == Some(h) && !s[h].revoked
    ensures LivePath(PartialCascade(s, h, k), k, d) <==> LivePath(s, k, d)
  {
    if LivePath(s, k, d) {
      LivePathExtends(s, h, k, d);
    }
    if d != k && s[d].parent.Some? && s[d].parent.value < d {
      ChildPathUntouched(s, h, k, s[d].parent.value);
    }
  }

  lemma CascadeStep(s: Slots, h: CapHandle, k: nat)
    requires Forest(s) && h < |s| && !s[h].revoked
    ensures
      var now := PartialCascade(s, h, k);
      PartialCascade(s, h, k + 1) ==
        if k < |s| && s[k].parent == Some(h) && !now[k].revoked then Cascade(now, k) else now
  {
    var now := PartialCascade(s, h, k);
    assert k < |s| ==> Linked(s, k);
    forall d | 0 <= d < |s| ensures Reached(s, h, k + 1, d) <==>
      (Reached(s, h, k, d) || (k < |s| && s[k].parent == Some(h) && !s[k].revoked && LivePath(s, k, d)))
    {
      if LivePath(s, h, d) {
        LivePathBasics(s, h, d);
        if d != h && Branch(s, h, d) == k {
          LivePathBasics(s, k, d);
        }
      }
      if k < |s| && s[k].parent == Some(h) && LivePath(s, k, d) {
        LivePathExtends(s, h, k, d);
      }
    }
    if k < |s| && s[k].parent == Some(h) {
      assert now[k].revoked == s[k].revoked by {
        if LivePath(s, h, k) { LivePathBasics(s, h, k); assert Branch(s, h, k) == k; }
      }
      if !s[k].revoked {
        forall d | 0 <= d < |s| ensures LivePath(now, k, d) <==> LivePath(s, k, d) {
          ChildPathUntouched(s, h, k, d);
        }
      }
    }
  }

  lemma CascadeStart(s: Slots, h: CapHandle)
    requires Forest(s) && h < |s| && !s[h].revoked
    ensures PartialCascade(s, h, 0) == s[h := s[h].(revoked := true)]
  {
  }

  lemma CascadeEnd(s: Slots, h: CapHandle, k: nat)
    requires |s| <= k
    ensures PartialCascade(s, h, k) == Cascade(s, h)
  {
    forall d | 0 <= d < |s| ensures Reached(s, h, k, d) <==> LivePath(s, h, d) {
    }
  }

  lemma CascadeOfRevoked(s: Slots, h: CapHandle)
    requires h < |s| && s[h].revoked
    ensures Cascade(s, h) == s
  {
    forall d | 0 <= d < |s| ensures !LivePath(s, h, d) {
      if LivePath(s, h, d) { LivePathBasics(s, h, d); }
    }
  }

  lemma LiveAfterOne(s: Slots, h: CapHandle)
    requires h < |s| && !s[h].revoked
    ensures |Live(s[h := s[h].(revoked := true)])| == |Live(s)| - 1
    ensures Forest(s) ==> Forest(s[h := s[h].(revoked := true)])
  {
    assert h in Live(s);
    var t := s[h := s[h].(revoked := true)];
    assert Live(t) == Live(s) - {h};
    if Forest(s) {
      forall i: CapHandle | i < |t| ensures Linked(t, i) { assert Linked(s, i); }
    }
  }

  // ----- The table -----

  class CapTable {
    const entries: array<Option<CapEntry>>
    var activeCount: nat
    var nextCapId: nat
    ghost var slots: Slots  // the occupied prefix of entries

    /** Holds even in the middle of a cascade. */
    ghost predicate Consistent()
      reads this, entries
    {
      && entries.Length == MAX_CAPABILITIES
      && |slots| <= MAX_CAPABILITIES
      && (forall i | 0 <= i < |slots| :: entries[i] == Some(slots[i]))
      && (forall i | |slots| <= i < MAX_CAPABILITIES :: entries[i] == None)
      && Forest(slots)
      && activeCount == |Live(slots)|
    }

    ghost predicate Valid()
      reads this, entries
    {
      Consistent() && Closed(slots)
    }

    constructor ()
      ensures Valid() && slots == [] && fresh(entries)
    {
      entries := new Option<CapEntry>[MAX_CAPABILITIES](_ => None);
      activeCount := 0;
      nextCapId := 1;
      slots := [];
    }

    method FindFreeSlot() returns (slot: Option<nat>)
      requires Consistent()
      ensures slot == if |slots| < MAX_CAPABILITIES then Some(|slots|) else None
    {
      for i := 0 to entries.Length
        invariant i <= |slots|
      {
        if entries[i].None? {
          return Some(i);
        }
      }
      return None;
    }

    /** Fill a free slot; shared tail of `Grant` and `Delegate`. */
    method Occupy(slot: nat, e: CapEntry)
      requires Valid() && slot == |slots| < MAX_CAPABILITIES && !e.revoked
      requires e.parent.Some? ==>
        var p := e.parent.value;
        p < |slots| && !slots[p].revoked && e.rights <= slots[p].rights && e.resource == slots[p].resource &&
        e.expiresAt == slots[p].expiresAt
      modifies this`activeCount, this`slots, this`nextCapId, entries
      ensures Valid() && slots == old(slots) + [e] && nextCapId == old(nextCapId) + 1
    {
      PlaceKeepsForest(slots, e);
      entries[slot] := Some(e);
      nextCapId := nextCapId + 1;
      activeCount := activeCount + 1;
      slots := slots + [e];
    }

    method Grant(agent: AgentId, resource: ResourceRef, rights: Rights, expiresAt: nat, currentTick: nat)
      returns (r: Result<CapHandle, CapError>)
      requires Valid()
      modifies this`activeCount, this`slots, this`nextCapId, entries
      ensures Valid()
      ensures (slots, r) == GrantOn(old(slots), old(nextCapId), agent, resource, rights, expiresAt, currentTick)
      ensures nextCapId == old(nextCapId) + if r.Ok? then 1 else 0
    {
      var slot := FindFreeSlot();
      if slot.None? {
        return Err(TableFull);
      }
      var e := CapEntry(nextCapId, resource, rights, agent, None, expiresAt, false, currentTick);
      Occupy(slot.value, e);
      r := Ok(slot.value);
    }

    method CheckHandle(handle: CapHandle, required: Rights, currentTick: nat)
      returns (r: Result<CapEntry, CapError>)
      requires Consistent()
      ensures r == Check(slots, handle, required, currentTick)
    {
      if handle >= entries.Length || entries[handle].None? {
        return Err(InvalidHandle);
      }
      var e := entries[handle].value;
      if e.revoked {
        return Err(Revoked);
      }
      if e.expiresAt > 0 && currentTick >= e.expiresAt {
        return Err(Expired);
      }
      if !(required <= e.rights) {
        return Err(InsufficientRights);
      }
      r := Ok(e);
    }

    method MarkRevoked(handle: CapHandle)
      requires Consistent() && handle < |slots| && !slots[handle].revoked
      modifies this`activeCount, this`slots, entries
      ensures Consistent() && slots == old(slots)[handle := old(slots)[handle].(revoked := true)]
    {
      LiveAfterOne(slots, handle);
      entries[handle] := Some(entries[handle].value.(revoked := true));
      activeCount := SaturatingSub(activeCount, 1);
      slots := slots[handle := slots[handle].(revoked := true)];
    }

    /** Revocation recurses inside a loop over the very array it changes. */
    method Revoke(handle: CapHandle) returns (r: Result<(), CapError>)
      requires Consistent()
      modifies this`activeCount, this`slots, entries
      ensures Consistent()
      ensures r == if handle < |old(slots)| then Ok(()) else Err(InvalidHandle)
      ensures slots == if handle < |old(slots)| then Cascade(old(slots), handle) else old(slots)
      ensures old(Closed(slots)) ==> Closed(slots)
      decreases MAX_CAPABILITIES - handle
    {
      ghost var s := slots;
      if handle >= entries.Length || entries[handle].None? {
        return Err(InvalidHandle);
      }
      var e := entries[handle].value;
      if e.revoked {
        CascadeOfRevoked(s, handle);
        return Ok(());
      }
      MarkRevoked(handle);
      CascadeStart(s, handle);

      for i := 0 to MAX_CAPABILITIES
        invariant Consistent()
        invariant slots == PartialCascade(s, handle, i)
      {
        CascadeStep(s, handle, i);
        if entries[i].Some? {
          var child := entries[i].value;
          if child.parent == Some(handle) && !child.revoked {
            assert Linked(slots, i);
            var _ := Revoke(i);
          }
        }
      }
      CascadeEnd(s, handle, MAX_CAPABILITIES);
      if Closed(s) {
        CascadeRevokesSubtree(s, handle);
        MarkKeepsForest(s, {handle});
      }
      r := Ok(());
    }

    method Delegate(parentHandle: CapHandle, newOwner: AgentId, newRights: Rights, currentTick: nat)
      returns (r: Result<CapHandle, CapError>)
      requires Valid()
      modifies this`activeCount, this`slots, this`nextCapId, entries
      ensures Valid()
      ensures (slots, r) == DelegateOn(old(slots), old(nextCapId), parentHandle, newOwner, newRights, currentTick)
      ensures nextCapId == old(nextCapId) + if r.Ok? then 1 else 0
    {
      var checked := CheckHandle(parentHandle, newRights, currentTick);
      if checked.Err? {
        return Err(checked.error);
      }
      var parent := checked.value;
      if !(newRights <= parent.rights) {
        return Err(EscalationDenied);
      }
      var slot := FindFreeSlot();
      if slot.None? {
        return Err(TableFull);
      }
      var e := CapEntry(nextCapId, parent.resource, newRights, newOwner, Some(parentHandle),
                        parent.expiresAt, false, currentTick);
      Occupy(slot.value, e);
      r := Ok(slot.value);
    }

    /** The guarded revocation in the bodies of the two sweeps below. */
    method RevokeIf(i: CapHandle, due: bool)
      requires Valid() && i < |slots|
      modifies this`activeCount, this`slots, entries
      ensures Valid() && slots == if due then Cascade(old(slots), i) else old(slots)
    {
      if due {
        var _ := Revoke(i);
      }
    }

    method RevokeAllForAgent(agent: AgentId)
      requires Valid()
      modifies this`activeCount, this`slots, entries
      ensures Valid() && slots == RevokeAllOn(old(slots), agent)
    {
      ghost var s := slots;
      for i := 0 to MAX_CAPABILITIES
        invariant Valid()
        invariant slots == Sweep(s, i, OwnedBy(agent))
      {
        if entries[i].Some? {
          var e := entries[i].value;
          RevokeIf(i, e.owner == agent && !e.revoked);
        }
      }
      FullSweepIsMark(s, MAX_CAPABILITIES, OwnedBy(agent));
    }

    method GcExpired(currentTick: nat)
      requires Valid()
      modifies this`activeCount, this`slots, entries
      ensures Valid() && slots == GcOn(old(slots), currentTick)
    {
      ghost var s := slots;
      for i := 0 to MAX_CAPABILITIES
        invariant Valid()
        invariant slots == Sweep(s, i, OutOfTime(currentTick))
      {
        if entries[i].Some? {
          var e := entries[i].value;
          RevokeIf(i, ExpiredAt(e, currentTick) && !e.revoked);
        }
      }
      FullSweepIsMark(s, MAX_CAPABILITIES, OutOfTime(currentTick));
    }

    method ActiveCount() returns (n: nat)
      requires Consistent()
      ensures n == |Live(slots)|
    {
      n := activeCount;
    }
  }
}
