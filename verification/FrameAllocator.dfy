/**
  The bitmap frame allocator, updated in place, proved against the sets of `Frames`.
 */
module FrameAllocators {
  import opened Wrappers
  import opened Bitmaps
  import opened Frames

  ghost function ClearBelow(bm: Bitmap, n: nat): set<nat>
    requires n <= 8 * |bm|
  {
    if n == 0 then {}
    else ClearBelow(bm, n - 1) + if BitClear(bm[(n - 1) / 8], (n - 1) % 8) then {n - 1} else {}
  }

  /** The frames whose bit is clear. */
  ghost function ClearFrames(bm: Bitmap): set<nat> {
    ClearBelow(bm, 8 * |bm|)
  }

  lemma {:induction false} InClearBelow(bm: Bitmap, n: nat, f: nat)
    requires n <= 8 * |bm|
    ensures f in ClearBelow(bm, n) <==> f < n && BitClear(bm[f / 8], f % 8)
  {
    if n > 0 {
      InClearBelow(bm, n - 1, f);
    }
  }

  lemma InClearFrames(bm: Bitmap, f: nat)
    ensures f in ClearFrames(bm) <==> f < 8 * |bm| && BitClear(bm[f / 8], f % 8)
  {
    InClearBelow(bm, 8 * |bm|, f);
  }

  lemma BitOfFrame(f: nat, g: nat)
    ensures f / 8 == g / 8 && f % 8 == g % 8 <==> f == g
  {
  }

  lemma ClearingAdds(bm: Bitmap, f: nat)
    requires f < 8 * |bm|
    ensures ClearFrames(bm[f / 8 := bm[f / 8] & !Mask(f % 8)]) == ClearFrames(bm) + {f}
  {
    var bm' := bm[f / 8 := bm[f / 8] & !Mask(f % 8)];
    forall g: nat ensures g in ClearFrames(bm') <==> g in ClearFrames(bm) || g == f {
      ClearingAt(bm, f, g);
    }
  }

  lemma ClearingAt(bm: Bitmap, f: nat, g: nat)
    requires f < 8 * |bm|
    ensures g in ClearFrames(bm[f / 8 := bm[f / 8] & !Mask(f % 8)]) <==> g in ClearFrames(bm) || g == f
  {
    BitOfFrame(f, g);
    InClearFrames(bm, g);
    InClearFrames(bm[f / 8 := bm[f / 8] & !Mask(f % 8)], g);
    if g / 8 == f / 8 { ClearOneBit(bm[f / 8], f % 8, g % 8); }
  }

  lemma SettingRemoves(bm: Bitmap, f: nat)
    requires f < 8 * |bm|
    ensures ClearFrames(bm[f / 8 := bm[f / 8] | Mask(f % 8)]) == ClearFrames(bm) - {f}
  {
    var bm' := bm[f / 8 := bm[f / 8] | Mask(f % 8)];
    forall g: nat ensures g in ClearFrames(bm') <==> g in ClearFrames(bm) && g != f {
      SettingAt(bm, f, g);
    }
  }

  lemma SettingAt(bm: Bitmap, f: nat, g: nat)
    requires f < 8 * |bm|
    ensures g in ClearFrames(bm[f / 8 := bm[f / 8] | Mask(f % 8)]) <==> g in ClearFrames(bm) && g != f
  {
    BitOfFrame(f, g);
    InClearFrames(bm, g);
    InClearFrames(bm[f / 8 := bm[f / 8] | Mask(f % 8)], g);
    if g / 8 == f / 8 { SetOneBit(bm[f / 8], f % 8, g % 8); }
  }

  lemma SkippedByteIsUsed(bm: Bitmap, i: nat, f: nat)
    requires i < |bm| && bm[i] == 0xFF && 8 * i <= f < 8 * i + 8
    ensures f !in ClearFrames(bm)
  {
    InClearFrames(bm, f);
    FullByte(bm[i]);
    assert f / 8 == i && f % 8 < 8;
  }

  /** Adding an interval of frames one frame at a time. */
  lemma IntervalGrows(lo: nat, hi: nat)
    requires lo <= hi
    ensures Interval(lo, Min(hi + 1, MAX_FRAMES)) ==
            Interval(lo, Min(hi, MAX_FRAMES)) + (if hi < MAX_FRAMES then {hi} else {})
  {
  }

  datatype FrameStats = FrameStats(total: nat, used: nat, free: nat)

  class FrameAllocator {
    const bitmap: array<bv8>
    var totalFrames: nat
    var usedFrames: nat
    var minFrame: nat
    var maxFrame: nat
    var initialized: bool
    ghost var held: set<nat>  // handed out and not freed since

    ghost predicate Valid() {
      bitmap.Length == BITMAP_SIZE
    }

    ghost function Free(): set<nat>
      requires Valid()
      reads bitmap
    {
      ClearFrames(bitmap[..])
    }

    /** The allocator as the value of `Frames` it refines. */
    ghost function View(): Pool
      requires Valid()
      reads this, bitmap
    {
      Pool(Free(), usedFrames, held)
    }

    /** No free or held frame lies outside the scanned window. */
    ghost predicate Covered()
      requires Valid()
      reads this, bitmap
    {
      forall f | f in Free() || f in held :: minFrame <= f <= maxFrame
    }

    /** A boot from `es` followed by the operations `ops`, which free only held frames, leads to this state. */
    ghost predicate ReachedBy(es: seq<Region>, ops: seq<FrameOp>)
      requires Valid()
      reads this, bitmap
    {
      DisjointRegions(es) && Legal(Boot(es), ops) && View() == PoolRun(Boot(es), ops) && totalFrames == TotalCount(es)
    }

    /** A call that acts as a step of the pool, and frees nothing that is not held, carries the run on. */
    twostate lemma CarriesOn(es: seq<Region>, ops: seq<FrameOp>, op: FrameOp)
      requires old(Valid() && ReachedBy(es, ops))
      requires View() == PoolStep(old(View()), op).0 && totalFrames == old(totalFrames)
      requires op.Free? ==> FrameIndex(op.frame) in old(held)
      ensures ReachedBy(es, ops + [op])
    {
      assert (ops + [op])[..|ops|] == ops;
    }

    constructor ()
      ensures Valid() && fresh(bitmap) && Free() == {} && Covered()
      ensures totalFrames == 0 && usedFrames == 0 && minFrame == USIZE_MAX && maxFrame == 0 && !initialized
      ensures held == {}
    {
      bitmap := new bv8[BITMAP_SIZE](_ => 0xFF);
      totalFrames, usedFrames, minFrame, maxFrame, initialized := 0, 0, USIZE_MAX, 0, false;
      held := {};
      new;
      forall f: nat ensures f !in ClearFrames(bitmap[..]) {
        InClearFrames(bitmap[..], f);
        if f < 8 * BITMAP_SIZE { SkippedByteIsUsed(bitmap[..], f / 8, f); }
      }
    }

    method ClearBit(frame: nat)
      requires Valid() && frame < MAX_FRAMES
      modifies bitmap
      ensures Free() == old(Free()) + {frame}
    {
      ClearingAdds(bitmap[..], frame);
      ghost var bm := bitmap[..];
      bitmap[frame / 8] := bitmap[frame / 8] & !Mask(frame % 8);
      assert bitmap[..] == bm[frame / 8 := bm[frame / 8] & !Mask(frame % 8)];
    }

    method MarkOneFree(frame: nat)
      requires Valid() && frame < MAX_FRAMES
      modifies this`totalFrames, this`minFrame, this`maxFrame, bitmap
      ensures Free() == old(Free()) + {frame} && totalFrames == old(totalFrames) + 1
      ensures old(Covered()) ==> Covered()
    {
      ClearBit(frame);
      totalFrames := totalFrames + 1;
      if frame < minFrame { minFrame := frame; }
      if frame > maxFrame { maxFrame := frame; }
    }

    method MarkFree(startFrame: nat, count: nat)
      requires Valid()
      modifies this`totalFrames, this`minFrame, this`maxFrame, bitmap
      ensures Free() == old(Free()) + Interval(startFrame, Min(startFrame + count, MAX_FRAMES))
      ensures totalFrames == old(totalFrames) + SaturatingSub(Min(startFrame + count, MAX_FRAMES), startFrame)
      ensures old(Covered()) ==> Covered()
    {
      for i := 0 to count
        invariant Free() == old(Free()) + Interval(startFrame, Min(startFrame + i, MAX_FRAMES))
        invariant totalFrames == old(totalFrames) + SaturatingSub(Min(startFrame + i, MAX_FRAMES), startFrame)
        invariant old(Covered()) ==> Covered()
      {
        IntervalGrows(startFrame, startFrame + i);
        if startFrame + i < MAX_FRAMES {
          MarkOneFree(startFrame + i);
        }
      }
    }

    method MarkUsed(frame: nat)
      requires Valid()
      modifies bitmap
      ensures Free() == old(Free()) - {frame}
    {
      InClearFrames(bitmap[..], frame);
      if frame < MAX_FRAMES {
        SettingRemoves(bitmap[..], frame);
        ghost var bm := bitmap[..];
        bitmap[frame / 8] := bitmap[frame / 8] | Mask(frame % 8);
        assert bitmap[..] == bm[frame / 8 := bm[frame / 8] | Mask(frame % 8)];
      }
    }

    method IsFree(frame: nat) returns (r: bool)
      requires Valid()
      ensures r <==> frame in Free()
    {
      InClearFrames(bitmap[..], frame);
      if frame >= MAX_FRAMES {
        return false;
      }
      r := BitClear(bitmap[frame / 8], frame % 8);
    }

    /**
      Skipping full bytes and scanning only between the extreme frames loses nothing: when no free
      frame lies outside that window, the result is the lowest free frame, and None only when no frame
      is free.  In any state it is the lowest free frame from the first extreme on, within the window.
     */
    method Alloc() returns (r: Option<PhysFrame>)
      requires Valid()
      modifies this`usedFrames, this`held, bitmap
      ensures !old(initialized) ==> r == None && View() == old(View())
      ensures old(initialized && Covered()) ==>
        var (pool, frame) := PoolStep(old(View()), FrameOp.Alloc);
        View() == pool && r == if frame.Some? then Some(FrameAt(frame.value)) else None
      ensures old(initialized) ==>
        match r
        case None => View() == old(View()) && forall f | f in Free() :: !(minFrame <= f <= maxFrame)
        case Some(p) =>
          var f := FrameIndex(p);
          && p == FrameAt(f) && f in old(Free()) && f <= maxFrame && Free() == old(Free()) - {f}
          && usedFrames == old(usedFrames) + 1
          && forall g | g in old(Free()) && minFrame <= g :: f <= g
      ensures old(Covered()) ==> Covered()
    {
      if !initialized {
        return None;
      }
      ghost var free := Free();
      forall f | f in free ensures f < MAX_FRAMES { InClearFrames(bitmap[..], f); }
      var byteIdx := minFrame / 8;
      while byteIdx <= maxFrame / 8
        invariant View() == old(View())
        invariant forall f | f in free :: minFrame <= f ==> 8 * byteIdx <= f
      {
        if byteIdx >= BITMAP_SIZE {
          break;
        }
        if bitmap[byteIdx] == 0xFF {
          forall f | f in free && minFrame <= f ensures 8 * (byteIdx + 1) <= f {
            if f < 8 * byteIdx + 8 { SkippedByteIsUsed(bitmap[..], byteIdx, f); }
          }
          byteIdx := byteIdx + 1;
          continue;
        }
        for bit := 0 to 8
          invariant View() == old(View())
          invariant forall f | f in free :: minFrame <= f ==> 8 * byteIdx + bit <= f
        {
          var frame := byteIdx * 8 + bit;
          if frame > maxFrame {
            return None;
          }
          var isFree := IsFree(frame);
          if isFree {
            MarkUsed(frame);
            usedFrames := usedFrames + 1;
            held := held + {frame};
            return Some(FrameAt(frame));
          }
        }
        byteIdx := byteIdx + 1;
      }
      return None;
    }

    method FreeFrame(frame: PhysFrame)
      requires Valid()
      modifies this`usedFrames, this`held, bitmap
      ensures View() == PoolStep(old(View()), FrameOp.Free(frame)).0
      ensures old(Covered()) && FrameIndex(frame) in old(held) ==> Covered()
    {
      var idx := FrameIndex(frame);
      var isFree := IsFree(idx);
      if idx < MAX_FRAMES && !isFree {
        ClearBit(idx);
        usedFrames := Decrement(usedFrames);
        held := held - {idx};
      }
    }

    /**
      The total is the number of usable frames, the used count is the held frames and the charge for the
      first MiB, and the free count never exceeds the number of free frames: it is that number iff no
      frame is free or the whole first MiB was usable.
     */
    method Stats() returns (s: FrameStats)
      requires Valid()
      ensures s.total == totalFrames && s.used == usedFrames && s.free == SaturatingSub(s.total, s.used)
      ensures forall es, ops | ReachedBy(es, ops) ::
        && s.total == |UsableFrames(es)|
        && s.used == |held| + (if UsableFrames(es) == {} then 0 else LOW_FRAMES)
        && s.free <= |Free()|
        && (s.free == |Free()| <==> Free() == {} || Interval(0, LOW_FRAMES) <= UsableFrames(es))
    {
      s := FrameStats(totalFrames, usedFrames, SaturatingSub(totalFrames, usedFrames));
      forall es, ops | ReachedBy(es, ops)
        ensures
          && s.total == |UsableFrames(es)|
          && s.used == |held| + (if UsableFrames(es) == {} then 0 else LOW_FRAMES)
          && s.free <= |Free()|
          && (s.free == |Free()| <==> Free() == {} || Interval(0, LOW_FRAMES) <= UsableFrames(es))
      {
        CountIsSize(es);
        Conservation(es, ops);
        ReportedFree(es, ops);
      }
    }

    method ReserveLow()
      requires Valid() && usedFrames == 0
      modifies this`usedFrames, bitmap
      ensures Free() == old(Free()) - Interval(0, LOW_FRAMES)
      ensures usedFrames == if totalFrames > 0 then LOW_FRAMES else 0
      ensures old(Covered()) ==> Covered()
    {
      for frame := 0 to LOW_FRAMES
        invariant Free() == old(Free()) - Interval(0, frame)
        invariant usedFrames == if totalFrames > 0 then frame else 0
      {
        MarkUsed(frame);
        if totalFrames > 0 {
          usedFrames := usedFrames + 1;
        }
      }
    }

    method AdoptRegions(entries: seq<Region>)
      requires Valid() && Free() == {} && totalFrames == 0
      modifies this`totalFrames, this`minFrame, this`maxFrame, bitmap
      ensures Free() == UsableFrames(entries) && totalFrames == TotalCount(entries)
      ensures old(Covered()) ==> Covered()
    {
      for i := 0 to |entries|
        invariant Free() == UsableFrames(entries[..i])
        invariant totalFrames == TotalCount(entries[..i])
        invariant old(Covered()) ==> Covered()
      {
        var e := entries[i];
        assert entries[..i + 1][..i] == entries[..i];
        if e.usable {
          var startFrame := (e.base + PAGE_SIZE - 1) / PAGE_SIZE;
          var endFrame := (e.base + e.length) / PAGE_SIZE;
          if endFrame > startFrame {
            MarkFree(startFrame, endFrame - startFrame);
          } else {
            assert RegionFrames(e) == {};
          }
        }
      }
      assert entries[..|entries|] == entries;
    }

    /** Boot: adopt the usable regions, then reserve the first MiB. */
    method InitFromMemmap(entries: seq<Region>)
      requires Valid() && View() == Pool({}, 0, {}) && totalFrames == 0
      modifies this`totalFrames, this`minFrame, this`maxFrame, this`usedFrames, this`initialized, bitmap
      ensures initialized && (old(Covered()) ==> Covered())
      ensures View() == Boot(entries) && totalFrames == TotalCount(entries)
      ensures DisjointRegions(entries) ==> ReachedBy(entries, [])
    {
      AdoptRegions(entries);
      ReserveLow();
      initialized := true;
    }
  }
}
