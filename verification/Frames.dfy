/**
  Physical memory as a set of free frames: what the bitmap allocator promises over whole runs.
 */
module Frames {
  import opened Wrappers

  const PAGE_SIZE: nat := 4096
  const BITMAP_SIZE: nat := 131072
  const MAX_FRAMES: nat := 1048576
  const LOW_FRAMES: nat := 256  // the first MiB, reserved for firmware

  /** A physical address; the allocator hands out addresses of whole frames. */
  datatype PhysFrame = PhysFrame(addr: nat)

  function FrameIndex(f: PhysFrame): nat {
    f.addr / PAGE_SIZE
  }

  function FrameAt(index: nat): PhysFrame {
    PhysFrame(index * PAGE_SIZE)
  }

  /** The frame an address lies in: the address with its low twelve bits cleared. */
  function Containing(addr: nat): PhysFrame {
    PhysFrame(addr - addr % PAGE_SIZE)
  }

  /** Every address inside a frame, not just its first, has that frame's index and lies in that frame. */
  lemma FrameIndexOfAddress(index: nat, offset: nat)
    requires offset < PAGE_SIZE
    ensures FrameIndex(PhysFrame(FrameAt(index).addr + offset)) == index
    ensures Containing(FrameAt(index).addr + offset) == FrameAt(index)
  {
  }

  // ----- Usable regions -----

  datatype Region = Region(base: nat, length: nat, usable: bool)

  function StartFrame(e: Region): nat {
    (e.base + PAGE_SIZE - 1) / PAGE_SIZE
  }

  function EndFrame(e: Region): nat {
    (e.base + e.length) / PAGE_SIZE
  }

  ghost function Interval(lo: nat, hi: nat): (r: set<nat>)
    ensures forall f :: f in r <==> lo <= f < hi
    decreases hi
  {
    if lo < hi then Interval(lo, hi - 1) + {hi - 1} else {}
  }

  lemma {:induction false} IntervalSize(lo: nat, hi: nat)
    ensures |Interval(lo, hi)| == if lo < hi then hi - lo else 0
    decreases hi
  {
    if lo < hi {
      IntervalSize(lo, hi - 1);
    }
  }

  /** The whole supported frames inside a region: partial frames at either end do not count. */
  ghost function RegionFrames(e: Region): set<nat> {
    if e.usable then Interval(StartFrame(e), Min(EndFrame(e), MAX_FRAMES)) else {}
  }

  function RegionCount(e: Region): nat {
    if e.usable && StartFrame(e) < Min(EndFrame(e), MAX_FRAMES)
    then Min(EndFrame(e), MAX_FRAMES) - StartFrame(e)
    else 0
  }

  ghost function UsableFrames(es: seq<Region>): set<nat> {
    if es == [] then {} else UsableFrames(es[..|es| - 1]) + RegionFrames(es[|es| - 1])
  }

  function TotalCount(es: seq<Region>): nat {
    if es == [] then 0 else TotalCount(es[..|es| - 1]) + RegionCount(es[|es| - 1])
  }

  predicate Disjoint(a: Region, b: Region) {
    a.base + a.length <= b.base || b.base + b.length <= a.base
  }

  ghost predicate DisjointRegions(es: seq<Region>) {
    forall i, j | 0 <= i < j < |es| && es[i].usable && es[j].usable :: Disjoint(es[i], es[j])
  }

  lemma {:induction false} UsableFrameIsInRegion(es: seq<Region>, f: nat)
    requires f in UsableFrames(es)
    ensures exists i :: 0 <= i < |es| && f in RegionFrames(es[i])
  {
    if f in RegionFrames(es[|es| - 1]) {
    } else {
      UsableFrameIsInRegion(es[..|es| - 1], f);
      var i :| 0 <= i < |es| - 1 && f in RegionFrames(es[..|es| - 1][i]);
      assert f in RegionFrames(es[i]);
    }
  }

  /** Over disjoint usable regions the boot-time frame count is the number of usable frames. */
  lemma {:induction false} CountIsSize(es: seq<Region>)
    requires DisjointRegions(es)
    ensures TotalCount(es) == |UsableFrames(es)|
  {
    if es != [] {
      var init, e := es[..|es| - 1], es[|es| - 1];
      CountIsSize(init);
      IntervalSize(StartFrame(e), Min(EndFrame(e), MAX_FRAMES));
      forall f | f in UsableFrames(init) ensures f !in RegionFrames(e) {
        LastRegionIsSeparate(es, f);
      }
      assert UsableFrames(init) !! RegionFrames(e);
    }
  }

  lemma LastRegionIsSeparate(es: seq<Region>, f: nat)
    requires DisjointRegions(es) && es != [] && f in UsableFrames(es[..|es| - 1])
    ensures f !in RegionFrames(es[|es| - 1])
  {
    UsableFrameIsInRegion(es[..|es| - 1], f);
    var i :| 0 <= i < |es| - 1 && f in RegionFrames(es[..|es| - 1][i]);
    assert es[|es| - 1].usable ==> Disjoint(es[i], es[|es| - 1]);
    FrameInsideRegion(es[i], f);
    FrameInsideRegion(es[|es| - 1], f);
  }

  lemma FrameInsideRegion(e: Region, f: nat)
    ensures f in RegionFrames(e) <==> e.usable && f < MAX_FRAMES && Contains(e, f)
  {
  }

  /** All the bytes of the frame lie in the region. */
  predicate Contains(e: Region, f: nat) {
    e.base <= f * PAGE_SIZE && (f + 1) * PAGE_SIZE <= e.base + e.length
  }

  /** The usable frames are exactly the supported ones that some usable region contains whole. */
  lemma {:induction false} UsableIsWholeFrames(es: seq<Region>, f: nat)
    ensures f in UsableFrames(es) <==> f < MAX_FRAMES && exists i :: 0 <= i < |es| && es[i].usable && Contains(es[i], f)
  {
    if es != [] {
      var init, e := es[..|es| - 1], es[|es| - 1];
      UsableIsWholeFrames(init, f);
      FrameInsideRegion(e, f);
      if i :| 0 <= i < |init| && init[i].usable && Contains(init[i], f) {
        assert es[i] == init[i];
      }
      if i :| 0 <= i < |es| && es[i].usable && Contains(es[i], f) {
        assert i < |init| ==> es[..|es| - 1][i] == es[i];
      }
    }
  }

  // ----- The pool of free frames -----

  ghost predicate IsLowest(s: set<nat>, m: nat) {
    m in s && forall f | f in s :: m <= f
  }

  ghost function Lowest(s: set<nat>): (m: nat)
    requires s != {}
    ensures IsLowest(s, m)
  {
    LowestExists(s);
    var m :| IsLowest(s, m);
    m
  }

  lemma {:induction false} LowestExists(s: set<nat>)
    requires s != {}
    ensures exists m :: IsLowest(s, m)
    decreases |s|
  {
    var x :| x in s;
    if s == {x} {
      assert IsLowest(s, x);
    } else {
      LowestExists(s - {x});
      var m :| IsLowest(s - {x}, m);
      var w := if m <= x then m else x;
      forall f | f in s ensures w <= f { assert f == x || f in s - {x}; }
      assert IsLowest(s, w);
    }
  }

  ghost function AllocOn(free: set<nat>): (set<nat>, Option<nat>) {
    if free == {} then (free, None) else (free - {Lowest(free)}, Some(Lowest(free)))
  }

  /** The decrement wraps in the machine word; over legal runs it is never applied to zero. */
  function Decrement(n: nat): nat {
    if n == 0 then USIZE_MAX else n - 1
  }

  datatype FrameOp = Alloc | Free(frame: PhysFrame)

  /** What the allocator stores, plus which frames its clients hold. */
  datatype Pool = Pool(free: set<nat>, used: nat, held: set<nat>)

  ghost function Boot(es: seq<Region>): Pool {
    Pool(UsableFrames(es) - Interval(0, LOW_FRAMES), if TotalCount(es) > 0 then LOW_FRAMES else 0, {})
  }

  ghost function PoolStep(p: Pool, op: FrameOp): (Pool, Option<nat>) {
    match op
    case Alloc =>
      var (free, r) := AllocOn(p.free);
      (if r.Some? then Pool(free, p.used + 1, p.held + {r.value}) else p, r)
    case Free(frame) =>
      var f := FrameIndex(frame);
      (if f < MAX_FRAMES && f !in p.free then Pool(p.free + {f}, Decrement(p.used), p.held - {f}) else p, None)
  }

  ghost function PoolRun(p: Pool, ops: seq<FrameOp>): Pool {
    if ops == [] then p else PoolStep(PoolRun(p, ops[..|ops| - 1]), ops[|ops| - 1]).0
  }

  /** The frame operation `k` of the run hands out, if any. */
  ghost function Reply(p: Pool, ops: seq<FrameOp>, k: nat): Option<nat>
    requires k < |ops|
  {
    PoolStep(PoolRun(p, ops[..k]), ops[k]).1
  }

  /** Only frames that are held are ever freed. */
  ghost predicate Legal(p: Pool, ops: seq<FrameOp>) {
    ops == [] ||
    (Legal(p, ops[..|ops| - 1]) &&
     var op := ops[|ops| - 1];
     op.Free? ==> FrameIndex(op.frame) in PoolRun(p, ops[..|ops| - 1]).held)
  }

  lemma {:induction false} LegalPrefix(p: Pool, ops: seq<FrameOp>, k: nat)
    requires Legal(p, ops) && k <= |ops|
    ensures Legal(p, ops[..k])
  {
    if k == |ops| {
      assert ops[..k] == ops;
    } else {
      LegalPrefix(p, ops[..|ops| - 1], k);
      assert ops[..|ops| - 1][..k] == ops[..k];
    }
  }

  /**
    Frame conservation.  Free and held frames partition what was usable at boot above 1 MiB, and the
    used counter is the boot-time charge plus the held frames, so it never underflows.
   */
  lemma {:induction false} Conservation(es: seq<Region>, ops: seq<FrameOp>)
    requires Legal(Boot(es), ops)
    ensures Conserved(Boot(es), PoolRun(Boot(es), ops))
    ensures |PoolRun(Boot(es), ops).free| + PoolRun(Boot(es), ops).used == |Boot(es).free| + Boot(es).used
  {
    UsableIsSupported(es);
    if ops != [] {
      var before := ops[..|ops| - 1];
      Conservation(es, before);
      StepConserves(Boot(es), PoolRun(Boot(es), before), ops[|ops| - 1]);
    }
  }

  ghost predicate Conserved(b: Pool, p: Pool) {
    p.free !! p.held && p.free + p.held == b.free && p.used == b.used + |p.held|
  }

  lemma StepConserves(b: Pool, p: Pool, op: FrameOp)
    requires Conserved(b, p) && (forall f | f in b.free :: f < MAX_FRAMES)
    requires op.Free? ==> FrameIndex(op.frame) in p.held
    ensures Conserved(b, PoolStep(p, op).0)
  {
    if op.Free? {
      var f := FrameIndex(op.frame);
      assert p.free + {f} + (p.held - {f}) == p.free + p.held;
    } else if p.free != {} {
      var f := Lowest(p.free);
      assert p.free - {f} + (p.held + {f}) == p.free + p.held;
    }
  }

  lemma {:induction false} UsableIsSupported(es: seq<Region>)
    ensures forall f | f in UsableFrames(es) :: f < MAX_FRAMES
  {
    if es != [] {
      UsableIsSupported(es[..|es| - 1]);
    }
  }

  /** Every frame handed out is a usable frame at or above 1 MiB that nobody holds, and it is the lowest such. */
  lemma HandsOutUsable(es: seq<Region>, ops: seq<FrameOp>, k: nat)
    requires Legal(Boot(es), ops) && k < |ops| && ops[k] == Alloc
    ensures
      var r, p := Reply(Boot(es), ops, k), PoolRun(Boot(es), ops[..k]);
      match r
      case Some(f) =>
        && f in UsableFrames(es) && f >= LOW_FRAMES && f !in p.held
        && forall g | g in UsableFrames(es) && LOW_FRAMES <= g < f :: g in p.held
      case None => forall g | g in UsableFrames(es) && g >= LOW_FRAMES :: g in p.held
  {
    LegalPrefix(Boot(es), ops, k);
    Conservation(es, ops[..k]);
    LowestOfFree(Boot(es), PoolRun(Boot(es), ops[..k]));
    assert forall g :: g in Boot(es).free <==> g in UsableFrames(es) && g >= LOW_FRAMES;
  }

  /** In bytes: boot leaves free exactly the pages between 1 MiB and 4 GiB that some usable region contains whole. */
  lemma BootFreesWholePages(es: seq<Region>, f: nat)
    ensures f in Boot(es).free <==>
      0x10_0000 <= f * 4096 && (f + 1) * 4096 <= 0x1_0000_0000 &&
      exists i :: 0 <= i < |es| && es[i].usable && es[i].base <= f * 4096 && (f + 1) * 4096 <= es[i].base + es[i].length
  {
    UsableIsWholeFrames(es, f);
    if i :| 0 <= i < |es| && es[i].usable && Contains(es[i], f) {
      assert es[i].base <= f * 4096 && (f + 1) * 4096 <= es[i].base + es[i].length;
    }
    if i :| 0 <= i < |es| && es[i].usable && es[i].base <= f * 4096 && (f + 1) * 4096 <= es[i].base + es[i].length {
      assert Contains(es[i], f);
    }
  }

  lemma LowestOfFree(b: Pool, p: Pool)
    requires Conserved(b, p)
    ensures
      match AllocOn(p.free).1
      case Some(f) => f in b.free && f !in p.held && forall g | g in b.free && g < f :: g in p.held
      case None => forall g | g in b.free :: g in p.held
  {
    forall g | g in b.free ensures g in p.free || g in p.held {
      assert g in p.free + p.held;
    }
  }

  ghost predicate FreedBetween(ops: seq<FrameOp>, i: nat, j: nat, f: nat) {
    exists k :: i < k < j && k < |ops| && ops[k].Free? && FrameIndex(ops[k].frame) == f
  }

  lemma {:induction false} StaysHeld(p: Pool, ops: seq<FrameOp>, i: nat, j: nat, f: nat)
    requires i < j <= |ops| && f in PoolRun(p, ops[..i + 1]).held && !FreedBetween(ops, i, j, f)
    ensures f in PoolRun(p, ops[..j]).held
  {
    if j > i + 1 {
      assert FreedBetween(ops, i, j - 1, f) ==> FreedBetween(ops, i, j, f);
      StaysHeld(p, ops, i, j - 1, f);
      assert ops[..j][..j - 1] == ops[..j - 1] && ops[..j][j - 1] == ops[j - 1];
    }
  }

  /** No frame is handed out twice unless it was freed in between. */
  lemma NeverHandedOutTwice(es: seq<Region>, ops: seq<FrameOp>, i: nat, j: nat)
    requires Legal(Boot(es), ops) && i < j < |ops| && ops[i] == Alloc && ops[j] == Alloc
    requires Reply(Boot(es), ops, i).Some? && Reply(Boot(es), ops, j) == Reply(Boot(es), ops, i)
    ensures FreedBetween(ops, i, j, Reply(Boot(es), ops, i).value)
  {
    var f := Reply(Boot(es), ops, i).value;
    if !FreedBetween(ops, i, j, f) {
      assert ops[..i + 1][..i] == ops[..i] && ops[..i + 1][i] == ops[i];
      StaysHeld(Boot(es), ops, i, j, f);
      LegalPrefix(Boot(es), ops, j);
      Conservation(es, ops[..j]);
    }
  }

  lemma FreeHeld(b: Pool, p: Pool, frame: PhysFrame)
    requires Conserved(b, p) && FrameIndex(frame) in p.held && FrameIndex(frame) < MAX_FRAMES
    ensures
      var f := FrameIndex(frame);
      f !in p.free && p.used > 0 && PoolStep(p, Free(frame)).0 == Pool(p.free + {f}, p.used - 1, p.held - {f})
  {
    assert |p.held| > 0;
  }

  lemma FreeUndoesAlloc(b: Pool, p: Pool, frame: PhysFrame)
    requires Conserved(b, p) && FrameIndex(frame) < MAX_FRAMES
    requires PoolStep(p, Alloc).1 == Some(FrameIndex(frame))
    ensures PoolStep(PoolStep(p, Alloc).0, Free(frame)).0 == p
  {
    var f := FrameIndex(frame);
    assert f in p.free && f !in p.held;
    assert p.free - {f} + {f} == p.free && p.held + {f} - {f} == p.held;
  }

  /**
    Freeing a held frame gives it back: it is free and no longer held, one fewer is used, and every
    other frame stays as it was.  An allocation undone by a free of any address in the frame it handed
    out leaves the pool as it found it.
   */
  lemma FreeGivesBack(es: seq<Region>, ops: seq<FrameOp>, frame: PhysFrame)
    requires Legal(Boot(es), ops)
    ensures
      var p, f := PoolRun(Boot(es), ops), FrameIndex(frame);
      && (f in p.held ==>
            f !in p.free && p.used > 0 &&
            PoolStep(p, Free(frame)).0 == Pool(p.free + {f}, p.used - 1, p.held - {f}))
      && (PoolStep(p, Alloc).1 == Some(f) ==> PoolStep(PoolStep(p, Alloc).0, Free(frame)).0 == p)
  {
    var p, f := PoolRun(Boot(es), ops), FrameIndex(frame);
    Conservation(es, ops);
    UsableIsSupported(es);
    assert f in p.held || f in p.free ==> f in Boot(es).free;
    if f in p.held {
      FreeHeld(Boot(es), p, frame);
    }
    if PoolStep(p, Alloc).1 == Some(f) {
      FreeUndoesAlloc(Boot(es), p, frame);
    }
  }

  lemma FreeKeepsBooksIff(b: Pool, p: Pool, frame: PhysFrame)
    requires Conserved(b, p) && (forall f | f in b.free :: f < MAX_FRAMES)
    ensures
      var f := FrameIndex(frame);
      Conserved(b, PoolStep(p, Free(frame)).0) <==> f in p.held || f in p.free || f >= MAX_FRAMES
  {
    var f := FrameIndex(frame);
    if f in p.held {
      StepConserves(b, p, Free(frame));
    } else if f !in p.free && f < MAX_FRAMES {
      assert f !in b.free && f in PoolStep(p, Free(frame)).0.free;
    }
  }

  /** Of all that can be asked to be freed, exactly what is held, already free or unsupported leaves the books in order. */
  lemma FreeIsSafeIff(es: seq<Region>, ops: seq<FrameOp>, frame: PhysFrame)
    requires Legal(Boot(es), ops)
    ensures
      var p, f := PoolRun(Boot(es), ops), FrameIndex(frame);
      Conserved(Boot(es), PoolStep(p, Free(frame)).0) <==> f in p.held || f in p.free || f >= MAX_FRAMES
  {
    Conservation(es, ops);
    UsableIsSupported(es);
    FreeKeepsBooksIff(Boot(es), PoolRun(Boot(es), ops), frame);
  }

  /**
    A frame that is free or unsupported is not freed.  Any other joins the free ones, whoever held it, and
    the counter goes down by one in a 64-bit word, round to the top if it was zero.
   */
  lemma FreeTakesAnyFrame(p: Pool, frame: PhysFrame)
    ensures
      var f, q := FrameIndex(frame), PoolStep(p, Free(frame)).0;
      if f in p.free || f >= MAX_FRAMES then q == p
      else q.free == p.free + {f} && (q.used + 1) % 0x1_0000_0000_0000_0000 == p.used % 0x1_0000_0000_0000_0000
  {
  }

  /**
    The reported free count never exceeds the number of free frames.  The 256 low frames are charged
    as used whether or not they were usable, so the report is exact iff they all were, or nothing is free.
   */
  lemma ReportedFree(es: seq<Region>, ops: seq<FrameOp>)
    requires DisjointRegions(es) && Legal(Boot(es), ops)
    ensures
      var p := PoolRun(Boot(es), ops);
      var reported := SaturatingSub(TotalCount(es), p.used);
      reported <= |p.free| &&
      (reported == |p.free| <==> p.free == {} || Interval(0, LOW_FRAMES) <= UsableFrames(es))
  {
    CountIsSize(es);
    Conservation(es, ops);
    IntervalSize(0, LOW_FRAMES);
    ReportArithmetic(UsableFrames(es), Interval(0, LOW_FRAMES), Boot(es).used, PoolRun(Boot(es), ops));
  }

  lemma ReportArithmetic(usable: set<nat>, low: set<nat>, charged: nat, p: Pool)
    ensures
      var reported := SaturatingSub(|usable|, p.used);
      charged == (if usable == {} then 0 else |low|) && |p.free| + p.used == |usable - low| + charged ==>
        reported <= |p.free| && (reported == |p.free| <==> p.free == {} || low <= usable)
  {
    LowShare(usable, low);
    assert usable == {} ==> usable - low == {};
    assert p.free == {} <==> |p.free| == 0;
  }

  lemma LowShare(usable: set<nat>, low: set<nat>)
    ensures |usable| <= |usable - low| + |low|
    ensures |usable| == |usable - low| + |low| <==> low <= usable
  {
    assert usable == (usable - low) + usable * low;
    SubsetSize(usable * low, low);
  }

  lemma {:induction false} SubsetSize(a: set<nat>, b: set<nat>)
    requires a <= b
    ensures |a| <= |b| && (|a| == |b| <==> a == b)
  {
    assert b == a + (b - a);
    if a != b {
      var x :| x in b - a;
    }
  }
}
