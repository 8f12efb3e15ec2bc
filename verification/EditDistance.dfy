/**
  Levenshtein distance: the recurrence, the edit scripts it minimises over, and its metric laws.

  A script is read from the right end of a string, the end the recurrence works from.
 */
module EditDistances {
  import opened Wrappers

  datatype Script<T> =
    | Done
    | Keep(rest: Script<T>)
    | Substitute(item: T, rest: Script<T>)
    | Insert(item: T, rest: Script<T>)
    | Delete(rest: Script<T>)

  function Init<T>(s: seq<T>): seq<T>
    requires s != []
  {
    s[..|s| - 1]
  }

  function Last<T>(s: seq<T>): T
    requires s != []
  {
    s[|s| - 1]
  }

  /** The string a script turns `a` into, if its steps fit `a`. */
  function Apply<T>(p: Script<T>, a: seq<T>): Option<seq<T>> {
    match p
    case Done => if a == [] then Some([]) else None
    case Keep(r) => if a == [] then None else Then(Apply(r, Init(a)), Last(a))
    case Substitute(c, r) => if a == [] then None else Then(Apply(r, Init(a)), c)
    case Insert(c, r) => Then(Apply(r, a), c)
    case Delete(r) => if a == [] then None else Apply(r, Init(a))
  }

  function Then<T>(s: Option<seq<T>>, c: T): (r: Option<seq<T>>)
    ensures s.Some? ==> r.Some? && r.value != [] && Init(r.value) == s.value && Last(r.value) == c
    ensures s.None? ==> r.None?
  {
    if s.Some? then Some(s.value + [c]) else None
  }

  /** Every insertion, deletion and substitution costs one. */
  function Cost<T>(p: Script<T>): nat {
    match p
    case Done => 0
    case Keep(r) => Cost(r)
    case Substitute(_, r) => 1 + Cost(r)
    case Insert(_, r) => 1 + Cost(r)
    case Delete(r) => 1 + Cost(r)
  }

  predicate Transforms<T(==)>(p: Script<T>, a: seq<T>, b: seq<T>) {
    Apply(p, a) == Some(b)
  }

  function Dist<T(==)>(a: seq<T>, b: seq<T>): nat
    decreases |a| + |b|
  {
    if a == [] then |b|
    else if b == [] then |a|
    else
      var cost := if Last(a) == Last(b) then 0 else 1;
      Min(Min(Dist(Init(a), b) + 1, Dist(a, Init(b)) + 1), Dist(Init(a), Init(b)) + cost)
  }

  // ----- The distance is the least cost of a script -----

  /** A script that attains the distance. */
  function BestScript<T(==)>(a: seq<T>, b: seq<T>): (p: Script<T>)
    ensures Transforms(p, a, b) && Cost(p) == Dist(a, b)
    decreases |a| + |b|
  {
    if a == [] then
      if b == [] then Done else assert b == Init(b) + [Last(b)]; Insert(Last(b), BestScript(a, Init(b)))
    else if b == [] then Delete(BestScript(Init(a), b))
    else
      assert b == Init(b) + [Last(b)];
      if Dist(a, b) == Dist(Init(a), b) + 1 then Delete(BestScript(Init(a), b))
      else if Dist(a, b) == Dist(a, Init(b)) + 1 then Insert(Last(b), BestScript(a, Init(b)))
      else if Last(a) == Last(b) then Keep(BestScript(Init(a), Init(b)))
      else Substitute(Last(b), BestScript(Init(a), Init(b)))
  }

  lemma {:induction false} NoScriptIsCheaper<T>(p: Script<T>, a: seq<T>, b: seq<T>)
    requires Transforms(p, a, b)
    ensures Dist(a, b) <= Cost(p)
  {
    match p
    case Done =>
    case Keep(r) => NoScriptIsCheaper(r, Init(a), Init(b));
    case Substitute(_, r) => NoScriptIsCheaper(r, Init(a), Init(b));
    case Insert(_, r) => NoScriptIsCheaper(r, a, Init(b));
    case Delete(r) => NoScriptIsCheaper(r, Init(a), b);
  }

  lemma DistIsLeastCost<T(!new)>(a: seq<T>, b: seq<T>)
    ensures exists p: Script<T> :: Transforms(p, a, b) && Cost(p) == Dist(a, b)
    ensures forall p: Script<T> :: Transforms(p, a, b) ==> Dist(a, b) <= Cost(p)
  {
    assert Transforms(BestScript(a, b), a, b);
    forall p: Script<T> | Transforms(p, a, b) ensures Dist(a, b) <= Cost(p) {
      NoScriptIsCheaper(p, a, b);
    }
  }

  // ----- Metric laws -----

  lemma {:induction false} Symmetric<T>(a: seq<T>, b: seq<T>)
    ensures Dist(a, b) == Dist(b, a)
    decreases |a| + |b|
  {
    if a != [] && b != [] {
      Symmetric(Init(a), b);
      Symmetric(a, Init(b));
      Symmetric(Init(a), Init(b));
    }
  }

  lemma {:induction false} ZeroIffEqual<T>(a: seq<T>, b: seq<T>)
    ensures Dist(a, b) == 0 <==> a == b
    decreases |a| + |b|
  {
    if a != [] && b != [] {
      ZeroIffEqual(Init(a), Init(b));
      assert a == Init(a) + [Last(a)] && b == Init(b) + [Last(b)];
    }
  }

  lemma {:induction false} Bounds<T>(a: seq<T>, b: seq<T>)
    ensures Max(|a|, |b|) - Min(|a|, |b|) <= Dist(a, b) <= Max(|a|, |b|)
    decreases |a| + |b|
  {
    if a != [] && b != [] {
      Bounds(Init(a), b);
      Bounds(a, Init(b));
      Bounds(Init(a), Init(b));
    }
  }

  /** Doing `p` and then `q` in one pass. */
  function Compose<T>(p: Script<T>, q: Script<T>): (r: Script<T>)
    ensures Cost(r) <= Cost(p) + Cost(q)
    decreases p, q
  {
    if p.Delete? then Delete(Compose(p.rest, q))
    else if q.Insert? then Insert(q.item, Compose(p, q.rest))
    else if p.Done? || q.Done? then Done
    else if p.Insert? && q.Delete? then Compose(p.rest, q.rest)
    else if q.Delete? then Delete(Compose(p.rest, q.rest))
    else if p.Insert? then Insert(if q.Keep? then p.item else q.item, Compose(p.rest, q.rest))
    else if q.Substitute? then Substitute(q.item, Compose(p.rest, q.rest))
    else if p.Substitute? then Substitute(p.item, Compose(p.rest, q.rest))
    else Keep(Compose(p.rest, q.rest))
  }

  lemma {:induction false} ComposeTransforms<T>(p: Script<T>, q: Script<T>, a: seq<T>, b: seq<T>, c: seq<T>)
    requires Transforms(p, a, b) && Transforms(q, b, c)
    ensures Transforms(Compose(p, q), a, c)
    decreases p, q
  {
    if p.Delete? {
      ComposeTransforms(p.rest, q, Init(a), b, c);
    } else if q.Insert? {
      ComposeTransforms(p, q.rest, a, b, Init(c));
    } else if p.Done? || q.Done? {
    } else if p.Insert? && q.Delete? {
      ComposeTransforms(p.rest, q.rest, a, Init(b), c);
    } else if q.Delete? {
      ComposeTransforms(p.rest, q.rest, Init(a), Init(b), c);
    } else if p.Insert? {
      ComposeTransforms(p.rest, q.rest, a, Init(b), Init(c));
    } else {
      ComposeTransforms(p.rest, q.rest, Init(a), Init(b), Init(c));
    }
  }

  lemma Triangle<T>(a: seq<T>, b: seq<T>, c: seq<T>)
    ensures Dist(a, c) <= Dist(a, b) + Dist(b, c)
  {
    var p, q := BestScript(a, b), BestScript(b, c);
    ComposeTransforms(p, q, a, b, c);
    NoScriptIsCheaper(Compose(p, q), a, c);
  }
}
