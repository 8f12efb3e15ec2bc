/**
  The shell's spelling help: the two-row edit distance and the nearest-command search built on it.
  Each `char` of a string stands for one byte.
 */
module Suggestions {
  import opened Wrappers
  import opened EditDistances

  /** What the code reports; targets of 31 bytes or more do not fit its rows and are not compared. */
  function Reported<T(==)>(a: seq<T>, b: seq<T>): nat {
    if a != [] && |b| >= 31 then |b| else Dist(a, b)
  }

  /** The entry of the full table at row `i` and column `j`. */
  ghost function Cell<T>(a: seq<T>, b: seq<T>, i: nat, j: nat): nat
    requires i <= |a| && j <= |b|
  {
    Dist(a[..i], b[..j])
  }

  lemma CellStep<T>(a: seq<T>, b: seq<T>, i: nat, j: nat)
    requires i < |a| && j < |b|
    ensures Cell(a, b, i + 1, j + 1) ==
      Min(Min(Cell(a, b, i, j + 1) + 1, Cell(a, b, i + 1, j) + 1),
          Cell(a, b, i, j) + if a[i] == b[j] then 0 else 1)
  {
    var u, v := a[..i + 1], b[..j + 1];
    assert Init(u) == a[..i] && Last(u) == a[i];
    assert Init(v) == b[..j] && Last(v) == b[j];
  }

  /** Columns below `k` of a row array hold row `i` of the table. */
  ghost predicate Holds<T>(row: array<nat>, a: seq<T>, b: seq<T>, i: nat, k: nat)
    requires i <= |a|
    reads row
  {
    k <= row.Length && k <= |b| + 1 && forall j | 0 <= j < k :: row[j] == Cell(a, b, i, j)
  }

  method FillRow<T(==)>(a: seq<T>, b: seq<T>, i: nat, prev: array<nat>, curr: array<nat>)
    requires 1 <= i <= |a| && prev.Length == curr.Length == 32 && prev != curr
    requires Holds(prev, a, b, i - 1, |b| + 1)
    modifies curr
    ensures Holds(curr, a, b, i, |b| + 1)
  {
    curr[0] := i;
    assert Holds(curr, a, b, i, 1) by { assert b[..0] == []; }
    for j := 1 to |b| + 1
      invariant Holds(prev, a, b, i - 1, |b| + 1)
      invariant Holds(curr, a, b, i, j)
    {
      var cost := if a[i - 1] == b[j - 1] then 0 else 1;
      CellStep(a, b, i - 1, j - 1);
      curr[j] := Min(Min(prev[j] + 1, curr[j - 1] + 1), prev[j - 1] + cost);
    }
  }

  method CopyRow(n: nat, curr: array<nat>, prev: array<nat>)
    requires n < prev.Length && prev.Length == curr.Length && prev != curr
    modifies prev
    ensures forall k | 0 <= k <= n :: prev[k] == curr[k]
  {
    for j := 0 to n + 1
      invariant forall k | 0 <= k < j :: prev[k] == curr[k]
    {
      prev[j] := curr[j];
    }
  }

  method EditDistance<T(==)>(a: seq<T>, b: seq<T>) returns (d: nat)
    ensures d == Reported(a, b) == if a != [] && |b| >= 31 then |b| else Dist(a, b)
  {
    var m, n := |a|, |b|;
    if m == 0 { return n; }
    if n == 0 { return m; }
    if n >= 31 { return n; }

    var prev := new nat[32](_ => 0);
    var curr := new nat[32](_ => 0);
    for j := 0 to n + 1
      invariant forall k | 0 <= k < j :: prev[k] == k
    {
      prev[j] := j;
    }
    assert Holds(prev, a, b, 0, n + 1);
    for i := 1 to m + 1
      invariant Holds(prev, a, b, i - 1, n + 1)
      invariant i > 1 ==> Holds(curr, a, b, i - 1, n + 1)
    {
      FillRow(a, b, i, prev, curr);
      CopyRow(n, curr, prev);
    }
    assert a[..m] == a && b[..n] == b;
    assert curr[n] == Cell(a, b, m, n);
    d := curr[n];
  }

  /** The code computes the true distance to `b` from every string exactly when `b` has at most 30 bytes. */
  lemma ExactUpToThirty(b: string)
    ensures |b| <= 30 <==> forall a: string :: Reported(a, b) == Dist(a, b)
  {
    if |b| >= 31 {
      ZeroIffEqual(b, b);
      assert Reported(b, b) != Dist(b, b);
    }
  }

  const COMMANDS: seq<string> := [
    "help", "status", "ps", "agents", "caps", "audit",
    "deploy", "pipe", "send", "tick", "ls", "cat",
    "write", "rm", "touch", "mem", "kill", "top",
    "gc", "uptime", "dmesg", "set", "get", "unset",
    "env", "run", "alias", "unalias", "aliases",
    "history", "clear", "about"
  ]

  lemma CommandsAreShort()
    ensures forall k | 0 <= k < |COMMANDS| :: |COMMANDS[k]| <= 30
  {
  }

  /** Entry `k` is the first of the commands at least distance from the input. */
  ghost predicate Nearest(input: string, commands: seq<string>, k: nat) {
    && k < |commands|
    && (forall j | 0 <= j < |commands| :: Dist(input, commands[k]) <= Dist(input, commands[j]))
    && (forall j | 0 <= j < k :: Dist(input, commands[k]) < Dist(input, commands[j]))
  }

  method FindNearest(input: string, commands: seq<string>) returns (best: Option<string>, bestDist: nat)
    requires forall k | 0 <= k < |commands| :: |commands[k]| <= 30
    ensures forall k | 0 <= k < |commands| :: bestDist <= Dist(input, commands[k])
    ensures match best
            case None => bestDist == USIZE_MAX
            case Some(c) => exists k: nat :: Nearest(input, commands, k) && c == commands[k] && bestDist == Dist(input, c)
  {
    best, bestDist := None, USIZE_MAX;
    ghost var at := 0;
    for i := 0 to |commands|
      invariant forall j | 0 <= j < i :: bestDist <= Dist(input, commands[j])
      invariant best.None? ==> bestDist == USIZE_MAX
      invariant best.Some? ==> at < i && best.value == commands[at] && bestDist == Dist(input, commands[at])
      invariant best.Some? ==> forall j | 0 <= j < at :: bestDist < Dist(input, commands[j])
    {
      var d := EditDistance(input, commands[i]);
      if d < bestDist {
        bestDist, best := d, Some(commands[i]);
        at := i;
      }
    }
    if best.Some? {
      assert Nearest(input, commands, at);
    }
  }

  /**
    The search is exact: it suggests the first nearest command when that is one or two edits away,
    and nothing iff the input is itself a listed command or every command is three or more away.
   */
  ghost predicate GoodSuggestion(input: string, commands: seq<string>, r: Option<string>) {
    && (r.None? <==>
        input in commands || forall k | 0 <= k < |commands| :: Dist(input, commands[k]) >= 3)
    && (r.Some? ==> exists k: nat ::
          Nearest(input, commands, k) && r.value == commands[k] && 1 <= Dist(input, r.value) <= 2)
  }

  method SuggestFrom(input: string, commands: seq<string>) returns (r: Option<string>)
    requires forall k | 0 <= k < |commands| :: |commands[k]| <= 30
    ensures GoodSuggestion(input, commands, r)
  {
    var best, bestDist := FindNearest(input, commands);
    WhenNearestIsZero(input, commands, bestDist);
    r := if bestDist <= 2 && bestDist > 0 then best else None;
  }

  method SuggestCommand(input: string) returns (r: Option<string>)
    ensures GoodSuggestion(input, COMMANDS, r)
  {
    CommandsAreShort();
    r := SuggestFrom(input, COMMANDS);
  }

  lemma WhenNearestIsZero(input: string, commands: seq<string>, d: nat)
    requires forall k | 0 <= k < |commands| :: d <= Dist(input, commands[k])
    ensures input in commands ==> d == 0
    ensures forall k | 0 <= k < |commands| :: Dist(input, commands[k]) == 0 ==> input in commands
  {
    forall k | 0 <= k < |commands| ensures Dist(input, commands[k]) == 0 <==> input == commands[k] {
      ZeroIffEqual(input, commands[k]);
    }
  }
}
