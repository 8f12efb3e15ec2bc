/**
  Chains of rewritten lines, as far as first words decide them.

  A chain goes on while its line is not `!!` and its first word is a name in a finite table.  It then
  ends in a dispatch or in a repeat of the history, or it never ends.
 */
module Chains {
  import opened Wrappers
  import opened Rewriting
  import opened Text

  /**
    How lines are read: the names that are rewritten and the word each leads to, the first word and the
    arguments of a line, which strings are lines, and the one name whose use the history does not keep.
   */
  datatype Reading = Reading(names: set<string>, lead: string -> string, word: string -> string,
                             args: string -> string, line: string -> bool, silent: string)

  /** The rules treat this line by its first word, and only ever put arguments in front of those it has. */
  predicate Law(r: Rules, v: Reading, l: string) {
    v.line(l) ==>
      && l != ""
      && (r.next(l).Some? <==> v.word(l) in v.names)
      && (v.args(l) == "" ==> l == v.word(l))
      && (r.next(l).Some? ==>
            var next := r.next(l).value;
            && v.line(next) && v.word(next) == v.lead(v.word(l)) && EndsWith(v.args(next), v.args(l))
            && (v.args(l) == "" ==> r.clean(l) == l && r.keep(l) == if l == v.silent then [] else [l]))
  }

  ghost predicate Lawful(r: Rules, v: Reading) {
    && v.line(REPEAT) && v.word(REPEAT) == REPEAT && v.args(REPEAT) == ""
    && forall l :: Law(r, v, l)
  }

  // ----- Lines of a chain -----

  lemma {:induction false} AtIsLine(r: Rules, v: Reading, line: string, k: nat)
    requires Lawful(r, v) && v.line(line)
    ensures v.line(At(r, line, k))
  {
    if k > 0 {
      AtIsLine(r, v, line, k - 1);
      assert Law(r, v, At(r, line, k - 1));
    }
  }

  /** Arguments are only ever added to, in front. */
  lemma {:induction false} ArgumentsAlong(r: Rules, v: Reading, line: string, j: nat, k: nat)
    requires Lawful(r, v) && v.line(line) && j <= k
    ensures EndsWith(v.args(At(r, line, k)), v.args(At(r, line, j)))
  {
    if j == k {
      EndsWithItself(v.args(At(r, line, j)));
    } else {
      var l := At(r, line, k - 1);
      ArgumentsAlong(r, v, line, j, k - 1);
      AtIsLine(r, v, line, k - 1);
      assert Law(r, v, l);
      if Open(r, l) {
        EndingsCompose(v.args(At(r, line, k)), v.args(l), v.args(At(r, line, j)));
      }
    }
  }

  // ----- The chain of first words -----

  /** The word `w` leads to after `k` expansions. */
  function Word(v: Reading, w: string, k: nat): string {
    if k == 0 then w else v.lead(Word(v, w, k - 1))
  }

  lemma {:induction false} WordSplits(v: Reading, w: string, a: nat, b: nat)
    ensures Word(v, Word(v, w, a), b) == Word(v, w, a + b)
  {
    if b > 0 {
      WordSplits(v, w, a, b - 1);
    }
  }

  ghost predicate Continues(v: Reading, w: string, k: nat) {
    Word(v, w, k) in v.names
  }

  /** The first `n` words of the chain are names in the table. */
  ghost predicate Unfolds(v: Reading, w: string, n: nat) {
    forall k: nat | k < n :: Continues(v, w, k)
  }

  /** The first word of each line depends on the first word of the line before alone. */
  lemma {:induction false} WordAlong(r: Rules, v: Reading, line: string, k: nat)
    requires Lawful(r, v) && v.line(line) && OpenUpTo(r, line, k)
    ensures v.word(At(r, line, k)) == Word(v, v.word(line), k)
  {
    if k > 0 {
      WordAlong(r, v, line, k - 1);
      assert OpenAt(r, line, k - 1);
      AtIsLine(r, v, line, k - 1);
      assert Law(r, v, At(r, line, k - 1));
    }
  }

  lemma OpenChainUnfolds(r: Rules, v: Reading, line: string, n: nat)
    requires Lawful(r, v) && v.line(line) && OpenUpTo(r, line, n)
    ensures Unfolds(v, v.word(line), n)
  {
    forall k: nat | k < n ensures Continues(v, v.word(line), k) {
      assert OpenUpTo(r, line, k) && OpenAt(r, line, k);
      WordAlong(r, v, line, k);
      AtIsLine(r, v, line, k);
      assert Law(r, v, At(r, line, k));
    }
  }

  // ----- Pigeonhole -----

  ghost function Words(v: Reading, w: string, n: nat): (r: seq<string>)
    ensures |r| == n && forall k | 0 <= k < n :: r[k] == Word(v, w, k)
  {
    seq(n, k requires 0 <= k < n => Word(v, w, k))
  }

  lemma {:induction false} Pigeonhole(ws: seq<string>, names: set<string>) returns (i: nat, j: nat)
    requires |ws| > |names| && forall k | 0 <= k < |ws| :: ws[k] in names
    ensures i < j < |ws| && ws[i] == ws[j]
    decreases |ws|
  {
    var n := |ws| - 1;
    if exists k :: 0 <= k < n && ws[k] == ws[n] {
      i :| 0 <= i < n && ws[i] == ws[n];
      j := n;
    } else {
      i, j := Pigeonhole(ws[..n], names - {ws[n]});
    }
  }

  lemma RepeatedWord(v: Reading, w: string) returns (i: nat, j: nat)
    requires Unfolds(v, w, |v.names| + 1)
    ensures i < j <= |v.names| && Word(v, w, i) == Word(v, w, j)
  {
    forall k: nat | k <= |v.names| ensures Word(v, w, k) in v.names { assert Continues(v, w, k); }
    i, j := Pigeonhole(Words(v, w, |v.names| + 1), v.names);
  }

  /** Once a word repeats, every later word is one of those before the repetition. */
  lemma {:induction false} WordsComeBack(v: Reading, w: string, i: nat, j: nat, k: nat) returns (m: nat)
    requires i < j && Word(v, w, i) == Word(v, w, j)
    ensures m < j && m <= k && Word(v, w, m) == Word(v, w, k)
    decreases k
  {
    if k < j {
      m := k;
    } else {
      WordSplits(v, w, i, k - j);
      WordSplits(v, w, j, k - j);
      m := WordsComeBack(v, w, i, j, i + (k - j));
    }
  }

  // ----- Chains that do not stop -----

  /** A line under the word `!!` whose arguments are an ending of none is the bare `!!`. */
  lemma BareEarlier(r: Rules, v: Reading, earlier: string)
    requires Lawful(r, v) && v.line(earlier) && v.word(earlier) == REPEAT
    requires EndsWith(v.args(REPEAT), v.args(earlier))
    ensures earlier == REPEAT
  {
    assert Law(r, v, earlier);
  }

  /** Once a chain has gone past as many lines as there are names, it goes on. */
  lemma NoLateEnd(r: Rules, v: Reading, line: string, k: nat)
    requires Lawful(r, v) && v.line(line)
    requires OpenUpTo(r, line, |v.names| + 1) && OpenUpTo(r, line, k)
    ensures OpenAt(r, line, k)
  {
    var w := v.word(line);
    OpenChainUnfolds(r, v, line, |v.names| + 1);
    var i, j := RepeatedWord(v, w);
    var m := WordsComeBack(v, w, i, j, k);
    assert OpenUpTo(r, line, m) && OpenAt(r, line, m);
    SameWord(r, v, line, m, k);
  }

  lemma SameWord(r: Rules, v: Reading, line: string, m: nat, k: nat)
    requires Lawful(r, v) && v.line(line) && m <= k && OpenUpTo(r, line, m) && OpenUpTo(r, line, k)
    requires OpenAt(r, line, m) && Word(v, v.word(line), m) == Word(v, v.word(line), k)
    ensures OpenAt(r, line, k)
  {
    var early, late := At(r, line, m), At(r, line, k);
    WordAlong(r, v, line, m);
    WordAlong(r, v, line, k);
    AtIsLine(r, v, line, m);
    AtIsLine(r, v, line, k);
    assert Law(r, v, early) && Law(r, v, late);
    if late == REPEAT {
      ArgumentsAlong(r, v, line, m, k);
      BareEarlier(r, v, early);
    }
  }

  /** A chain longer than the number of names has no end. */
  lemma {:induction false} LongChainNeverStops(r: Rules, v: Reading, line: string, n: nat)
    requires Lawful(r, v) && v.line(line) && OpenUpTo(r, line, |v.names| + 1)
    ensures OpenUpTo(r, line, n)
  {
    if n > 0 {
      LongChainNeverStops(r, v, line, n - 1);
      NoLateEnd(r, v, line, n - 1);
    }
  }

  /** No name leads back to itself. */
  ghost predicate Acyclic(v: Reading) {
    forall w, k: nat | w in v.names && k > 0 && Unfolds(v, w, k) :: Word(v, w, k) != w
  }

  lemma LongChainHasLoop(v: Reading, w: string) returns (u: string, k: nat)
    requires Unfolds(v, w, |v.names| + 1)
    ensures u in v.names && k > 0 && Unfolds(v, u, k) && Word(v, u, k) == u
  {
    var i, j := RepeatedWord(v, w);
    u, k := Word(v, w, i), j - i;
    forall m: nat | m < k ensures Continues(v, u, m) {
      WordSplits(v, w, i, m);
      assert Continues(v, w, i + m);
    }
    WordSplits(v, w, i, k);
    assert Continues(v, w, i);
  }

  /** In an acyclic table no chain is longer than the number of names. */
  lemma AcyclicChainsStop(r: Rules, v: Reading, line: string)
    requires Acyclic(v) && Lawful(r, v) && v.line(line)
    ensures !OpenUpTo(r, line, |v.names| + 1)
  {
    if OpenUpTo(r, line, |v.names| + 1) {
      OpenChainUnfolds(r, v, line, |v.names| + 1);
      var u, k := LongChainHasLoop(v, v.word(line));
    }
  }

  // ----- Chains that end in a dispatch -----

  /**
    A chain that rewrites `n` lines and ends in a line that is neither `!!` nor under a name is
    dispatched after exactly `n` nested calls: that line carries the caller's arguments at its end,
    and the history has gained every recorded line of the chain.
   */
  lemma ChainIsDispatched(r: Rules, v: Reading, log: seq<string>, line: string, n: nat, depth: nat)
    requires Lawful(r, v) && v.line(line) && OpenUpTo(r, line, n)
    requires !OpenAt(r, line, n) && At(r, line, n) != REPEAT
    ensures Perform(r, log, line, depth) ==
      if depth < n then (Overflow, LogAlong(r, log, line, depth + 1))
      else (Dispatched(At(r, line, n)), LogAlong(r, log, line, n + 1))
    ensures v.word(At(r, line, n)) !in v.names && EndsWith(v.args(At(r, line, n)), v.args(line))
  {
    AtIsLine(r, v, line, n);
    assert Law(r, v, At(r, line, n));
    ArgumentsAlong(r, v, line, 0, n);
    EndIsDispatched(r, log, line, n, depth);
  }

  // ----- Chains that end in the history repeat -----

  /** On the way to the bare `!!` no line has arguments: each is just a name. */
  lemma BareBeforeRepeat(r: Rules, v: Reading, line: string, n: nat, k: nat)
    requires Lawful(r, v) && v.line(line) && k < n && OpenUpTo(r, line, n) && At(r, line, n) == REPEAT
    ensures
      var l := At(r, line, k);
      && Open(r, l) && r.next(l) == Some(At(r, line, k + 1))
      && l in v.names && r.clean(l) == l && r.keep(l) == if l == v.silent then [] else [l]
  {
    assert OpenAt(r, line, k);
    AtShifts(r, line, k);
    AtIsLine(r, v, line, k);
    ArgumentsAlong(r, v, line, k, n);
    assert Law(r, v, At(r, line, k));
  }

  /**
    A chain of `n` expansions that ends in the bare `!!` overflows every stack, with one exception:
    the unrecorded name by itself repeats the history line before it.
   */
  lemma ChainToRepeat(r: Rules, v: Reading, log: seq<string>, line: string, n: nat, depth: nat)
    requires Lawful(r, v) && v.line(line) && n >= 1 && OpenUpTo(r, line, n) && At(r, line, n) == REPEAT
    ensures
      if n == 1 && line == v.silent
      then Perform(r, log, line, depth) == if depth == 0 then (Overflow, log) else Perform(r, log, REPEAT, depth - 1)
      else Perform(r, log, line, depth).0 == Overflow
  {
    BareBeforeRepeat(r, v, line, n, n - 1);
    assert At(r, line, 0) == line;
    if n == 1 && line == v.silent {
      assert log + [] == log;
    } else if At(r, line, n - 1) != v.silent {
      RepeatAfter(r, log, line, n - 1, depth);
    } else {
      BareBeforeRepeat(r, v, line, n, n - 2);
      RepeatAfterUnrecorded(r, log, line, n - 2, depth);
    }
  }

  lemma RepeatAfter(r: Rules, log: seq<string>, line: string, n: nat, depth: nat)
    requires OpenUpTo(r, line, n)
    requires
      var w := At(r, line, n);
      Open(r, w) && r.keep(w) == [w] && r.clean(w) == w && r.next(w) == Some(REPEAT)
    ensures Perform(r, log, line, depth).0 == Overflow
  {
    PerformAlong(r, log, line, n, depth);
    if depth >= n {
      RecordedRepeatNeverStops(r, LogAlong(r, log, line, n), At(r, line, n), depth - n);
    }
  }

  lemma RepeatAfterUnrecorded(r: Rules, log: seq<string>, line: string, n: nat, depth: nat)
    requires OpenUpTo(r, line, n)
    requires
      var w, v := At(r, line, n), At(r, line, n + 1);
      && Open(r, w) && r.keep(w) == [w] && r.clean(w) == w && r.next(w) == Some(v)
      && Open(r, v) && r.keep(v) == [] && r.next(v) == Some(REPEAT)
    ensures Perform(r, log, line, depth).0 == Overflow
  {
    PerformAlong(r, log, line, n, depth);
    if depth >= n {
      RepeatThroughUnrecorded(r, LogAlong(r, log, line, n), At(r, line, n), At(r, line, n + 1), depth - n);
    }
  }

  // ----- The whole picture -----

  /**
    The outcome of every line.  Its chain stops within as many expansions as there are names, or
    never.  It exhausts every stack if it never stops, or if it stops at the bare `!!` after at least
    one expansion other than that of the unrecorded name by itself; it is dispatched if it stops
    elsewhere and the stack is as deep as the chain is long; what is left is `!!` itself.
   */
  lemma EveryChainIsDecided(r: Rules, v: Reading, log: seq<string>, line: string, depth: nat)
    requires Lawful(r, v) && v.line(line)
    ensures
      var o := Perform(r, log, line, depth);
      if OpenUpTo(r, line, |v.names| + 1) then o.0 == Overflow
      else
        var n := ChainLength(r, line, |v.names| + 1);
        var end := At(r, line, n);
        if end != REPEAT then
          && v.word(end) !in v.names && EndsWith(v.args(end), v.args(line))
          && o.0 == if depth < n then Overflow else Dispatched(end)
        else if n == 0 || (n == 1 && line == v.silent) then
          o == if depth < n then (Overflow, log) else Perform(r, log, REPEAT, depth - n)
        else o.0 == Overflow
  {
    if OpenUpTo(r, line, |v.names| + 1) {
      LongChainNeverStops(r, v, line, depth + 1);
      EndlessOverflows(r, log, line, depth);
    } else {
      var n := ChainLength(r, line, |v.names| + 1);
      if At(r, line, n) != REPEAT {
        ChainIsDispatched(r, v, log, line, n, depth);
      } else if n > 0 {
        ChainToRepeat(r, v, log, line, n, depth);
      }
    }
  }
}
