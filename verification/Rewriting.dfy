/**
  Re-execution of lines, apart from what lines look like.

  The kernel's `execute` calls itself with no bound of its own; its real limit is the stack.  Here the
  stack is a number of nested calls it may still make, and running out of it is the outcome Overflow.
 */
module Rewriting {
  import opened Wrappers

  const REPEAT: string := "!!"

  /** What a line is rewritten to, if it is; what the history keeps of it; and how a history line is read back. */
  datatype Rules = Rules(next: string -> Option<string>, keep: string -> seq<string>, clean: string -> string)

  datatype Outcome = Nothing | NoPrevious | Dispatched(line: string) | Overflow

  /** The outcome of a line and the history it leaves. */
  function Perform(r: Rules, log: seq<string>, line: string, depth: nat): (Outcome, seq<string>)
    decreases depth
  {
    if line == "" then (Nothing, log)
    else if line == REPEAT then
      if log == [] then (NoPrevious, log)
      else if depth == 0 then (Overflow, log)
      else Perform(r, log, r.clean(log[|log| - 1]), depth - 1)
    else
      match r.next(line)
      case None => (Dispatched(line), log + r.keep(line))
      case Some(l) => if depth == 0 then (Overflow, log + r.keep(line)) else Perform(r, log + r.keep(line), l, depth - 1)
  }

  // ----- Chains -----

  /** The line is rewritten. */
  predicate Open(r: Rules, line: string) {
    line != "" && line != REPEAT && r.next(line).Some?
  }

  /** The line reached after `k` rewritings, or the one the chain has ended in. */
  function At(r: Rules, line: string, k: nat): string {
    if k == 0 then line else
      var l := At(r, line, k - 1);
      if Open(r, l) then r.next(l).value else l
  }

  ghost predicate OpenAt(r: Rules, line: string, k: nat) {
    Open(r, At(r, line, k))
  }

  /** The first `n` lines of the chain are all rewritten. */
  ghost predicate OpenUpTo(r: Rules, line: string, n: nat) {
    forall k: nat | k < n :: OpenAt(r, line, k)
  }

  /** The history after the first `n` lines of the chain. */
  function LogAlong(r: Rules, log: seq<string>, line: string, n: nat): seq<string> {
    if n == 0 then log else LogAlong(r, log, line, n - 1) + r.keep(At(r, line, n - 1))
  }

  /** Each rewriting costs one nested call and records its line; after `n` of them the chain's `n`-th line is executed. */
  lemma {:induction false} PerformAlong(r: Rules, log: seq<string>, line: string, n: nat, depth: nat)
    requires OpenUpTo(r, line, n)
    ensures Perform(r, log, line, depth) ==
      if depth < n then (Overflow, LogAlong(r, log, line, depth + 1))
      else Perform(r, LogAlong(r, log, line, n), At(r, line, n), depth - n)
  {
    if n > 0 {
      PerformAlong(r, log, line, n - 1, depth);
      assert OpenAt(r, line, n - 1);
    }
  }

  lemma EndlessOverflows(r: Rules, log: seq<string>, line: string, depth: nat)
    requires OpenUpTo(r, line, depth + 1)
    ensures Perform(r, log, line, depth).0 == Overflow
  {
    PerformAlong(r, log, line, depth + 1, depth);
  }

  lemma EndIsDispatched(r: Rules, log: seq<string>, line: string, n: nat, depth: nat)
    requires OpenUpTo(r, line, n) && !OpenAt(r, line, n) && At(r, line, n) != REPEAT && At(r, line, n) != ""
    ensures Perform(r, log, line, depth) ==
      if depth < n then (Overflow, LogAlong(r, log, line, depth + 1))
      else (Dispatched(At(r, line, n)), LogAlong(r, log, line, n + 1))
  {
    PerformAlong(r, log, line, n, depth);
  }

  /** How many lines a chain rewrites, when that is less than `bound`. */
  ghost function ChainLength(r: Rules, line: string, bound: nat): (n: nat)
    requires !OpenUpTo(r, line, bound)
    ensures n < bound && OpenUpTo(r, line, n) && !OpenAt(r, line, n)
  {
    if OpenUpTo(r, line, bound - 1) then
      assert !OpenAt(r, line, bound - 1);
      bound - 1
    else ChainLength(r, line, bound - 1)
  }

  lemma AtShifts(r: Rules, line: string, k: nat)
    requires OpenAt(r, line, k)
    ensures r.next(At(r, line, k)) == Some(At(r, line, k + 1))
  {
  }

  // ----- The history repeat -----

  /**
    `!!` by itself: refused when the history is empty, and otherwise the last history line executed
    with one nested call fewer.  A last line that itself reads as `!!` repeats itself until the stack
    is gone.
   */
  lemma {:induction false} RepeatAlone(r: Rules, log: seq<string>, depth: nat)
    ensures Perform(r, log, REPEAT, depth) ==
      if log == [] then (NoPrevious, log)
      else if depth == 0 || r.clean(log[|log| - 1]) == REPEAT then (Overflow, log)
      else Perform(r, log, r.clean(log[|log| - 1]), depth - 1)
  {
    if log != [] && depth > 0 && r.clean(log[|log| - 1]) == REPEAT {
      RepeatAlone(r, log, depth - 1);
    }
  }

  /** A recorded line that is rewritten to `!!` is itself the last history line by then. */
  lemma {:induction false} RecordedRepeatNeverStops(r: Rules, log: seq<string>, w: string, depth: nat)
    requires Open(r, w) && r.keep(w) == [w] && r.clean(w) == w && r.next(w) == Some(REPEAT)
    ensures Perform(r, log, w, depth).0 == Overflow
    decreases depth
  {
    if depth > 0 {
      RepeatAlone(r, log + [w], depth - 1);
      if depth > 1 {
        RecordedRepeatNeverStops(r, log + [w], w, depth - 2);
      }
    }
  }

  /** So is a recorded line that is rewritten to an unrecorded one which is rewritten to `!!`. */
  lemma {:induction false} RepeatThroughUnrecorded(r: Rules, log: seq<string>, w: string, v: string, depth: nat)
    requires Open(r, w) && r.keep(w) == [w] && r.clean(w) == w && r.next(w) == Some(v)
    requires Open(r, v) && r.keep(v) == [] && r.next(v) == Some(REPEAT)
    ensures Perform(r, log, w, depth).0 == Overflow
    decreases depth
  {
    if depth > 1 {
      var log' := log + [w];
      assert log' + r.keep(v) == log';
      assert Perform(r, log, w, depth) == Perform(r, log', v, depth - 1) == Perform(r, log', REPEAT, depth - 2);
      RepeatAlone(r, log', depth - 2);
      if depth > 2 {
        RepeatThroughUnrecorded(r, log', w, v, depth - 3);
      }
    }
  }

  /** Execution only appends to the history, and never records what the rules never keep. */
  lemma {:induction false} HistoryGrows(r: Rules, log: seq<string>, line: string, depth: nat, banned: string)
    requires banned !in log && forall l :: l != REPEAT ==> banned !in r.keep(l)
    ensures log <= Perform(r, log, line, depth).1 && banned !in Perform(r, log, line, depth).1
    decreases depth
  {
    if line == REPEAT {
      if log != [] && depth > 0 {
        HistoryGrows(r, log, r.clean(log[|log| - 1]), depth - 1, banned);
      }
    } else if line != "" {
      var log' := log + r.keep(line);
      assert log <= log' && banned !in log';
      if r.next(line).Some? && depth > 0 {
        HistoryGrows(r, log', r.next(line).value, depth - 1, banned);
      }
    }
  }
}
