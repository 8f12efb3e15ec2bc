/**
  The shell's command history and the kernel message log: two rings read back through two different
  index formulas, both of which yield the latest items in chronological order.
 */
module Histories {
  import opened Wrappers
  import Rings

  const HISTORY_SIZE: nat := 32
  const MAX_LINE: nat := 127

  /** A line as the history keeps it. */
  function Kept(cmd: string): string {
    if |cmd| <= MAX_LINE then cmd else cmd[..MAX_LINE]
  }

  /** The listing number and text of each shown line; the last line is numbered with the count. */
  ghost function Listing(log: seq<string>, max: nat): seq<(nat, string)> {
    var count := Min(|log|, HISTORY_SIZE);
    var shown := Rings.LastItems(log, Min(max, HISTORY_SIZE));
    seq(|shown|, i requires 0 <= i < |shown| => (count - |shown| + i + 1, shown[i]))
  }

  /** A kept line is the longest beginning of the line that fits into 127 bytes. */
  lemma KeptIsBeginning(cmd: string)
    ensures Kept(cmd) <= cmd && |Kept(cmd)| == Min(|cmd|, 127)
  {
  }

  /**
    A listing shows as many lines as asked for and still held, ends with the latest, and numbers them
    consecutively so that the same line has the same number however many are shown.
   */
  lemma ListingIsNumbered(log: seq<string>, max: nat, i: nat)
    requires i < |Listing(log, max)|
    ensures |Listing(log, max)| == Min(max, Min(|log|, 32))
    ensures Listing(log, max)[|Listing(log, max)| - 1] == (Min(|log|, 32), log[|log| - 1])
    ensures
      var (number, line) := Listing(log, max)[i];
      && 1 <= number <= Min(|log|, 32) && line == log[|log| - Min(|log|, 32) + number - 1]
      && (i > 0 ==> number == Listing(log, max)[i - 1].0 + 1)
  {
  }

  /** The formula of `IterRecent` names the slot of the item it should. */
  lemma HistoryIndex(total: nat, show: nat, i: nat)
    requires i < show <= Min(total, HISTORY_SIZE)
    ensures
      var head := total % HISTORY_SIZE;
      (if head >= show - i then head - show + i else HISTORY_SIZE - (show - i - head)) == (total - show + i) % HISTORY_SIZE
  {
  }

  class History {
    const entries: array<string>
    var head: nat
    var count: nat
    ghost var log: seq<string>  // every line ever kept

    ghost predicate Valid()
      reads this, entries
    {
      && entries.Length == HISTORY_SIZE
      && count == Min(|log|, HISTORY_SIZE)
      && head == |log| % HISTORY_SIZE
      && Rings.Holds(entries[..], log)
    }

    constructor ()
      ensures Valid() && log == [] && fresh(entries)
    {
      entries := new string[HISTORY_SIZE](_ => "");
      head, count := 0, 0;
      log := [];
    }

    method Push(cmd: string)
      requires Valid()
      modifies this, entries
      ensures Valid() && log == old(log) + [Kept(cmd)]
    {
      ghost var slots := entries[..];
      Rings.Push(slots, log, Kept(cmd));
      entries[head] := Kept(cmd);
      assert entries[..] == slots[head := Kept(cmd)];
      head := (head + 1) % HISTORY_SIZE;
      if count < HISTORY_SIZE {
        count := count + 1;
      }
      log := log + [Kept(cmd)];
    }

    method Last() returns (r: Option<string>)
      requires Valid()
      ensures r == if log == [] then None else Some(log[|log| - 1])
    {
      if count == 0 {
        return None;
      }
      var idx := if head == 0 then HISTORY_SIZE - 1 else head - 1;
      assert idx == (|log| - 1) % HISTORY_SIZE;
      r := Some(entries[idx]);
    }

    method IterRecent(max: nat) returns (r: seq<(nat, string)>)
      requires Valid()
      ensures r == Listing(log, max)
    {
      r := [];
      var show := Min(max, count);
      ghost var total, listing := |log|, Listing(log, max);
      for i := 0 to show
        invariant r == listing[..i]
      {
        var idx := if head >= show - i then head - show + i else HISTORY_SIZE - (show - i - head);
        HistoryIndex(total, show, i);
        Rings.At(entries[..], log, total - show + i);
        assert listing[i] == (count - show + i + 1, log[total - show + i]);
        r := r + [(count - show + i + 1, entries[idx])];
      }
    }
  }
}

module Klogs {
  import opened Wrappers
  import Rings

  const LOG_SIZE: nat := 128
  const MSG_LEN: nat := 96

  datatype LogLevel = Boot | Info | Warn | Agent | Error

  datatype KlogEntry = KlogEntry(tick: nat, level: LogLevel, msg: string, valid: bool)

  function NewEntry(tick: nat, level: LogLevel, msg: string): KlogEntry {
    KlogEntry(tick, level, if |msg| <= MSG_LEN then msg else msg[..MSG_LEN], true)
  }

  /** What a reader of the log gets: the tick and level it was logged with, and the beginning of the message. */
  lemma EntryIsWhatWasLogged(tick: nat, level: LogLevel, msg: string)
    ensures
      var e := NewEntry(tick, level, msg);
      e.tick == tick && e.level == level && e.valid && e.msg <= msg && |e.msg| == Min(|msg|, 96)
  {
  }

  /** The formula of `Recent` names the slot of the item it should, before and after the ring has wrapped. */
  lemma KlogIndex(total: nat, count: nat, i: nat)
    requires i < count <= Min(total, LOG_SIZE)
    ensures
      var start := if total >= LOG_SIZE then (total % LOG_SIZE + LOG_SIZE - count) % LOG_SIZE else total - count;
      (start + i) % LOG_SIZE == (total - count + i) % LOG_SIZE
  {
    if total >= LOG_SIZE {
      StartSlot(total, count);
      OffsetSlot(total - count, i);
    }
  }

  lemma StartSlot(total: nat, count: nat)
    requires count <= LOG_SIZE <= total
    ensures (total % LOG_SIZE + LOG_SIZE - count) % LOG_SIZE == (total - count) % LOG_SIZE
  {
    var r, laps := total % LOG_SIZE, total / LOG_SIZE;
    assert total - count == r + LOG_SIZE - count + LOG_SIZE * (laps - 1);
    Laps(r + LOG_SIZE - count, laps - 1);
  }

  lemma OffsetSlot(m: nat, i: nat)
    ensures (m % LOG_SIZE + i) % LOG_SIZE == (m + i) % LOG_SIZE
  {
    assert m + i == m % LOG_SIZE + i + LOG_SIZE * (m / LOG_SIZE);
    Laps(m % LOG_SIZE + i, m / LOG_SIZE);
  }

  lemma Laps(a: nat, n: nat)
    ensures (a + LOG_SIZE * n) % LOG_SIZE == a % LOG_SIZE
  {
  }

  class Klog {
    const entries: array<KlogEntry>
    var head: nat
    var total: nat
    ghost var log: seq<KlogEntry>  // everything ever logged

    ghost predicate Valid()
      reads this, entries
    {
      && entries.Length == LOG_SIZE
      && total == |log|
      && head == total % LOG_SIZE
      && Rings.Holds(entries[..], log)
    }

    constructor ()
      ensures Valid() && log == [] && fresh(entries)
    {
      entries := new KlogEntry[LOG_SIZE](_ => KlogEntry(0, Info, "", false));
      head, total := 0, 0;
      log := [];
    }

    method Log(tick: nat, level: LogLevel, msg: string)
      requires Valid()
      modifies this, entries
      ensures Valid() && log == old(log) + [NewEntry(tick, level, msg)]
    {
      ghost var slots := entries[..];
      var entry := NewEntry(tick, level, msg);
      Rings.Push(slots, log, entry);
      entries[head] := entry;
      assert entries[..] == slots[head := entry];
      head := (head + 1) % LOG_SIZE;
      total := total + 1;
      log := log + [entry];
    }

    /** The latest entries, oldest of them first. */
    method Recent(n: nat) returns (r: seq<KlogEntry>)
      requires Valid()
      ensures r == Rings.LastItems(log, Min(n, 128))
    {
      var count := Min(Min(n, LOG_SIZE), total);
      var start := if total >= LOG_SIZE then (head + LOG_SIZE - count) % LOG_SIZE else total - count;
      r := [];
      for i := 0 to count
        invariant |r| == i && forall j | 0 <= j < i :: r[j] == log[total - count + j]
      {
        var idx := (start + i) % LOG_SIZE;
        KlogIndex(total, count, i);
        Rings.At(entries[..], log, total - count + i);
        r := r + [entries[idx]];
      }
      assert r == log[total - count..];
    }
  }
}
