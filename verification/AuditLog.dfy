/**
  The audit log: a ring of entries, each carrying the hash of its predecessor.
 */
module AuditLogs {
  import opened Wrappers
  import opened Fnv
  import Rings

  const AUDIT_RING_SIZE: nat := 8192
  const GENESIS: Word := 0xCAFE_BABE_DEAD_BEEF

  datatype AuditEvent =
    | CapGranted | CapRevoked | CapDelegated | CapCheckFail | CapExpired
    | AgentSpawned | AgentKilled | AgentTimeout | AgentOverBudget
    | EscalationAttempt | KernelBoot

  function EventCode(e: AuditEvent): nat {
    match e
    case CapGranted => 0x01
    case CapRevoked => 0x02
    case CapDelegated => 0x03
    case CapCheckFail => 0x05
    case CapExpired => 0x06
    case AgentSpawned => 0x10
    case AgentKilled => 0x11
    case AgentTimeout => 0x12
    case AgentOverBudget => 0x13
    case EscalationAttempt => 0x100
    case KernelBoot => 0x1000
  }

  datatype AuditEntry = AuditEntry(
    tick: nat, agent: nat, event: AuditEvent, capHandle: nat, result: int, prevHash: Word)

  // ----- What is hashed -----

  /** The `n` low bytes of a number, least significant first. */
  function LittleEndian(n: nat, x: nat): (r: seq<Byte>)
    ensures |r| == n
  {
    if n == 0 then [] else [x % 256] + LittleEndian(n - 1, x / 256)
  }

  function Pow256(n: nat): nat {
    if n == 0 then 1 else 256 * Pow256(n - 1)
  }

  /** The number a string of bytes stands for, least significant byte first. */
  function Decoded(bytes: seq<Byte>): nat {
    if bytes == [] then 0 else bytes[0] + 256 * Decoded(bytes[1..])
  }

  lemma {:induction false} LittleEndianDecodes(n: nat, x: nat)
    requires x < Pow256(n)
    ensures Decoded(LittleEndian(n, x)) == x
  {
    if n > 0 {
      assert LittleEndian(n, x)[1..] == LittleEndian(n - 1, x / 256);
      LittleEndianDecodes(n - 1, x / 256);
    }
  }

  /** The 22 bytes an entry's hash covers.  The capability handle and the result are not among them. */
  function HashedBytes(e: AuditEntry): (r: seq<Byte>)
    ensures |r| == 22
  {
    LittleEndian(8, e.tick) + LittleEndian(4, e.agent) + LittleEndian(2, EventCode(e.event)) +
    LittleEndian(8, e.prevHash)
  }

  function Hash(e: AuditEntry): Word {
    Fold(OFFSET_BASIS, HashedBytes(e))
  }

  predicate MachineSized(e: AuditEntry) {
    e.tick < 0x1_0000_0000_0000_0000 && e.agent < 0x1_0000_0000
  }

  predicate SameHashedFields(e: AuditEntry, f: AuditEntry) {
    e.tick == f.tick && e.agent == f.agent && e.event == f.event && e.prevHash == f.prevHash
  }

  lemma PowersOf256()
    ensures Pow256(2) == 0x1_0000 && Pow256(4) == 0x1_0000_0000 && Pow256(8) == 0x1_0000_0000_0000_0000
  {
    assert Pow256(3) == 0x100_0000;
    assert Pow256(6) == 0x1_0000_0000_0000;
  }

  lemma FourParts(a: seq<Byte>, b: seq<Byte>, c: seq<Byte>, d: seq<Byte>)
    requires |a| == |d| == 8 && |b| == 4 && |c| == 2
    ensures
      var s := a + b + c + d;
      |s| == 22 && s[0..8] == a && s[8..12] == b && s[12..14] == c && s[14..22] == d
  {
  }

  /** Where each field stands among the 22 bytes, and that it can be read back from there. */
  lemma HashedBytesReadBack(e: AuditEntry)
    requires MachineSized(e)
    ensures
      var bytes := HashedBytes(e);
      && Decoded(bytes[0..8]) == e.tick && Decoded(bytes[8..12]) == e.agent
      && Decoded(bytes[12..14]) == EventCode(e.event) && Decoded(bytes[14..22]) == e.prevHash
  {
    PowersOf256();
    FourParts(LittleEndian(8, e.tick), LittleEndian(4, e.agent), LittleEndian(2, EventCode(e.event)),
              LittleEndian(8, e.prevHash));
    LittleEndianDecodes(8, e.tick);
    LittleEndianDecodes(4, e.agent);
    LittleEndianDecodes(2, EventCode(e.event));
    LittleEndianDecodes(8, e.prevHash);
  }

  /** The 22 bytes determine the four fields they are made from. */
  lemma HashedBytesDetermineFields(e: AuditEntry, f: AuditEntry)
    requires MachineSized(e) && MachineSized(f)
    ensures HashedBytes(e) == HashedBytes(f) <==> SameHashedFields(e, f)
  {
    HashedBytesReadBack(e);
    HashedBytesReadBack(f);
  }

  /** The hash as the kernel computes it: four loops over the little-endian bytes of the fields. */
  method Fnv1a(e: AuditEntry) returns (h: Word)
    ensures h == Fold(OFFSET_BASIS, HashedBytes(e))
  {
    h := FoldBytes(OFFSET_BASIS, LittleEndian(8, e.tick));
    FoldConcat(OFFSET_BASIS, LittleEndian(8, e.tick), LittleEndian(4, e.agent));
    h := FoldBytes(h, LittleEndian(4, e.agent));
    FoldConcat(OFFSET_BASIS, LittleEndian(8, e.tick) + LittleEndian(4, e.agent), LittleEndian(2, EventCode(e.event)));
    h := FoldBytes(h, LittleEndian(2, EventCode(e.event)));
    FoldConcat(OFFSET_BASIS, LittleEndian(8, e.tick) + LittleEndian(4, e.agent) + LittleEndian(2, EventCode(e.event)),
               LittleEndian(8, e.prevHash));
    h := FoldBytes(h, LittleEndian(8, e.prevHash));
  }

  method FoldBytes(start: Word, bytes: seq<Byte>) returns (h: Word)
    ensures h == Fold(start, bytes)
  {
    h := start;
    for i := 0 to |bytes|
      invariant h == Fold(start, bytes[..i])
    {
      assert bytes[..i + 1] == bytes[..i] + [bytes[i]];
      FoldOne(start, bytes[..i], bytes[i]);
      h := Step(h, bytes[i]);
    }
    assert bytes[..|bytes|] == bytes;
  }

  // ----- The chain -----

  function LastHash(history: seq<AuditEntry>): Word {
    if history == [] then GENESIS else Hash(history[|history| - 1])
  }

  function Append(history: seq<AuditEntry>, tick: nat, agent: nat, event: AuditEvent, cap: nat, result: int)
    : seq<AuditEntry>
  {
    history + [AuditEntry(tick, agent, event, cap, result, LastHash(history))]
  }

  /** Every entry carries the hash of the one before it. */
  ghost predicate Chained(history: seq<AuditEntry>) {
    forall k | 0 <= k < |history| :: CarriesPredecessor(history, k)
  }

  ghost predicate CarriesPredecessor(history: seq<AuditEntry>, k: nat)
    requires k < |history|
  {
    history[k].prevHash == LastHash(history[..k])
  }

  /** What an auditor can check of a retained stretch of the log: each entry against the link that follows it. */
  ghost predicate Intact(w: seq<AuditEntry>, last: Word) {
    forall k | 0 <= k < |w| :: LinkHolds(w, last, k)
  }

  ghost predicate LinkHolds(w: seq<AuditEntry>, last: Word, k: nat)
    requires k < |w|
  {
    Hash(w[k]) == LinkAfter(w, last, k)
  }

  ghost function LinkAfter(w: seq<AuditEntry>, last: Word, k: nat): Word
    requires k < |w|
  {
    if k + 1 < |w| then w[k + 1].prevHash else last
  }

  lemma AppendKeepsChain(history: seq<AuditEntry>, tick: nat, agent: nat, event: AuditEvent, cap: nat, result: int)
    requires Chained(history)
    ensures Chained(Append(history, tick, agent, event, cap, result))
  {
    var h := Append(history, tick, agent, event, cap, result);
    forall k | 0 <= k < |h| ensures CarriesPredecessor(h, k) {
      assert h[..k] == history[..k];
      if k == |history| {
        assert history[..k] == history;
      } else {
        assert CarriesPredecessor(history, k);
      }
    }
  }

  /** Whatever suffix of a chained log is retained, it is intact against the stored last hash. */
  lemma RetainedIsIntact(history: seq<AuditEntry>, from: nat)
    requires Chained(history) && from <= |history|
    ensures Intact(history[from..], LastHash(history))
  {
    var w := history[from..];
    forall k | 0 <= k < |w| ensures LinkHolds(w, LastHash(history), k) {
      if k + 1 < |w| {
        assert CarriesPredecessor(history, from + k + 1);
      }
    }
  }

  /**
    Overwriting one retained entry goes unnoticed iff the new entry has the old hash and, unless it is
    the oldest one, the old link.
   */
  lemma WhenTamperingPasses(w: seq<AuditEntry>, last: Word, k: nat, e: AuditEntry)
    requires Intact(w, last) && k < |w|
    ensures Intact(w[k := e], last) <==> Hash(e) == Hash(w[k]) && (k > 0 ==> e.prevHash == w[k].prevHash)
  {
    var t := w[k := e];
    assert LinkHolds(w, last, k) && LinkAfter(t, last, k) == LinkAfter(w, last, k);
    if Intact(t, last) {
      assert LinkHolds(t, last, k);
      if k > 0 {
        assert LinkHolds(t, last, k - 1);
        assert LinkHolds(w, last, k - 1);
      }
    }
    if Hash(e) == Hash(w[k]) && (k > 0 ==> e.prevHash == w[k].prevHash) {
      forall i | 0 <= i < |t| ensures LinkHolds(t, last, i) {
        assert LinkHolds(w, last, i);
      }
    }
  }

  /** Changing one hashed byte, or two adjacent ones, of any retained entry breaks the link that follows it. */
  lemma ByteTamperingIsDetected(w: seq<AuditEntry>, last: Word, k: nat, e: AuditEntry,
                                before: seq<Byte>, was: seq<Byte>, now: seq<Byte>, after: seq<Byte>)
    requires Intact(w, last) && k < |w|
    requires HashedBytes(w[k]) == before + was + after && HashedBytes(e) == before + now + after
    requires |was| == |now| && 1 <= |was| <= 2 && was != now
    ensures !LinkHolds(w[k := e], last, k) && !Intact(w[k := e], last)
  {
    if |was| == 1 {
      assert was == [was[0]] && now == [now[0]];
      OneByteChanges(OFFSET_BASIS, before, was[0], now[0], after);
    } else {
      assert was == [was[0], was[1]] && now == [now[0], now[1]];
      TwoBytesChange(OFFSET_BASIS, before, was[0], was[1], now[0], now[1], after);
    }
    assert LinkHolds(w, last, k) && w[k := e][k] == e;
    assert LinkAfter(w[k := e], last, k) == LinkAfter(w, last, k);
  }

  /** The blind spot: the handle and the result of any retained entry can change without breaking a link. */
  lemma HandleAndResultAreNotCovered(w: seq<AuditEntry>, last: Word, k: nat, cap: nat, result: int)
    requires Intact(w, last) && k < |w|
    ensures Intact(w[k := w[k].(capHandle := cap, result := result)], last)
  {
    WhenTamperingPasses(w, last, k, w[k].(capHandle := cap, result := result));
  }

  ghost predicate Collision(e: AuditEntry, f: AuditEntry) {
    HashedBytes(e) != HashedBytes(f) && Hash(e) == Hash(f)
  }

  /**
    Rewriting any number of entries: two intact stretches of equal length ending in the same hash
    agree in every hashed field, or exhibit a collision of the hash.
   */
  lemma {:induction false} AgreeOrCollide(w: seq<AuditEntry>, v: seq<AuditEntry>, last: Word)
    requires Intact(w, last) && Intact(v, last) && |w| == |v|
    requires forall k | 0 <= k < |w| :: MachineSized(w[k]) && MachineSized(v[k])
    ensures (forall k | 0 <= k < |w| :: SameHashedFields(w[k], v[k])) ||
            (exists k :: 0 <= k < |w| && Collision(w[k], v[k]))
  {
    if w != [] {
      var n := |w| - 1;
      assert LinkHolds(w, last, n) && LinkHolds(v, last, n);
      if Collision(w[n], v[n]) {
        return;
      }
      HashedBytesDetermineFields(w[n], v[n]);
      DropLast(w, last);
      DropLast(v, last);
      AgreeOrCollide(w[..n], v[..n], w[n].prevHash);
      if exists k :: 0 <= k < n && Collision(w[..n][k], v[..n][k]) {
        var k :| 0 <= k < n && Collision(w[..n][k], v[..n][k]);
        assert Collision(w[k], v[k]);
      } else {
        forall k | 0 <= k < |w| ensures SameHashedFields(w[k], v[k]) {
          if k < n { assert SameHashedFields(w[..n][k], v[..n][k]); }
        }
      }
    }
  }

  lemma DropLast(w: seq<AuditEntry>, last: Word)
    requires w != [] && Intact(w, last)
    ensures Intact(w[..|w| - 1], w[|w| - 1].prevHash)
  {
    var init, link := w[..|w| - 1], w[|w| - 1].prevHash;
    forall k | 0 <= k < |init| ensures LinkHolds(init, link, k) {
      assert LinkHolds(w, last, k);
    }
  }

  // ----- The ring -----

  class AuditLog {
    const entries: array<Option<AuditEntry>>
    var head: nat
    var total: nat
    var lastHash: Word
    ghost var history: seq<AuditEntry>  // every entry ever recorded

    /** The ring holds the latest entries of the history. */
    ghost predicate RingValid()
      reads this, entries
    {
      && entries.Length == AUDIT_RING_SIZE
      && total == |history|
      && head == total % AUDIT_RING_SIZE
      && Rings.Holds(entries[..], Wrapped(history))
    }

    ghost predicate Valid()
      reads this, entries
    {
      RingValid() && lastHash == LastHash(history) && Chained(history)
    }

    constructor ()
      ensures Valid() && history == [] && fresh(entries)
      ensures entries.Length == 8192 && lastHash == 0xCAFE_BABE_DEAD_BEEF
    {
      entries := new Option<AuditEntry>[AUDIT_RING_SIZE](_ => None);
      head, total, lastHash := 0, 0, GENESIS;
      history := [];
    }

    method Store(entry: AuditEntry)
      requires RingValid()
      modifies this`head, this`total, this`history, entries
      ensures RingValid() && history == old(history) + [entry]
    {
      ghost var slots := entries[..];
      Rings.Push(slots, Wrapped(history), Some(entry));
      entries[head] := Some(entry);
      assert entries[..] == slots[head := Some(entry)];
      assert Wrapped(history) + [Some(entry)] == Wrapped(history + [entry]);
      head := (head + 1) % AUDIT_RING_SIZE;
      total := total + 1;
      history := history + [entry];
    }

    method Record(tick: nat, agent: nat, event: AuditEvent, cap: nat, result: int)
      requires Valid()
      modifies this, entries
      ensures Valid() && history == Append(old(history), tick, agent, event, cap, result)
    {
      var entry := AuditEntry(tick, agent, event, cap, result, lastHash);
      AppendKeepsChain(history, tick, agent, event, cap, result);
      lastHash := Fnv1a(entry);
      Store(entry);
    }

    method TotalEvents() returns (n: nat)
      requires Valid()
      ensures n == |history|
    {
      n := total;
    }
  }

  ghost function Wrapped<T>(items: seq<T>): (r: seq<Option<T>>)
    ensures |r| == |items| && forall k | 0 <= k < |items| :: r[k] == Some(items[k])
  {
    seq(|items|, k requires 0 <= k < |items| => Some(items[k]))
  }
}
