/**
  64-bit FNV-1a (section 2, "FNV Basics", of draft-eastlake-fnv) over bytes, in modular arithmetic.

  One step exclusive-ors a byte into the low end of the hash and multiplies by the prime modulo 2^64.
  The prime is odd, so multiplication by its inverse undoes a step.
 */
module Fnv {
  import opened Wrappers

  const MODULUS: nat := 0x1_0000_0000_0000_0000
  const OFFSET_BASIS: nat := 0xcbf2_9ce4_8422_2325
  const PRIME: nat := 0x100_0000_01b3
  const PRIME_INVERSE: nat := 0xce96_5057_aff6_957b

  type Word = x: nat | x < MODULUS

  // ----- Exclusive or, bit by bit -----

  function Pow2(n: nat): nat {
    if n == 0 then 1 else 2 * Pow2(n - 1)
  }

  function XorBit(x: nat, y: nat): (bit: nat)
    ensures bit < 2
  {
    if x % 2 == y % 2 then 0 else 1
  }

  function XorBits(n: nat, x: nat, y: nat): (r: nat)
    ensures r < Pow2(n)
  {
    if n == 0 then 0 else XorBit(x, y) + 2 * XorBits(n - 1, x / 2, y / 2)
  }

  lemma {:induction false} XorUndoes(n: nat, x: nat, y: nat)
    requires x < Pow2(n)
    ensures XorBits(n, XorBits(n, x, y), y) == x
  {
    if n > 0 {
      var rest := XorBits(n - 1, x / 2, y / 2);
      XorUndoes(n - 1, x / 2, y / 2);
      OneBitUndoes(x, y, rest);
    }
  }

  lemma OneBitUndoes(x: nat, y: nat, rest: nat)
    ensures
      var r := XorBit(x, y) + 2 * rest;
      r / 2 == rest && XorBit(r, y) == x % 2
  {
  }

  /** Bit `k` of a number, the lowest first. */
  function Bit(x: nat, k: nat): nat {
    if k == 0 then x % 2 else Bit(x / 2, k - 1)
  }

  /** Each bit of the result is set iff the two bits in that place differ. */
  lemma {:induction false} XorIsExclusiveOr(n: nat, x: nat, y: nat, k: nat)
    ensures Bit(XorBits(n, x, y), k) == 1 <==> k < n && Bit(x, k) != Bit(y, k)
  {
    if n > 0 {
      HalfOfXor(n, x, y);
      if k > 0 {
        XorIsExclusiveOr(n - 1, x / 2, y / 2, k - 1);
      }
    } else {
      BitOfZero(k);
    }
  }

  lemma HalfOfXor(n: nat, x: nat, y: nat)
    requires n > 0
    ensures XorBits(n, x, y) / 2 == XorBits(n - 1, x / 2, y / 2)
    ensures XorBits(n, x, y) % 2 == 1 <==> x % 2 != y % 2
  {
  }

  lemma {:induction false} BitOfZero(k: nat)
    ensures Bit(0, k) == 0
  {
    if k > 0 {
      BitOfZero(k - 1);
    }
  }

  function Xor(x: Byte, y: Byte): Byte {
    assert Pow2(8) == 256;
    XorBits(8, x, y)
  }

  lemma XorIsInvertible(x: Byte, y: Byte)
    ensures Xor(Xor(x, y), y) == x
  {
    assert Pow2(8) == 256;
    XorUndoes(8, x, y);
  }

  // ----- One step -----

  /** Exclusive or with a byte leaves the upper 56 bits alone. */
  function XorLow(h: Word, b: Byte): Word {
    h - h % 256 + Xor(h % 256, b)
  }

  /** Of the whole word, exactly the bits of its low byte that the byte sets are flipped. */
  lemma XorLowFlips(h: Word, b: Byte, k: nat)
    ensures Bit(XorLow(h, b), k) == 1 <==> Bit(h, k) != Bit(b, k)
  {
    LowByte(h, Xor(h % 256, b));
    if k < 8 {
      BitOfLowByte(XorLow(h, b), k);
      BitOfLowByte(h, k);
      XorOfBytes(h % 256, b, k);
    } else {
      SameAbove(XorLow(h, b), h, k);
      BitAboveLowByte(b, k);
      BitOfZero(k - 8);
      BitIsBit(h, k);
    }
  }

  lemma XorOfBytes(x: Byte, y: Byte, k: nat)
    requires k < 8
    ensures Bit(Xor(x, y), k) == 1 <==> Bit(x, k) != Bit(y, k)
  {
    XorIsExclusiveOr(8, x, y, k);
  }

  lemma SameAbove(x: nat, y: nat, k: nat)
    requires k >= 8 && x - x % 256 == y - y % 256
    ensures Bit(x, k) == Bit(y, k)
  {
    BitAboveLowByte(x, k);
    BitAboveLowByte(y, k);
    assert x / 256 == y / 256;
  }

  lemma {:induction false} BitIsBit(x: nat, k: nat)
    ensures Bit(x, k) < 2
  {
    if k > 0 {
      BitIsBit(x / 2, k - 1);
    }
  }

  lemma TwoBitsDown(x: nat, k: nat)
    requires k >= 2
    ensures Bit(x, k) == Bit(x / 4, k - 2)
  {
    assert Bit(x, k) == Bit(x / 2, k - 1) == Bit(x / 2 / 2, k - 2);
  }

  lemma BitAboveLowByte(x: nat, k: nat)
    requires k >= 8
    ensures Bit(x, k) == Bit(x / 256, k - 8)
  {
    TwoBitsDown(x, k);
    TwoBitsDown(x / 4, k - 2);
    TwoBitsDown(x / 4 / 4, k - 4);
    TwoBitsDown(x / 4 / 4 / 4, k - 6);
    assert x / 4 / 4 / 4 / 4 == x / 256;
  }

  lemma {:induction false} BitOfSum(x: nat, m: nat, y: nat, k: nat)
    requires k < m
    ensures Bit(x + Pow2(m) * y, k) == Bit(x, k)
  {
    var rest := Pow2(m - 1) * y;
    assert Pow2(m) * y == 2 * rest;
    assert (x + 2 * rest) / 2 == x / 2 + rest && (x + 2 * rest) % 2 == x % 2;
    if k > 0 {
      BitOfSum(x / 2, m - 1, y, k - 1);
    }
  }

  lemma BitOfLowByte(x: nat, k: nat)
    requires k < 8
    ensures Bit(x, k) == Bit(x % 256, k)
  {
    assert Pow2(8) == 256;
    BitOfSum(x % 256, 8, x / 256, k);
  }

  function Step(h: Word, b: Byte): Word {
    (XorLow(h, b) * PRIME) % MODULUS
  }

  function Unstep(h: Word, b: Byte): Word {
    XorLow((h * PRIME_INVERSE) % MODULUS, b)
  }

  lemma LowByte(h: Word, r: Byte)
    ensures (h - h % 256 + r) % 256 == r && h - h % 256 + r < MODULUS
  {
  }

  lemma XorLowUndoes(h: Word, b: Byte)
    ensures XorLow(XorLow(h, b), b) == h
  {
    XorIsInvertible(h % 256, b);
    LowByte(h, Xor(h % 256, b));
  }

  lemma ModOfSum(x: Word, k: int)
    ensures (x + MODULUS * k) % MODULUS == x
  {
  }

  lemma PrimeIsInvertible(x: Word)
    ensures (((x * PRIME) % MODULUS) * PRIME_INVERSE) % MODULUS == x
  {
    var q := (x * PRIME) / MODULUS;
    var c := PRIME * PRIME_INVERSE / MODULUS;
    assert PRIME * PRIME_INVERSE == 1 + c * MODULUS;
    assert (x * PRIME - q * MODULUS) * PRIME_INVERSE == x + MODULUS * (c * x - q * PRIME_INVERSE);
    ModOfSum(x, c * x - q * PRIME_INVERSE);
  }

  lemma UnstepUndoesStep(h: Word, b: Byte)
    ensures Unstep(Step(h, b), b) == h
  {
    PrimeIsInvertible(XorLow(h, b));
    XorLowUndoes(h, b);
  }

  /** Different bytes folded into the same hash, or the same byte into different hashes, stay different. */
  lemma StepIsInjective(h: Word, b: Byte, h': Word, b': Byte)
    ensures Step(h, b) == Step(h', b') ==> (h == h' <==> b == b')
  {
    UnstepUndoesStep(h, b);
    UnstepUndoesStep(h', b');
    PrimeIsInvertible(XorLow(h, b));
    PrimeIsInvertible(XorLow(h', b'));
    if h == h' && XorLow(h, b) == XorLow(h', b') {
      SameXorSameByte(h % 256, b, b');
    }
  }

  lemma SameXorSameByte(x: Byte, b: Byte, b': Byte)
    requires Xor(x, b) == Xor(x, b')
    ensures b == b'
  {
    XorCommutes(8, x, b);
    XorCommutes(8, x, b');
    XorIsInvertible(b, x);
    XorIsInvertible(b', x);
  }

  lemma {:induction false} XorCommutes(n: nat, x: nat, y: nat)
    ensures XorBits(n, x, y) == XorBits(n, y, x)
  {
    if n > 0 {
      XorCommutes(n - 1, x / 2, y / 2);
    }
  }

  /**
    After two different bytes are folded into one hash, the results differ above the low byte:
    the prime spreads a low-byte difference past the reach of the next byte.
   */
  lemma DifferenceSpreads(h: Word, b: Byte, b': Byte)
    requires b != b'
    ensures Step(h, b) / 256 != Step(h, b') / 256
  {
    var x, y := XorLow(h, b), XorLow(h, b');
    if x == y {
      assert Xor(h % 256, b) == Xor(h % 256, b');
      SameXorSameByte(h % 256, b, b');
      assert false;
    }
    SpreadArithmetic(x, y);
  }

  lemma SpreadArithmetic(x: Word, y: Word)
    requires x != y && -256 < x - y < 256
    ensures ((x * PRIME) % MODULUS) / 256 != ((y * PRIME) % MODULUS) / 256
  {
    var j := x * PRIME / MODULUS - y * PRIME / MODULUS;
    var d := (x * PRIME) % MODULUS - (y * PRIME) % MODULUS;
    assert d == (x - y) * PRIME - j * MODULUS;
  }

  // ----- Folding a string of bytes -----

  function Fold(h: Word, bytes: seq<Byte>): Word {
    if bytes == [] then h else Step(Fold(h, bytes[..|bytes| - 1]), bytes[|bytes| - 1])
  }

  lemma {:induction false} FoldConcat(h: Word, a: seq<Byte>, b: seq<Byte>)
    ensures Fold(h, a + b) == Fold(Fold(h, a), b)
  {
    if b == [] {
      assert a + b == a;
    } else {
      FoldConcat(h, a, b[..|b| - 1]);
      assert (a + b)[..|a + b| - 1] == a + b[..|b| - 1];
    }
  }

  /** Folding the same bytes keeps different hashes different. */
  lemma {:induction false} FoldIsInjective(h: Word, h': Word, bytes: seq<Byte>)
    requires h != h'
    ensures Fold(h, bytes) != Fold(h', bytes)
  {
    if bytes != [] {
      var init, b := bytes[..|bytes| - 1], bytes[|bytes| - 1];
      FoldIsInjective(h, h', init);
      StepIsInjective(Fold(h, init), b, Fold(h', init), b);
    }
  }

  /** Changing one byte always changes the hash. */
  lemma OneByteChanges(h: Word, before: seq<Byte>, b: Byte, b': Byte, after: seq<Byte>)
    requires b != b'
    ensures Fold(h, before + [b] + after) != Fold(h, before + [b'] + after)
  {
    var m := Fold(h, before);
    FoldByte(h, before, b, after);
    FoldByte(h, before, b', after);
    StepIsInjective(m, b, m, b');
    FoldIsInjective(Step(m, b), Step(m, b'), after);
  }

  lemma FoldByte(h: Word, before: seq<Byte>, b: Byte, after: seq<Byte>)
    ensures Fold(h, before + [b] + after) == Fold(Step(Fold(h, before), b), after)
  {
    FoldConcat(h, before + [b], after);
    FoldOne(h, before, b);
  }

  lemma FoldOne(h: Word, before: seq<Byte>, b: Byte)
    ensures Fold(h, before + [b]) == Step(Fold(h, before), b)
  {
    assert (before + [b])[..|before|] == before;
  }

  /** Changing two adjacent bytes, in any way, always changes the hash. */
  lemma TwoBytesChange(h: Word, before: seq<Byte>, b: Byte, c: Byte, b': Byte, c': Byte, after: seq<Byte>)
    requires (b, c) != (b', c')
    ensures Fold(h, before + [b, c] + after) != Fold(h, before + [b', c'] + after)
  {
    var m := Fold(h, before);
    FoldTwo(h, before, b, c, after);
    FoldTwo(h, before, b', c', after);
    TwoStepsDiffer(m, b, c, b', c');
    FoldIsInjective(Step(Step(m, b), c), Step(Step(m, b'), c'), after);
  }

  lemma FoldTwo(h: Word, before: seq<Byte>, b: Byte, c: Byte, after: seq<Byte>)
    ensures Fold(h, before + [b, c] + after) == Fold(Step(Step(Fold(h, before), b), c), after)
  {
    FoldConcat(h, before + [b, c], after);
    assert before + [b, c] == (before + [b]) + [c];
    FoldOne(h, before + [b], c);
    FoldOne(h, before, b);
  }

  lemma TwoStepsDiffer(m: Word, b: Byte, c: Byte, b': Byte, c': Byte)
    requires (b, c) != (b', c')
    ensures Step(Step(m, b), c) != Step(Step(m, b'), c')
  {
    if b == b' {
      StepIsInjective(Step(m, b), c, Step(m, b'), c');
    } else {
      DifferenceSpreads(m, b, b');
      PrimeIsInvertible(XorLow(Step(m, b), c));
      PrimeIsInvertible(XorLow(Step(m, b'), c'));
      assert XorLow(Step(m, b), c) / 256 == Step(m, b) / 256;
      assert XorLow(Step(m, b'), c') / 256 == Step(m, b') / 256;
    }
  }

  // ----- A published value -----

  lemma StepIs(h: Word, b: Byte, low: Byte, q: nat, r: Word)
    requires Xor(h % 256, b) == low && (h - h % 256 + low) * PRIME == q * MODULUS + r
    ensures Step(h, b) == r
  {
    ModOfSum(r, q);
  }

  lemma XorOfA(x: Byte, y: Byte)
    requires x == 0x25 && y == 0x61
    ensures Xor(x, y) == 0x44
  {
    XorIsFound(8, x, y, 0x44);
  }

  /** A number that agrees with the exclusive or bit by bit is the exclusive or. */
  lemma {:induction false} XorIsFound(n: nat, x: nat, y: nat, r: nat)
    requires r < Pow2(n) && AgreesBitwise(n, x, y, r)
    ensures XorBits(n, x, y) == r
  {
    if n > 0 {
      XorIsFound(n - 1, x / 2, y / 2, r / 2);
    }
  }

  predicate AgreesBitwise(n: nat, x: nat, y: nat, r: nat) {
    n == 0 || ((r % 2 == 1 <==> x % 2 != y % 2) && AgreesBitwise(n - 1, x / 2, y / 2, r / 2))
  }

  /** The hash of the one-letter string "a" in the test vectors of the FNV draft. */
  lemma HashOfA(h: Word, bytes: seq<Byte>)
    requires h == OFFSET_BASIS && bytes == [0x61]
    ensures Fold(h, bytes) == 0xaf63_dc4c_8601_ec8c
  {
    XorOfA(h % 256, bytes[0]);
    StepIs(h, bytes[0], 0x44, 0xcbf29ce5de, 0xaf63_dc4c_8601_ec8c);
    assert bytes[..0] == [];
  }
}
