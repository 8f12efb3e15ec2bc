/**
  A bitmap of frames: one bit per frame, set when the frame is in use.
 */
module Bitmaps {

  type Bitmap = seq<bv8>

  function Mask(bit: nat): bv8
    requires bit < 8
  {
    1 << bit
  }

  /** The mask of a bit position, written out; the solver reasons about literals more easily than about shifts. */
  lemma MaskValue(bit: nat)
    requires bit < 8
    ensures Mask(bit) == (match bit case 0 => 1 case 1 => 2 case 2 => 4 case 3 => 8
                                    case 4 => 16 case 5 => 32 case 6 => 64 case _ => 128)
  {
  }

  predicate BitClear(x: bv8, bit: nat)
    requires bit < 8
  {
    x & Mask(bit) == 0
  }

  lemma SetOneBit(x: bv8, bit: nat, other: nat)
    requires bit < 8 && other < 8
    ensures BitClear(x | Mask(bit), other) <==> BitClear(x, other) && other != bit
  {
    MaskValue(bit);
    MaskValue(other);
  }

  lemma ClearOneBit(x: bv8, bit: nat, other: nat)
    requires bit < 8 && other < 8
    ensures BitClear(x & !Mask(bit), other) <==> BitClear(x, other) || other == bit
  {
    MaskValue(bit);
    MaskValue(other);
  }

  /** 0xFF is the one byte without a clear bit. */
  lemma FullByte(x: bv8)
    ensures x == 0xFF <==> forall bit: nat | bit < 8 :: !BitClear(x, bit)
  {
    MaskValue(0); MaskValue(1); MaskValue(2); MaskValue(3);
    MaskValue(4); MaskValue(5); MaskValue(6); MaskValue(7);
    if x != 0xFF {
      assert x & 1 == 0 || x & 2 == 0 || x & 4 == 0 || x & 8 == 0 ||
             x & 16 == 0 || x & 32 == 0 || x & 64 == 0 || x & 128 == 0;
      assert BitClear(x, 0) || BitClear(x, 1) || BitClear(x, 2) || BitClear(x, 3) ||
             BitClear(x, 4) || BitClear(x, 5) || BitClear(x, 6) || BitClear(x, 7);
    } else {
      forall bit: nat | bit < 8 ensures !BitClear(x, bit) { MaskValue(bit); }
    }
  }
}
