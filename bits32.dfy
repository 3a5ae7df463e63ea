/** Bit-level facts about the 32-bit occupancy words of the pool. */
module Bits32 {
  /** Position of a bit inside a 32-bit word. */
  type Idx = j: bv32 | j < 32

  const FULL: bv32 := 0xFFFF_FFFF

  /** Converts a bit position computed as an integer (for example `slot % 32`). */
  function ToIdx(x: nat): (r: Idx)
    requires x < 32
    ensures r as int == x
  {
    if x == 0 then 0 else ToIdx(x - 1) + 1
  }

  /** Bit positions compare as their integer values. */
  lemma IdxLess(j: Idx, r: Idx)
    ensures (j < r) == (j as int < r as int)
  {
  }

  /** Bit `j` of `w` is 1. */
  predicate Bit(w: bv32, j: Idx)
  {
    (w >> j) & 1 == 1
  }

  /** The one-bit mask `1 << j`. */
  function Mask(j: Idx): bv32
  {
    1 << j
  }

  /** Every bit of `w` below position `j` is 1. */
  predicate OnesBelow(w: bv32, j: Idx)
  {
    w & (Mask(j) - 1) == Mask(j) - 1
  }

  /** Every bit of `w` below position `j` is 0. */
  predicate ZerosBelow(w: bv32, j: Idx)
  {
    w & (Mask(j) - 1) == 0
  }

  function LowestZeroFrom(w: bv32, j: Idx): (b: Idx)
    requires w != FULL && OnesBelow(w, j)
    ensures j <= b && OnesBelow(w, b) && w & Mask(b) == 0
    decreases 32 - j as int
  {
    if w & Mask(j) == 0 then j else LowestZeroFrom(w, j + 1)
  }

  /** Position of the lowest 0 bit of a word that is not full. */
  function LowestZero(w: bv32): (b: Idx)
    requires w != FULL
    ensures OnesBelow(w, b) && w & Mask(b) == 0
  {
    LowestZeroFrom(w, 0)
  }

  /** The lowest 0 bit is clear. */
  lemma LowestZeroClear(w: bv32)
    requires w != FULL
    ensures !Bit(w, LowestZero(w))
  {
    MaskBit(w, LowestZero(w));
  }

  /** Every bit below the lowest 0 bit is 1. */
  lemma BelowLowestZero(w: bv32, j: Idx)
    requires w != FULL && j < LowestZero(w)
    ensures Bit(w, j)
  {
    OnesBelowBit(w, LowestZero(w), j);
  }

  lemma MaskBit(w: bv32, b: Idx)
    ensures Bit(w, b) <==> w & Mask(b) != 0
  {
  }

  lemma OnesBelowBit(w: bv32, b: Idx, j: Idx)
    requires OnesBelow(w, b) && j < b
    ensures Bit(w, j)
  {
  }

  /** A zero bit `j` above only zero bits is not the top bit, and extends
      the zero bits. */
  lemma ZerosBelowStep(w: bv32, j: Idx)
    requires w != 0 && ZerosBelow(w, j) && w & Mask(j) == 0
    ensures j < 31 && ZerosBelow(w, j + 1)
  {
    if j == 31 {
      ZerosTop(w);
    } else {
      MaskStep(j);
    }
  }

  lemma ZerosTop(w: bv32)
    requires ZerosBelow(w, 31) && w & Mask(31) == 0
    ensures w == 0
  {
  }

  lemma MaskStep(j: Idx)
    requires j < 31
    ensures Mask(j + 1) - 1 == (Mask(j) - 1) | Mask(j)
  {
  }

  function LowestOneFrom(w: bv32, j: Idx): (b: Idx)
    requires w != 0 && ZerosBelow(w, j)
    ensures ZerosBelow(w, b) && w & Mask(b) != 0
    decreases 32 - j as int
  {
    if w & Mask(j) != 0 then j
    else
      ZerosBelowStep(w, j);
      LowestOneFrom(w, j + 1)
  }

  /** Position of the lowest 1 bit of a non-zero word. */
  function LowestOne(w: bv32): (b: Idx)
    requires w != 0
    ensures ZerosBelow(w, b) && w & Mask(b) != 0
  {
    LowestOneFrom(w, 0)
  }

  /** The lowest 1 bit is set. */
  lemma LowestOneSet(w: bv32)
    requires w != 0
    ensures Bit(w, LowestOne(w))
  {
    MaskBit(w, LowestOne(w));
  }

  /** Every bit below the lowest 1 bit is 0. */
  lemma BelowLowestOne(w: bv32, j: Idx)
    requires w != 0 && j < LowestOne(w)
    ensures !Bit(w, j)
  {
    ZerosBelowBit(w, LowestOne(w), j);
  }

  lemma ZerosBelowBit(w: bv32, b: Idx, j: Idx)
    requires ZerosBelow(w, b) && j < b
    ensures !Bit(w, j)
  {
  }

  /** `w | (w + 1)` sets exactly the lowest 0 bit of a word that is not full,
      and `w ^ (w | (w + 1))` is the mask of that bit. */
  lemma SetLowestZero(w: bv32)
    requires w != FULL
    ensures w | (w + 1) == w | Mask(LowestZero(w))
    ensures w ^ (w | (w + 1)) == Mask(LowestZero(w))
  {
    SetLowestZeroAt(w, LowestZero(w));
  }

  lemma SetLowestZeroAt(w: bv32, b: Idx)
    requires w != FULL && b == LowestZero(w)
    ensures w | (w + 1) == w | Mask(b)
    ensures w ^ (w | (w + 1)) == Mask(b)
  {
    SetZeroBit(w, b);
  }

  lemma SetZeroBit(w: bv32, b: Idx)
    requires OnesBelow(w, b) && w & Mask(b) == 0
    ensures w | (w + 1) == w | Mask(b)
    ensures w ^ (w | (w + 1)) == Mask(b)
  {
  }

  /** `w & (w - 1)` clears exactly the lowest 1 bit of a non-zero word,
      and `w ^ (w & (w - 1))` is the mask of that bit. */
  lemma ClearLowestOne(w: bv32)
    requires w != 0
    ensures w & (w - 1) == w & !Mask(LowestOne(w))
    ensures w ^ (w & (w - 1)) == Mask(LowestOne(w))
  {
    ClearLowestOneAt(w, LowestOne(w));
  }

  lemma ClearLowestOneAt(w: bv32, b: Idx)
    requires w != 0 && b == LowestOne(w)
    ensures w & (w - 1) == w & !Mask(b)
    ensures w ^ (w & (w - 1)) == Mask(b)
  {
    ClearOneBit(w, b);
  }

  lemma ClearOneBit(w: bv32, b: Idx)
    requires ZerosBelow(w, b) && w & Mask(b) != 0
    ensures w & (w - 1) == w & !Mask(b)
    ensures w ^ (w & (w - 1)) == Mask(b)
  {
  }

  lemma BitOfOr(w: bv32, b: Idx, j: Idx)
    ensures Bit(w | Mask(b), j) == (Bit(w, j) || j == b)
  {
  }

  lemma BitOfAndNot(w: bv32, b: Idx, j: Idx)
    ensures Bit(w & !Mask(b), j) == (Bit(w, j) && j != b)
  {
  }

  lemma FullBits(w: bv32)
    ensures w == FULL <==> forall j: Idx :: Bit(w, j)
  {
    if w != FULL {
      MaskBit(w, LowestZero(w));
    }
  }

  lemma ZeroBits(w: bv32)
    ensures w == 0 <==> forall j: Idx :: !Bit(w, j)
  {
    if w != 0 {
      MaskBit(w, LowestOne(w));
    }
  }

  /** The de Bruijn lookup table of the pool: it maps the top five bits of
      `(1 << k) * 0x077CB531` to `k`. */
  const DeBruijnTable: seq<Idx> :=
    [0, 1, 28, 2, 29, 14, 24, 3, 30, 22, 20, 15, 25, 17, 4, 8,
     31, 27, 13, 23, 21, 19, 16, 7, 26, 12, 18, 6, 11, 5, 10, 9]

  /** The bit position that the table gives for a one-bit mask. */
  function DeBruijnPosition(mask: bv32): (p: Idx)
    ensures mask != 0 && mask & (mask - 1) == 0 ==> Mask(p) == mask
  {
    var i := (mask * 0x077C_B531) >> 27;
    assert i < 32;
    DeBruijnTable[i as int]
  }

  lemma DeBruijnCorrect(b: Idx)
    ensures DeBruijnPosition(Mask(b)) == b
  {
  }

  /** The allocation step of the pool on one word: `w | (w + 1)` marks the
      lowest 0 bit and no other bit. */
  lemma ClaimStep(w: bv32, b: Idx, w': bv32)
    requires w != FULL && b == LowestZero(w) && w' == w | (w + 1)
    ensures !Bit(w, b)
    ensures forall j: Idx :: Bit(w', j) == (Bit(w, j) || j == b)
  {
    SetLowestZeroAt(w, b);
    MaskBit(w, b);
    forall j: Idx ensures Bit(w', j) == (Bit(w, j) || j == b) {
      BitOfOr(w, b, j);
    }
  }

  /** `w ^ w'` for the claimed word `w' = w | (w + 1)` is the mask of the bit claimed. */
  lemma ClaimMask(w: bv32, b: Idx, w': bv32)
    requires w != FULL && b == LowestZero(w) && w' == w | (w + 1)
    ensures w ^ w' == Mask(b)
  {
    SetLowestZeroAt(w, b);
  }

  /** `w ^ w'` for the scanned word `w' = w & (w - 1)` is the mask of the bit dropped. */
  lemma ReleaseMask(w: bv32, b: Idx, w': bv32)
    requires w != 0 && b == LowestOne(w) && w' == w & (w - 1)
    ensures w ^ w' == Mask(b)
  {
    ClearLowestOneAt(w, b);
  }

  /** The scanning step of the pool on one word: `w & (w - 1)` drops the lowest
      1 bit and no other bit. */
  lemma ReleaseStep(w: bv32, b: Idx, w': bv32)
    requires w != 0 && b == LowestOne(w) && w' == w & (w - 1)
    ensures Bit(w, b)
    ensures forall j: Idx :: Bit(w', j) == (Bit(w, j) && j != b)
  {
    ClearLowestOneAt(w, b);
    MaskBit(w, b);
    forall j: Idx ensures Bit(w', j) == (Bit(w, j) && j != b) {
      BitOfAndNot(w, b, j);
    }
  }

  /** The table lookup `MultiplyDeBruijnBitPosition2[(mask * 0x077CB531) >> 27]`
      on a one-bit mask: it yields the position of that bit. */
  method LookupPosition(mask: bv32, ghost k: Idx) returns (b: Idx)
    requires mask == Mask(k)
    ensures b == k
  {
    var i := (mask * 0x077C_B531) >> 27;
    b := DeBruijnTable[i as int];
    DeBruijnCorrect(k);
  }

  /** The claim step of `allocate` on a word that is not full:
      `y = x | (x + 1)` marks the lowest 0 bit, and the table turns the mask
      `x ^ y` into its position. */
  method ClaimLowestZero(x: bv32) returns (y: bv32, pos: Idx)
    requires x != FULL
    ensures pos == LowestZero(x) && !Bit(x, pos)
    ensures forall k: Idx :: Bit(y, k) == (Bit(x, k) || k == pos)
  {
    ghost var b := LowestZero(x);
    y := x | (x + 1);
    ClaimMask(x, b, y);
    ClaimStep(x, b, y);
    pos := LookupPosition(x ^ y, b);
  }

  /** The scanning step of `iterate` on a non-empty word: `y = x & (x - 1)`
      drops the lowest 1 bit, and the table turns the mask `x ^ y` into its
      position. */
  method DropLowestOne(x: bv32) returns (y: bv32, pos: Idx)
    requires x != 0
    ensures pos == LowestOne(x) && Bit(x, pos)
    ensures forall k: Idx :: Bit(y, k) == (Bit(x, k) && k != pos)
  {
    ghost var b := LowestOne(x);
    y := x & (x - 1);
    ReleaseMask(x, b, y);
    ReleaseStep(x, b, y);
    pos := LookupPosition(x ^ y, b);
  }

  /** The search step of `findUsed` on a non-empty word:
      `x ^ (x & (x - 1))` isolates the lowest 1 bit, and the table gives its
      position. */
  method LowestOnePosition(x: bv32) returns (pos: Idx)
    requires x != 0
    ensures pos == LowestOne(x)
  {
    ghost var b := LowestOne(x);
    ReleaseMask(x, b, x & (x - 1));
    pos := LookupPosition(x ^ (x & (x - 1)), b);
  }

  /** The release step of `deallocate`: `w & ~(1 << b)` clears bit `b` and no
      other bit. */
  lemma ClearStep(w: bv32, b: Idx, w': bv32)
    requires w' == w & !Mask(b)
    ensures forall j: Idx :: Bit(w', j) == (Bit(w, j) && j != b)
  {
    forall j: Idx ensures Bit(w', j) == (Bit(w, j) && j != b) {
      BitOfAndNot(w, b, j);
    }
  }

  /** `x & ~(1 << j)`: the word with bit `j` cleared and every other bit kept. */
  method ClearBit(x: bv32, j: Idx) returns (y: bv32)
    ensures forall k: Idx :: Bit(y, k) == (Bit(x, k) && k != j)
  {
    y := x & !Mask(j);
    ClearStep(x, j, y);
  }

  /** The test `isFree` makes: bit 0 of the complement of `w >> j`. */
  lemma ComplementBit(w: bv32, j: Idx)
    ensures ((!(w >> j)) & 1 == 1) == !Bit(w, j)
  {
  }

  lemma BitOfNot(w: bv32, j: Idx)
    ensures Bit(!w, j) == !Bit(w, j)
  {
  }

  /** The lowest 0 bit of `!x` is the lowest 1 bit of `x`. */
  lemma LowestZeroOfNot(x: bv32)
    requires x != 0
    ensures !x != FULL && LowestZero(!x) == LowestOne(x)
  {
    var a := LowestOne(x);
    MaskBit(x, a);
    BitOfNot(x, a);
    MaskBit(!x, a);
    var b := LowestZero(!x);
    MaskBit(!x, b);
    BitOfNot(x, b);
    if a < b {
      OnesBelowBit(!x, b, a);
    } else if b < a {
      BelowLowestOne(x, b);
    }
  }
}
