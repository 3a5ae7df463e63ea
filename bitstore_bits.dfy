/**
  The bit view of a byte array as `bitstore` reads it: bit `s` is bit
  `s & 7` of byte `s >> 3`. The fields of several bits that the multi-bit
  operations address are read as unsigned numbers, least significant bit
  first. The functions here are the specification the `bitstore` class is
  proved against.
*/
module BitstoreBits {

  // ---------------------------------------------------------------------------
  // Bytes

  /** The one-bit mask `1 << t`. */
  function Mask8(t: nat): bv8
    requires t < 8
  {
    if t == 0 then 0x01 else if t == 1 then 0x02 else if t == 2 then 0x04 else if t == 3 then 0x08
    else if t == 4 then 0x10 else if t == 5 then 0x20 else if t == 6 then 0x40 else 0x80
  }

  /** A mask has exactly one bit set. */
  lemma OneHot(t: nat)
    requires t < 8
    ensures var k := Mask8(t); k == 1 || k == 2 || k == 4 || k == 8 || k == 16 || k == 32 || k == 64 || k == 128
  {
  }

  /** Bit `t` of byte `b` is 1: `(b >> t) & 1`, the same test as `b & (1 << t)`. */
  predicate Bit8(b: bv8, t: nat)
    requires t < 8
  {
    b & Mask8(t) != 0
  }

  /** The byte whose bits, lowest first, are `b0 .. b7`. */
  function Pack8(b0: bool, b1: bool, b2: bool, b3: bool, b4: bool, b5: bool, b6: bool, b7: bool): bv8
  {
    (if b0 then 0x01 else 0) | (if b1 then 0x02 else 0) | (if b2 then 0x04 else 0) | (if b3 then 0x08 else 0) |
    (if b4 then 0x10 else 0) | (if b5 then 0x20 else 0) | (if b6 then 0x40 else 0) | (if b7 then 0x80 else 0)
  }

  lemma BitOfOrMask(b: bv8, t: nat, u: nat)
    requires t < 8 && u < 8
    ensures Bit8(b | Mask8(t), u) == (Bit8(b, u) || u == t)
  {
    OneHot(t);
    OneHot(u);
  }

  lemma BitOfAndNotMask(b: bv8, t: nat, u: nat)
    requires t < 8 && u < 8
    ensures Bit8(b & !Mask8(t), u) == (Bit8(b, u) && u != t)
  {
    OneHot(t);
    OneHot(u);
  }

  lemma BitOfXorMask(b: bv8, t: nat, u: nat)
    requires t < 8 && u < 8
    ensures Bit8(b ^ Mask8(t), u) == (Bit8(b, u) != (u == t))
  {
    OneHot(t);
    OneHot(u);
  }

  lemma BitOfOr(a: bv8, m: bv8, u: nat)
    requires u < 8
    ensures Bit8(a | m, u) == (Bit8(a, u) || Bit8(m, u))
  {
    OneHot(u);
  }

  lemma BitOfAndNot(a: bv8, m: bv8, u: nat)
    requires u < 8
    ensures Bit8(a & !m, u) == (Bit8(a, u) && !Bit8(m, u))
  {
    OneHot(u);
  }

  lemma BitOfXor(a: bv8, m: bv8, u: nat)
    requires u < 8
    ensures Bit8(a ^ m, u) == (Bit8(a, u) != Bit8(m, u))
  {
    OneHot(u);
  }

  lemma BitOfMerge(a: bv8, m: bv8, v: bv8, u: nat)
    requires u < 8
    ensures Bit8((a & !m) | v, u) == ((Bit8(a, u) && !Bit8(m, u)) || Bit8(v, u))
  {
    OneHot(u);
  }

  /** `b | (1 << t)` sets bit `t` and keeps the others. */
  lemma OrMaskBits(b: bv8, t: nat, b': bv8)
    requires t < 8 && b' == b | Mask8(t)
    ensures forall u :: 0 <= u < 8 ==> Bit8(b', u) == if u == t then true else Bit8(b, u)
  {
    forall u | 0 <= u < 8
      ensures Bit8(b', u) == if u == t then true else Bit8(b, u)
    {
      BitOfOrMask(b, t, u);
    }
  }

  /** `b & ~(1 << t)` clears bit `t` and keeps the others. */
  lemma AndNotMaskBits(b: bv8, t: nat, b': bv8)
    requires t < 8 && b' == b & !Mask8(t)
    ensures forall u :: 0 <= u < 8 ==> Bit8(b', u) == if u == t then false else Bit8(b, u)
  {
    forall u | 0 <= u < 8
      ensures Bit8(b', u) == if u == t then false else Bit8(b, u)
    {
      BitOfAndNotMask(b, t, u);
    }
  }

  /** `b ^ (1 << t)` negates bit `t` and keeps the others. */
  lemma XorMaskBits(b: bv8, t: nat, b': bv8)
    requires t < 8 && b' == b ^ Mask8(t)
    ensures forall u :: 0 <= u < 8 ==> Bit8(b', u) == if u == t then !Bit8(b, t) else Bit8(b, u)
  {
    forall u | 0 <= u < 8
      ensures Bit8(b', u) == if u == t then !Bit8(b, t) else Bit8(b, u)
    {
      BitOfXorMask(b, t, u);
    }
  }

  /** `0xFF` has every bit set and `0x00` none. */
  lemma FillBits(u: nat)
    requires u < 8
    ensures Bit8(0xFF, u) && !Bit8(0, u)
  {
    OneHot(u);
  }

  lemma Pack8Bits(b0: bool, b1: bool, b2: bool, b3: bool, b4: bool, b5: bool, b6: bool, b7: bool, u: nat)
    requires u < 8
    ensures Bit8(Pack8(b0, b1, b2, b3, b4, b5, b6, b7), u) == [b0, b1, b2, b3, b4, b5, b6, b7][u]
  {
  }

  /** A byte is determined by its eight bits. */
  lemma ByteOfBits(a: bv8, b: bv8)
    requires forall u :: 0 <= u < 8 ==> Bit8(a, u) == Bit8(b, u)
    ensures a == b
  {
    assert Bit8(a, 0) == Bit8(b, 0) && Bit8(a, 1) == Bit8(b, 1);
    assert Bit8(a, 2) == Bit8(b, 2) && Bit8(a, 3) == Bit8(b, 3);
    assert Bit8(a, 4) == Bit8(b, 4) && Bit8(a, 5) == Bit8(b, 5);
    assert Bit8(a, 6) == Bit8(b, 6) && Bit8(a, 7) == Bit8(b, 7);
  }

  // ---------------------------------------------------------------------------
  // The bit view of a byte array

  /** Number of bytes needed for `bits` bits: `(bits >> 3) + ((bits & 7) ? 1 : 0)`. */
  function BytesFor(bits: nat): (r: nat)
    ensures bits <= 8 * r < bits + 8
  {
    bits / 8 + (if bits % 8 != 0 then 1 else 0)
  }

  /** Bit `s` of the byte array `a`. */
  function BitAt(a: seq<bv8>, s: nat): bool
    requires s < 8 * |a|
  {
    Bit8(a[s / 8], s % 8)
  }

  /** All bits of `a`, bit `s` at index `s`. */
  function Bits(a: seq<bv8>): (bs: seq<bool>)
    ensures |bs| == 8 * |a|
    ensures forall s :: 0 <= s < |bs| ==> bs[s] == BitAt(a, s)
  {
    seq(8 * |a|, (s: int) requires 0 <= s < 8 * |a| => BitAt(a, s))
  }

  /** Bit `s` of `a` is bit `u` of byte `k`. */
  lemma BitAtByte(a: seq<bv8>, s: nat, k: nat, u: nat)
    requires k < |a| && u < 8 && s == 8 * k + u
    ensures BitAt(a, s) == Bit8(a[k], u)
  {
  }

  /** The bit view loses nothing: arrays with the same bits are equal. */
  lemma {:induction false} BitsInjective(a: seq<bv8>, b: seq<bv8>)
    requires |a| == |b| && Bits(a) == Bits(b)
    ensures a == b
  {
    forall k | 0 <= k < |a|
      ensures a[k] == b[k]
    {
      forall u | 0 <= u < 8
        ensures Bit8(a[k], u) == Bit8(b[k], u)
      {
        BitAtByte(a, 8 * k + u, k, u);
        BitAtByte(b, 8 * k + u, k, u);
        assert Bits(a)[8 * k + u] == Bits(b)[8 * k + u];
      }
      ByteOfBits(a[k], b[k]);
    }
  }

  // ---------------------------------------------------------------------------
  // Fields of several bits

  /** `2 ^ k`. */
  function Pow2(k: nat): (r: nat)
    ensures r >= 1
  {
    if k == 0 then 1 else 2 * Pow2(k - 1)
  }

  /** Bit `i` of the number `v`. */
  predicate NatBit(v: nat, i: nat)
  {
    if i == 0 then v % 2 == 1 else NatBit(v / 2, i - 1)
  }

  /** Position `s` lies in the field of `bits` bits at `slot`. */
  predicate InField(slot: nat, bits: nat, s: nat)
  {
    slot <= s < slot + bits
  }

  /** The number whose binary digits, least significant first, are the
      `bits` bits of `bs` from `slot` on. */
  function FieldValue(bs: seq<bool>, slot: nat, bits: nat): nat
    requires slot + bits <= |bs|
    decreases bits
  {
    if bits == 0 then 0 else (if bs[slot] then 1 else 0) + 2 * FieldValue(bs, slot + 1, bits - 1)
  }

  /** `bs` with every bit of the field set to `v`. */
  function FieldSetTo(bs: seq<bool>, slot: nat, bits: nat, v: bool): (r: seq<bool>)
    ensures |r| == |bs|
  {
    seq(|bs|, (s: int) requires 0 <= s < |bs| => if InField(slot, bits, s) then v else bs[s])
  }

  /** `bs` with every bit of the field negated. */
  function FieldFlipped(bs: seq<bool>, slot: nat, bits: nat): (r: seq<bool>)
    ensures |r| == |bs|
  {
    seq(|bs|, (s: int) requires 0 <= s < |bs| => if InField(slot, bits, s) then !bs[s] else bs[s])
  }

  /** Bit `s` of the field of `bits` bits at `slot` holding `value`. */
  predicate FieldBit(slot: nat, bits: nat, value: nat, s: nat)
  {
    InField(slot, bits, s) && NatBit(value, s - slot)
  }

  /** `bs` with the field holding the binary digits of `value`. */
  function FieldWritten(bs: seq<bool>, slot: nat, bits: nat, value: nat): (r: seq<bool>)
    ensures |r| == |bs|
  {
    seq(|bs|, (s: int) requires 0 <= s < |bs| => if InField(slot, bits, s) then FieldBit(slot, bits, value, s) else bs[s])
  }

  /** Reading a field: its value has `bits` binary digits, and digit `i` is
      bit `slot + i`. */
  lemma {:induction false} FieldValueBits(bs: seq<bool>, slot: nat, bits: nat)
    requires slot + bits <= |bs|
    ensures FieldValue(bs, slot, bits) < Pow2(bits)
    ensures forall i :: 0 <= i < bits ==> NatBit(FieldValue(bs, slot, bits), i) == bs[slot + i]
    decreases bits
  {
    if bits > 0 {
      var rest := FieldValue(bs, slot + 1, bits - 1);
      FieldValueBits(bs, slot + 1, bits - 1);
      var v := FieldValue(bs, slot, bits);
      var d := if bs[slot] then 1 else 0;
      Digit(d, rest);
      forall i | 0 <= i < bits
        ensures NatBit(v, i) == bs[slot + i]
      {
        if i > 0 {
          assert NatBit(v, i) == NatBit(rest, i - 1);
        }
      }
    }
  }

  /** Splitting off the lowest binary digit `d` of `d + 2 * r`. */
  lemma Digit(d: nat, r: nat)
    requires d < 2
    ensures (d + 2 * r) / 2 == r && (d + 2 * r) % 2 == d
  {
  }

  /** The value of a field depends only on the bits inside it. */
  lemma {:induction false} FieldValueFrame(bs: seq<bool>, cs: seq<bool>, slot: nat, bits: nat)
    requires slot + bits <= |bs| && slot + bits <= |cs|
    requires forall i :: slot <= i < slot + bits ==> bs[i] == cs[i]
    ensures FieldValue(bs, slot, bits) == FieldValue(cs, slot, bits)
    decreases bits
  {
    if bits > 0 {
      FieldValueFrame(bs, cs, slot + 1, bits - 1);
    }
  }

  /** The round trip of the multi-bit `set` and `get`: writing a value that
      fits the field and reading the field back gives the value. */
  lemma {:induction false} FieldRoundTrip(bs: seq<bool>, slot: nat, bits: nat, value: nat)
    requires slot + bits <= |bs| && value < Pow2(bits)
    ensures FieldValue(FieldWritten(bs, slot, bits, value), slot, bits) == value
    decreases bits
  {
    var w := FieldWritten(bs, slot, bits, value);
    if bits > 0 {
      var w' := FieldWritten(bs, slot + 1, bits - 1, value / 2);
      forall i | slot + 1 <= i < slot + bits
        ensures w[i] == w'[i]
      {
        assert NatBit(value, i - slot) == NatBit(value / 2, i - slot - 1);
      }
      FieldValueFrame(w, w', slot + 1, bits - 1);
      FieldRoundTrip(bs, slot + 1, bits - 1, value / 2);
      assert w[slot] == (value % 2 == 1);
    }
  }

  /** Writing a field changes no bit outside it. */
  lemma FieldWrittenFrame(bs: seq<bool>, slot: nat, bits: nat, value: nat, s: nat)
    requires s < |bs| && !InField(slot, bits, s)
    ensures FieldWritten(bs, slot, bits, value)[s] == bs[s]
  {
  }

  /** The digits of `2 ^ bits - 1`, the source's field mask `(1 << bits) - 1`,
      are `bits` ones. */
  lemma {:induction false} AllOnesBits(bits: nat, i: nat)
    ensures NatBit(Pow2(bits) - 1, i) == (i < bits)
    decreases bits
  {
    if bits > 0 && i > 0 {
      assert (Pow2(bits) - 1) / 2 == Pow2(bits - 1) - 1;
      AllOnesBits(bits - 1, i - 1);
    } else if bits == 0 {
      ZeroBits(i);
    }
  }

  /** The number 0 has no digit set. */
  lemma {:induction false} ZeroBits(i: nat)
    ensures !NatBit(0, i)
  {
    if i > 0 {
      ZeroBits(i - 1);
    }
  }

  /** `setOn(slot, bits)` is the multi-bit `set` of the all-ones mask, and
      `setOff(slot, bits)` the `set` of 0. */
  lemma FieldSetToAsWrite(bs: seq<bool>, slot: nat, bits: nat)
    ensures FieldSetTo(bs, slot, bits, true) == FieldWritten(bs, slot, bits, Pow2(bits) - 1)
    ensures FieldSetTo(bs, slot, bits, false) == FieldWritten(bs, slot, bits, 0)
  {
    forall s | 0 <= s < |bs| && InField(slot, bits, s)
      ensures FieldBit(slot, bits, Pow2(bits) - 1, s) && !FieldBit(slot, bits, 0, s)
    {
      AllOnesBits(bits, s - slot);
      ZeroBits(s - slot);
    }
  }

  /** Flipping a field twice restores it. */
  lemma FieldFlipTwice(bs: seq<bool>, slot: nat, bits: nat)
    ensures FieldFlipped(FieldFlipped(bs, slot, bits), slot, bits) == bs
  {
  }

  // ---------------------------------------------------------------------------
  // The little-endian window of the multi-bit operations

  /** Byte `k` of the intended 64-bit field mask `((1 << bits) - 1) << (slot & 7)`
      (`FieldMask64`) read from byte `slot >> 3` on, little-endian: bit `u` is set when bit
      `8 * k + u` of the array lies in the field. */
  function FieldMaskByte(slot: nat, bits: nat, k: nat): bv8
  {
    Pack8(InField(slot, bits, 8 * k), InField(slot, bits, 8 * k + 1),
          InField(slot, bits, 8 * k + 2), InField(slot, bits, 8 * k + 3),
          InField(slot, bits, 8 * k + 4), InField(slot, bits, 8 * k + 5),
          InField(slot, bits, 8 * k + 6), InField(slot, bits, 8 * k + 7))
  }

  /** Byte `k` of the shifted value `value << (slot & 7)` in the same window,
      for a value that fits the field. */
  function FieldValueByte(slot: nat, bits: nat, value: nat, k: nat): bv8
  {
    Pack8(FieldBit(slot, bits, value, 8 * k), FieldBit(slot, bits, value, 8 * k + 1),
          FieldBit(slot, bits, value, 8 * k + 2), FieldBit(slot, bits, value, 8 * k + 3),
          FieldBit(slot, bits, value, 8 * k + 4), FieldBit(slot, bits, value, 8 * k + 5),
          FieldBit(slot, bits, value, 8 * k + 6), FieldBit(slot, bits, value, 8 * k + 7))
  }

  lemma FieldMaskByteBit(slot: nat, bits: nat, k: nat, u: nat)
    requires u < 8
    ensures Bit8(FieldMaskByte(slot, bits, k), u) == InField(slot, bits, 8 * k + u)
  {
    Pack8Bits(InField(slot, bits, 8 * k), InField(slot, bits, 8 * k + 1),
              InField(slot, bits, 8 * k + 2), InField(slot, bits, 8 * k + 3),
              InField(slot, bits, 8 * k + 4), InField(slot, bits, 8 * k + 5),
              InField(slot, bits, 8 * k + 6), InField(slot, bits, 8 * k + 7), u);
  }

  lemma FieldValueByteBit(slot: nat, bits: nat, value: nat, k: nat, u: nat)
    requires u < 8
    ensures Bit8(FieldValueByte(slot, bits, value, k), u) == FieldBit(slot, bits, value, 8 * k + u)
  {
    Pack8Bits(FieldBit(slot, bits, value, 8 * k), FieldBit(slot, bits, value, 8 * k + 1),
              FieldBit(slot, bits, value, 8 * k + 2), FieldBit(slot, bits, value, 8 * k + 3),
              FieldBit(slot, bits, value, 8 * k + 4), FieldBit(slot, bits, value, 8 * k + 5),
              FieldBit(slot, bits, value, 8 * k + 6), FieldBit(slot, bits, value, 8 * k + 7), u);
  }

  /** The bytes the 64-bit window at byte `slot >> 3` covers, clipped to an
      array of `len` bytes. */
  predicate InWindow(slot: nat, len: nat, k: nat)
  {
    slot / 8 <= k < len && k < slot / 8 + 8
  }

  /** A field of fewer than 31 bits lies inside its window. */
  lemma FieldInWindow(slot: nat, bits: nat, len: nat, s: nat)
    requires bits < 31 && slot + bits <= 8 * len && s < 8 * len
    ensures InField(slot, bits, s) ==> InWindow(slot, len, s / 8)
  {
  }

  // ---------------------------------------------------------------------------
  // The field mask as one 64-bit word

  /** `(1 << bits) - 1`: the low `bits` bits set. */
  function LowMask(bits: bv64): bv64
    requires bits < 31
  {
    ((1 as bv64) << bits) - 1
  }

  /** The intended mask of `set`, `setOn`, `setOff` and `flip` on the 8-byte
      window: the low `bits` bits shifted up by `slot & 7`, as a 64-bit
      word. `FieldMaskByte` is its bytes. */
  function FieldMask64(shift: bv64, bits: bv64): bv64
    requires shift < 8 && bits < 31
  {
    LowMask(bits) << shift
  }

  /** Bit `i` of the window mask is set exactly when it lies in the field. */
  lemma {:induction false} FieldMask64Bit(shift: bv64, bits: bv64, i: bv64)
    requires shift < 8 && bits < 31 && i < 64
    ensures (FieldMask64(shift, bits) >> i) & 1 == 1 <==> shift <= i < shift + bits
  {
    if i < shift {
      FieldMaskBelow(shift, bits, i);
    } else {
      FieldMaskAbove(shift, bits, i);
      LowMaskBit(bits, i - shift);
    }
  }

  lemma FieldMaskBelow(shift: bv64, bits: bv64, i: bv64)
    requires shift < 8 && bits < 31 && i < shift
    ensures (FieldMask64(shift, bits) >> i) & 1 == 0
  {
    LowMaskSmall(bits);
    ShiftedBit(LowMask(bits), shift, i);
  }

  lemma FieldMaskAbove(shift: bv64, bits: bv64, i: bv64)
    requires shift < 8 && bits < 31 && shift <= i < 64
    ensures (FieldMask64(shift, bits) >> i) & 1 == (LowMask(bits) >> (i - shift)) & 1
  {
    LowMaskSmall(bits);
    ShiftedBit(LowMask(bits), shift, i);
  }

  lemma LowMaskSmall(bits: bv64)
    requires bits < 31
    ensures LowMask(bits) < 0x8000_0000
  {
  }

  lemma LowMaskBit(bits: bv64, j: bv64)
    requires bits < 31 && j < 64
    ensures (LowMask(bits) >> j) & 1 == 1 <==> j < bits
  {
  }

  /** Shifting a word below bit 31 up by fewer than 8 moves each bit up. */
  lemma ShiftedBit(x: bv64, shift: bv64, i: bv64)
    requires shift < 8 && i < 64 && x < 0x8000_0000
    ensures ((x << shift) >> i) & 1 == if i < shift then 0 else (x >> (i - shift)) & 1
  {
  }
}
