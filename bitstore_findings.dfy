/**
  `bitstore::alloc` as its code is written. It allocates a fresh array of
  `ceil(bits / 8)` bytes, drops the bytes the store held, and then fills the
  indices `size .. size + ceil(bits / 8) - 1` of the new array. That range
  is the right one only when `size` is 0. The intended behaviour, a store
  grown by `ceil(bits / 8)` bytes that keeps what it held, is
  `BitstoreModel.Bitstore.Alloc`.

  `set`, `setOn` and `flip` compute their field mask in a 32-bit `int`,
  which spills into bits 32..63 of the window once the field reaches bit
  32; the intended mask is `BitstoreBits.FieldMask64`.
*/
module BitstoreFindings {
  import opened BitstoreBits

  /** The length of the array `alloc` allocates, as written: the new bytes
      only, not the old size plus the new bytes. */
  function AllocLengthAsWritten(size: nat, bits: nat): (n: nat)
    ensures size > 0 ==> n < size + BytesFor(bits)
  {
    bits / 8 + (if bits % 8 != 0 then 1 else 0)
  }

  /** The indices `alloc` writes, in order, as written: from the old size up
      to the new size. */
  function AllocWrittenAsWritten(size: nat, bits: nat): (r: seq<nat>)
    ensures |r| == BytesFor(bits)
    ensures forall i :: 0 <= i < |r| ==> r[i] == size + i
  {
    seq(BytesFor(bits), i => size + i)
  }

  /** A one-byte store growing by 8 bits: as written the new array holds one
      byte and `alloc` writes its index 1, one past the end. The old byte is
      not copied. */
  lemma AllocAsWrittenOutside()
    ensures AllocLengthAsWritten(1, 8) == 1
    ensures 1 in AllocWrittenAsWritten(1, 8)
    ensures 0 !in AllocWrittenAsWritten(1, 8)
  {
    assert AllocWrittenAsWritten(1, 8)[0] == 1;
  }

  /** Whenever the store already holds bytes and the growth is non-empty, the
      last index written as written lies past the end of the new array. */
  lemma {:induction false} AllocAsWrittenOverruns(size: nat, bits: nat)
    requires size > 0 && bits > 0
    ensures size + BytesFor(bits) - 1 in AllocWrittenAsWritten(size, bits)
    ensures size + BytesFor(bits) - 1 >= AllocLengthAsWritten(size, bits)
  {
    var r := AllocWrittenAsWritten(size, bits);
    assert r[|r| - 1] == size + BytesFor(bits) - 1;
  }

  // ---------------------------------------------------------------------------
  // `set`, `setOn` and `flip` build the field mask in an `int`.

  /** The 64-bit mask `set`, `setOn` and `flip` apply, as written:
      `((0x1 << bits) - 1) << (slot & 7)` is an `int` expression, so it is
      computed in 32 bits, and when a set bit 31 makes it negative it widens
      to `uint64_t` with bits 32..63 all set. It agrees with the intended
      mask only while the field ends below bit 32 of the window. */
  function IntMaskAsWritten(shift: bv64, bits: bv64): (m: bv64)
    requires shift < 8 && bits < 31
    ensures bits + shift <= 31 ==> m == FieldMask64(shift, bits)
    ensures bits + shift >= 32 ==> m >> 32 == 0xFFFF_FFFF
  {
    var t: bv32 := (((1 as bv32) << bits) - 1) << shift;
    if t & 0x8000_0000 != 0 then (t as bv64) | 0xFFFF_FFFF_0000_0000 else t as bv64
  }

  /** A 30-bit field at bit 2 of its window: as written the mask covers bit
      40, outside the field, so `set` clears it, `setOn` sets it and `flip`
      negates it; the intended mask stops at bit 31. */
  lemma IntMaskAsWrittenSpills()
    ensures IntMaskAsWritten(2, 30) == 0xFFFF_FFFF_FFFF_FFFC
    ensures FieldMask64(2, 30) == 0xFFFF_FFFC
    ensures (IntMaskAsWritten(2, 30) >> 40) & 1 == 1 && (FieldMask64(2, 30) >> 40) & 1 == 0
  {
  }
}
