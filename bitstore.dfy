/**
  The bit array `bitstore`: `bytes` (the source's `array`) holds the bits,
  eight to a byte, bit `s` at bit `s & 7` of byte `s >> 3`, and `size` is the
  number of bytes the store allocated itself (0 for a wrapped array). Every operation is proved
  against the bit view `Bits` of module BitstoreBits.
*/
module BitstoreModel {
  import opened BitstoreBits

  /** The bytes `alloc` fills with: all ones for `true`, all zeros for `false`. */
  function FillByte(value: bool): (b: bv8)
    ensures forall u :: 0 <= u < 8 ==> Bit8(b, u) == value
  {
    FillBitsAll();
    if value then 0xFF else 0x00
  }

  lemma FillBitsAll()
    ensures forall u :: 0 <= u < 8 ==> Bit8(0xFF, u) && !Bit8(0, u)
  {
    forall u | 0 <= u < 8
      ensures Bit8(0xFF, u) && !Bit8(0, u)
    {
      FillBits(u);
    }
  }

  class Bitstore {
    var bytes: array<bv8>
    var size: nat

    /** The bits of the store. */
    function View(): seq<bool>
      reads this, bytes
    {
      Bits(bytes[..])
    }

    ghost predicate Valid()
      reads this
    {
      size <= bytes.Length
    }

    /** `bitstore()`: no array (an empty one here) and size 0. */
    constructor ()
      ensures Valid() && size == 0 && bytes.Length == 0 && fresh(bytes)
    {
      bytes := new bv8[0];
      size := 0;
    }

    /** `bitstore(bits, value)`: size 0, then `alloc(bits, value)`. */
    constructor Filled(bits: nat, value: bool)
      ensures Valid() && size == BytesFor(bits) && bytes.Length == size
      ensures forall s :: 0 <= s < 8 * size ==> View()[s] == value
      ensures fresh(bytes)
    {
      bytes := new bv8[0];
      size := 0;
      new;
      Alloc(bits, value);
    }

    /** `bitstore(pointer)`: wraps the given bytes with size 0. */
    constructor Wrap(pointer: array<bv8>)
      ensures Valid() && bytes == pointer && size == 0
    {
      bytes := pointer;
      size := 0;
    }

    /** `alloc(bits, value)`: `ceil(bits / 8)` more bytes, each bit equal to
        `value`, after the `size` bytes already held. The bytes the store
        held are kept, which the source does not do (see README). */
    method Alloc(bits: nat, value: bool)
      requires Valid()
      modifies this
      ensures Valid() && fresh(bytes)
      ensures size == old(size) + BytesFor(bits) && bytes.Length == size
      ensures bytes[..old(size)] == old(bytes[..size])
      ensures forall s :: 8 * old(size) <= s < 8 * size ==> View()[s] == value
    {
      var byteSize := bits / 8 + (if bits % 8 != 0 then 1 else 0);
      var newSize := size + byteSize;
      var setValue := FillByte(value);
      var a := new bv8[newSize];
      var i := 0;
      while i < size
        modifies a
        invariant i <= size <= bytes.Length
        invariant a[..i] == bytes[..i]
      {
        a[i] := bytes[i];
        i := i + 1;
      }
      var slot := size;
      while slot < newSize
        modifies a
        invariant size <= slot <= newSize
        invariant a[..size] == bytes[..size]
        invariant forall k :: size <= k < slot ==> a[k] == setValue
      {
        a[slot] := setValue;
        slot := slot + 1;
      }
      FilledBits(a[..], size, setValue, value);
      bytes := a;
      size := newSize;
    }

    /** The bits of bytes `from ..` of `a`, all equal to `b`, are all `value`. */
    static lemma FilledBits(a: seq<bv8>, from: nat, b: bv8, value: bool)
      requires from <= |a| && forall k :: from <= k < |a| ==> a[k] == b
      requires forall u :: 0 <= u < 8 ==> Bit8(b, u) == value
      ensures forall s :: 8 * from <= s < 8 * |a| ==> Bits(a)[s] == value
    {
      forall s | 8 * from <= s < 8 * |a|
        ensures Bits(a)[s] == value
      {
        BitAtByte(a, s, s / 8, s % 8);
      }
    }

    // -------------------------------------------------------------------------
    // Single bits

    /** `get(slot)`: bit `slot & 7` of byte `slot >> 3`. */
    function Get(slot: nat): (r: bool)
      requires slot < 8 * bytes.Length
      reads this, bytes
      ensures r == View()[slot]
    {
      Bit8(bytes[slot / 8], slot % 8)
    }

    /** `operator[](slot)`: the same bit as `get(slot)`. */
    function Index(slot: nat): (r: bool)
      requires slot < 8 * bytes.Length
      reads this, bytes
      ensures r == View()[slot]
    {
      Get(slot)
    }

    /** `set(slot, value)`: `setOn` for `true`, `setOff` for `false`. */
    method Set(slot: nat, value: bool)
      requires slot < 8 * bytes.Length
      modifies bytes
      ensures View() == old(View())[slot := value]
    {
      if value == true {
        SetOn(slot);
        return;
      } else {
        SetOff(slot);
        return;
      }
    }

    /** `setOn(slot)`: `|=` the bit's mask. */
    method SetOn(slot: nat)
      requires slot < 8 * bytes.Length
      modifies bytes
      ensures View() == old(View())[slot := true]
    {
      var k, t := slot / 8, slot % 8;
      var b := bytes[k] | Mask8(t);
      OrMaskBits(bytes[k], t, b);
      OneBitChanged(bytes[..], slot, true, b);
      bytes[k] := b;
      assert bytes[..] == old(bytes[..])[k := b];
    }

    /** `setOff(slot)`: `&=` the complement of the bit's mask. */
    method SetOff(slot: nat)
      requires slot < 8 * bytes.Length
      modifies bytes
      ensures View() == old(View())[slot := false]
    {
      var k, t := slot / 8, slot % 8;
      var b := bytes[k] & !Mask8(t);
      AndNotMaskBits(bytes[k], t, b);
      OneBitChanged(bytes[..], slot, false, b);
      bytes[k] := b;
      assert bytes[..] == old(bytes[..])[k := b];
    }

    /** `flip(slot)`: `^=` the bit's mask. */
    method Flip(slot: nat)
      requires slot < 8 * bytes.Length
      modifies bytes
      ensures View() == old(View())[slot := !old(View())[slot]]
    {
      var k, t := slot / 8, slot % 8;
      var b := bytes[k] ^ Mask8(t);
      XorMaskBits(bytes[k], t, b);
      BitAtByte(bytes[..], slot, k, t);
      OneBitChanged(bytes[..], slot, !Bit8(bytes[k], t), b);
      bytes[k] := b;
      assert bytes[..] == old(bytes[..])[k := b];
    }

    /** Byte `slot / 8` of `a` replaced by `b`, whose bit `slot % 8` is `v`
        and whose other bits are kept: the bit view changes at `slot`
        alone. */
    static lemma OneBitChanged(a: seq<bv8>, slot: nat, v: bool, b: bv8)
      requires slot < 8 * |a|
      requires forall u :: 0 <= u < 8 ==> Bit8(b, u) == if u == slot % 8 then v else Bit8(a[slot / 8], u)
      ensures Bits(a[slot / 8 := b]) == Bits(a)[slot := v]
    {
      var a' := a[slot / 8 := b];
      forall s | 0 <= s < 8 * |a|
        ensures Bits(a')[s] == Bits(a)[slot := v][s]
      {
        BitAtByte(a, s, s / 8, s % 8);
        BitAtByte(a', s, s / 8, s % 8);
      }
    }

    // -------------------------------------------------------------------------
    // Fields of several bits

    /** `get(slot, bits)`: the field of `bits` bits at bit `slot`, as a
        number. */
    function GetField(slot: nat, bits: nat): (r: nat)
      requires bits < 31 && slot + bits <= 8 * bytes.Length
      reads this, bytes
      ensures r < Pow2(bits)
      ensures forall i :: 0 <= i < bits ==> NatBit(r, i) == Get(slot + i)
    {
      FieldValueBits(View(), slot, bits);
      FieldValue(View(), slot, bits)
    }

    /** `set(slot, bits, value)`: clear the field through its mask, then
        `|=` the shifted value, byte by byte over the 8-byte window. */
    method SetField(slot: nat, bits: nat, value: nat)
      requires bits < 31 && slot + bits <= 8 * bytes.Length && value < Pow2(bits)
      modifies bytes
      ensures View() == FieldWritten(old(View()), slot, bits, value)
      ensures GetField(slot, bits) == value
    {
      forall k | slot / 8 <= k < bytes.Length && k < slot / 8 + 8 {
        bytes[k] := (bytes[k] & !FieldMaskByte(slot, bits, k)) | FieldValueByte(slot, bits, value, k);
      }
      WrittenBits(old(bytes[..]), bytes[..], slot, bits, value);
      FieldRoundTrip(old(View()), slot, bits, value);
    }

    /** `setOn(slot, bits)`: `|=` the field mask. */
    method SetFieldOn(slot: nat, bits: nat)
      requires bits < 31 && slot + bits <= 8 * bytes.Length
      modifies bytes
      ensures View() == FieldSetTo(old(View()), slot, bits, true)
    {
      forall k | slot / 8 <= k < bytes.Length && k < slot / 8 + 8 {
        bytes[k] := bytes[k] | FieldMaskByte(slot, bits, k);
      }
      SetToBits(old(bytes[..]), bytes[..], slot, bits, true);
    }

    /** `setOff(slot, bits)`: `&=` the complement of the field mask. */
    method SetFieldOff(slot: nat, bits: nat)
      requires bits < 31 && slot + bits <= 8 * bytes.Length
      modifies bytes
      ensures View() == FieldSetTo(old(View()), slot, bits, false)
    {
      forall k | slot / 8 <= k < bytes.Length && k < slot / 8 + 8 {
        bytes[k] := bytes[k] & !FieldMaskByte(slot, bits, k);
      }
      SetToBits(old(bytes[..]), bytes[..], slot, bits, false);
    }

    /** `flip(slot, bits)`: `^=` the field mask. */
    method FlipField(slot: nat, bits: nat)
      requires bits < 31 && slot + bits <= 8 * bytes.Length
      modifies bytes
      ensures View() == FieldFlipped(old(View()), slot, bits)
    {
      forall k | slot / 8 <= k < bytes.Length && k < slot / 8 + 8 {
        bytes[k] := bytes[k] ^ FieldMaskByte(slot, bits, k);
      }
      FlippedBits(old(bytes[..]), bytes[..], slot, bits);
    }

    /** The bytes of the window rewritten by `set(slot, bits, value)`. */
    static lemma WrittenBits(a: seq<bv8>, a': seq<bv8>, slot: nat, bits: nat, value: nat)
      requires bits < 31 && slot + bits <= 8 * |a| && |a'| == |a|
      requires forall k :: 0 <= k < |a| ==>
        a'[k] == (if InWindow(slot, |a|, k) then (a[k] & !FieldMaskByte(slot, bits, k)) | FieldValueByte(slot, bits, value, k) else a[k])
      ensures Bits(a') == FieldWritten(Bits(a), slot, bits, value)
    {
      forall s | 0 <= s < 8 * |a|
        ensures Bits(a')[s] == FieldWritten(Bits(a), slot, bits, value)[s]
      {
        var k, u := s / 8, s % 8;
        BitAtByte(a, s, k, u);
        BitAtByte(a', s, k, u);
        FieldInWindow(slot, bits, |a|, s);
        if InWindow(slot, |a|, k) {
          WrittenBitAt(a[k], a'[k], slot, bits, value, k, u);
        }
      }
    }

    /** The bytes of the window rewritten by `setOn` (`v`) or `setOff` (`!v`). */
    static lemma SetToBits(a: seq<bv8>, a': seq<bv8>, slot: nat, bits: nat, v: bool)
      requires bits < 31 && slot + bits <= 8 * |a| && |a'| == |a|
      requires forall k :: 0 <= k < |a| ==>
        a'[k] == (if !InWindow(slot, |a|, k) then a[k]
                  else if v then a[k] | FieldMaskByte(slot, bits, k) else a[k] & !FieldMaskByte(slot, bits, k))
      ensures Bits(a') == FieldSetTo(Bits(a), slot, bits, v)
    {
      forall s | 0 <= s < 8 * |a|
        ensures Bits(a')[s] == FieldSetTo(Bits(a), slot, bits, v)[s]
      {
        var k, u := s / 8, s % 8;
        BitAtByte(a, s, k, u);
        BitAtByte(a', s, k, u);
        FieldInWindow(slot, bits, |a|, s);
        if InWindow(slot, |a|, k) {
          SetToBitAt(a[k], a'[k], slot, bits, v, k, u);
        }
      }
    }

    /** The bytes of the window rewritten by `flip(slot, bits)`. */
    static lemma FlippedBits(a: seq<bv8>, a': seq<bv8>, slot: nat, bits: nat)
      requires bits < 31 && slot + bits <= 8 * |a| && |a'| == |a|
      requires forall k :: 0 <= k < |a| ==>
        a'[k] == (if InWindow(slot, |a|, k) then a[k] ^ FieldMaskByte(slot, bits, k) else a[k])
      ensures Bits(a') == FieldFlipped(Bits(a), slot, bits)
    {
      forall s | 0 <= s < 8 * |a|
        ensures Bits(a')[s] == FieldFlipped(Bits(a), slot, bits)[s]
      {
        var k, u := s / 8, s % 8;
        BitAtByte(a, s, k, u);
        BitAtByte(a', s, k, u);
        FieldInWindow(slot, bits, |a|, s);
        if InWindow(slot, |a|, k) {
          FlippedBitAt(a[k], a'[k], slot, bits, k, u);
        }
      }
    }

    /** Bit `u` of byte `k` of the window after `set(slot, bits, value)`. */
    static lemma WrittenBitAt(b: bv8, b': bv8, slot: nat, bits: nat, value: nat, k: nat, u: nat)
      requires u < 8 && b' == (b & !FieldMaskByte(slot, bits, k)) | FieldValueByte(slot, bits, value, k)
      ensures Bit8(b', u) == if InField(slot, bits, 8 * k + u) then FieldBit(slot, bits, value, 8 * k + u) else Bit8(b, u)
    {
      BitOfMerge(b, FieldMaskByte(slot, bits, k), FieldValueByte(slot, bits, value, k), u);
      FieldMaskByteBit(slot, bits, k, u);
      FieldValueByteBit(slot, bits, value, k, u);
    }

    /** Bit `u` of byte `k` of the window after `setOn` (`v`) or `setOff` (`!v`). */
    static lemma SetToBitAt(b: bv8, b': bv8, slot: nat, bits: nat, v: bool, k: nat, u: nat)
      requires u < 8
      requires b' == if v then b | FieldMaskByte(slot, bits, k) else b & !FieldMaskByte(slot, bits, k)
      ensures Bit8(b', u) == if InField(slot, bits, 8 * k + u) then v else Bit8(b, u)
    {
      BitOfOr(b, FieldMaskByte(slot, bits, k), u);
      BitOfAndNot(b, FieldMaskByte(slot, bits, k), u);
      FieldMaskByteBit(slot, bits, k, u);
    }

    /** Bit `u` of byte `k` of the window after `flip(slot, bits)`. */
    static lemma FlippedBitAt(b: bv8, b': bv8, slot: nat, bits: nat, k: nat, u: nat)
      requires u < 8 && b' == b ^ FieldMaskByte(slot, bits, k)
      ensures Bit8(b', u) == if InField(slot, bits, 8 * k + u) then !Bit8(b, u) else Bit8(b, u)
    {
      BitOfXor(b, FieldMaskByte(slot, bits, k), u);
      FieldMaskByteBit(slot, bits, k, u);
    }

    // -------------------------------------------------------------------------
    // Reset

    /** `setAll(value)`: every one of the `size` bytes filled with all ones or
        all zeros; bytes past `size` are not touched. */
    method SetAll(value: bool)
      requires Valid()
      modifies bytes
      ensures forall s :: 0 <= s < 8 * size ==> View()[s] == value
      ensures bytes[size..] == old(bytes[size..])
    {
      var setValue := FillByte(value);
      var slot := 0;
      while slot < size
        invariant slot <= size
        invariant forall k :: 0 <= k < slot ==> bytes[k] == setValue
        invariant bytes[size..] == old(bytes[size..])
      {
        bytes[slot] := setValue;
        slot := slot + 1;
      }
      FilledPrefix(bytes[..], size, setValue, value);
    }

    /** The bits of bytes `.. n-1` of `a`, all equal to `b`, are all `value`. */
    static lemma FilledPrefix(a: seq<bv8>, n: nat, b: bv8, value: bool)
      requires n <= |a| && forall k :: 0 <= k < n ==> a[k] == b
      requires forall u :: 0 <= u < 8 ==> Bit8(b, u) == value
      ensures forall s :: 0 <= s < 8 * n ==> Bits(a)[s] == value
    {
      forall s | 0 <= s < 8 * n
        ensures Bits(a)[s] == value
      {
        BitAtByte(a, s, s / 8, s % 8);
      }
    }
  }
}
