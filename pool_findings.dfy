/**
  `Pool<T>` as its code is written, where that differs from what the code's
  own comments and arithmetic intend. Each definition here is paired with a
  lemma that exhibits the difference on a small input; the intended behaviour
  is the one module PoolModel implements and proves.
*/
module PoolFindings {
  import opened Wrappers
  import opened Bits32
  import opened SlotSpec
  import opened SlotBitmap

  // ---------------------------------------------------------------------------
  // The slot index scales the word index by 8 (`<< 3`) although a word holds
  // 32 slots.

  /** The slot number `allocate`, `findUsed` and `iterate` report for bit `bit`
      of word `word`: the word offset shifted left by 3. */
  function SlotIndexAsWritten(word: nat, bit: Idx): (s: nat)
    ensures s == SlotIndex(word, bit) <==> word == 0
  {
    8 * word + bit as int
  }

  /** Two different bits of the bitmap are reported as the same slot: bit 0 of
      word 1 (slot 32) and bit 8 of word 0 (slot 8) both come out as 8. */
  lemma SlotIndexAsWrittenCollides()
    ensures SlotIndexAsWritten(1, 0) == SlotIndexAsWritten(0, 8) == 8
    ensures SlotIndex(1, 0) == 32 && SlotIndex(0, 8) == 8
  {
  }

  // ---------------------------------------------------------------------------
  // `allocate` does not compare the claimed bit with the capacity, so it hands
  // out the padding bits of the last word.

  /** The word `allocate`'s loop stops on, from word `from`: the first one
      that is not full, padding bits counting as clear. */
  function NonFullAsWritten(ws: seq<bv32>, from: nat): (r: Option<nat>)
    ensures r.Some? ==> from <= r.value < |ws| && ws[r.value] != FULL
    ensures forall k :: from <= k < |ws| && (r.None? || k < r.value) ==> ws[k] == FULL
    decreases |ws| - from
  {
    if from >= |ws| then None
    else if ws[from] != FULL then Some(from)
    else NonFullAsWritten(ws, from + 1)
  }

  /** `*used_ptr |= *used_ptr + 1` on word `i`, which sets bit `b`: slot
      `SlotIndex(i, b)` was free and is now used, and no other slot changes. */
  lemma ClaimAddsSlot(ws: seq<bv32>, i: nat, b: Idx, w: bv32)
    requires i < |ws| && !Bit(ws[i], b)
    requires forall j: Idx :: Bit(w, j) == (Bit(ws[i], j) || j == b)
    ensures !SlotUsed(ws, SlotIndex(i, b))
    ensures forall s :: SlotUsed(ws[i := w], s) == (SlotUsed(ws, s) || s == SlotIndex(i, b))
  {
    forall s: nat
      ensures SlotUsed(ws[i := w], s) == (SlotUsed(ws, s) || s == SlotIndex(i, b))
    {
      SlotUsedUpdate(ws, i, w, s);
      SlotIndexBijective(i, b, s / 32, ToIdx(s % 32), s);
    }
    var s := SlotIndex(i, b);
    SlotIndexBijective(i, b, s / 32, ToIdx(s % 32), s);
  }

  /** One claim as written, starting at word `from`: the lowest clear bit of the
      first word that is not full, whatever the capacity. */
  function ClaimAsWritten(ws: seq<bv32>, from: nat): (r: Option<nat>)
    ensures r.Some? ==> from <= r.value / 32 < |ws| && !SlotUsed(ws, r.value)
    ensures r.None? <==> forall k :: from <= k < |ws| ==> ws[k] == FULL
  {
    match NonFullAsWritten(ws, from)
    case None => None
    case Some(i) =>
      var b := LowestZero(ws[i]);
      ClaimStep(ws[i], b, ws[i] | (ws[i] + 1));
      ClaimAddsSlot(ws, i, b, ws[i] | (ws[i] + 1));
      Some(SlotIndex(i, b))
  }

  /** A one-slot pool whose slot 0 is used: as written the claim returns
      slot 1, a padding bit past the capacity; the intended pool is full. */
  lemma ClaimAsWrittenPastCapacity()
    ensures ClaimAsWritten([1], 0) == Some(1)
    ensures UsedSlots([1], 1) == {0} && LowestFree({0}, 1) == None
  {
    assert LowestZeroFrom(1, 0) == 1;
    assert SlotUsed([1], 0);
    assert UsedSlots([1], 1) == {0};
    assert FreeSlots({0}, 1) == {};
  }

  // ---------------------------------------------------------------------------
  // `allocate(count)` keeps the slots it claimed when it runs out part way and
  // reports the last slot it claimed rather than the first.

  /** `allocate(count)` as written, on the bitmap words from cursor word
      `from`: each claim sets the lowest clear bit of the first word from the
      current one that is not full (`goto AllocateMore` retries the same
      word), padding bits included. When no such word is left the claims made
      so far stay and the result is `POOL_ERROR` (None); otherwise the result
      is the slot of the last claim, numbered `32 * word + bit` (the `<< 3`
      numbering is the finding above). Claims only add used slots, and a
      failed call leaves every word from the cursor full. */
  function AllocateBatchAsWritten(ws: seq<bv32>, from: nat, count: nat): (r: (seq<bv32>, Option<nat>))
    ensures |r.0| == |ws|
    ensures forall s :: SlotUsed(ws, s) ==> SlotUsed(r.0, s)
    ensures r.1.Some? ==> !SlotUsed(ws, r.1.value) && SlotUsed(r.0, r.1.value)
    ensures r.1.None? && count > 0 ==> forall k :: from <= k < |ws| ==> r.0[k] == FULL
    ensures forall k :: 0 <= k < from && k < |ws| ==> r.0[k] == ws[k]
    decreases count
  {
    if count == 0 then (ws, None)
    else match NonFullAsWritten(ws, from)
      case None => (ws, None)
      case Some(i) =>
        var b := LowestZero(ws[i]);
        var w := ws[i] | (ws[i] + 1);
        ClaimStep(ws[i], b, w);
        ClaimAddsSlot(ws, i, b, w);
        if count == 1 then (ws[i := w], Some(SlotIndex(i, b)))
        else AllocateBatchAsWritten(ws[i := w], i, count - 1)
  }

  /** A 32-slot pool, no padding, with slots 0 to 30 used, asked for two
      slots: as written slot 31 is claimed and stays used although the call
      fails; the intended call changes nothing. */
  lemma AllocateBatchAsWrittenLeaks()
    ensures AllocateBatchAsWritten([0x7FFF_FFFF], 0, 2) == ([FULL], None)
    ensures !SlotUsed([0x7FFF_FFFF], 31) && SlotUsed([FULL], 31)
    ensures AllocateBatch(UsedSlots([0x7FFF_FFFF], 32), 32, 2) == (UsedSlots([0x7FFF_FFFF], 32), None)
  {
    var ws: seq<bv32> := [0x7FFF_FFFF];
    LowestZeroOfTop();
    assert NonFullAsWritten(ws, 0) == Some(0);
    var full: seq<bv32> := [FULL];
    assert ws[0 := FULL] == full;
    assert NonFullAsWritten(full, 0) == None;
    assert AllocateBatchAsWritten(full, 0, 1) == (full, None);
    assert FreeSlots(UsedSlots(ws, 32), 32) == {31} by {
      forall s: nat | s < 31
        ensures SlotUsed(ws, s)
      {
        IdxLess(ToIdx(s), 31);
        TopClearOnly(ToIdx(s));
      }
      TopClearOnly(31);
    }
  }

  /** Bit 31 is the lowest clear bit of `0x7FFF_FFFF`, and setting it fills
      the word. */
  lemma LowestZeroOfTop()
    ensures LowestZero(0x7FFF_FFFF) == 31
    ensures 0x7FFF_FFFF | (0x7FFF_FFFF + 1) == FULL
  {
    var b := LowestZero(0x7FFF_FFFF);
    assert 0x7FFF_FFFF & Mask(b) == 0;
  }

  /** Bit `j` of `0x7FFF_FFFF` is set exactly below 31. */
  lemma TopClearOnly(j: Idx)
    ensures Bit(0x7FFF_FFFF, j) <==> j < 31
  {
  }

  /** An empty two-slot pool asked for two slots: as written the result is
      slot 1, the last one claimed; the intended result is slot 0. */
  lemma AllocateBatchAsWrittenReturnsLast()
    ensures UsedSlots([0], 2) == {}
    ensures AllocateBatchAsWritten([0], 0, 2) == ([3], Some(1))
    ensures AllocateBatch({}, 2, 2).1 == Some(0)
  {
    var ws0: seq<bv32>, ws1: seq<bv32>, ws2: seq<bv32> := [0], [1], [3];
    assert LowestZeroFrom(0, 0) == 0 && LowestZero(0) == 0;
    assert LowestZeroFrom(1, 0) == 1 && LowestZero(1) == 1;
    assert NonFullAsWritten(ws0, 0) == Some(0);
    assert ws0[0 := 1] == ws1 && ws1[0 := 3] == ws2;
    assert NonFullAsWritten(ws1, 0) == Some(0);
    assert SlotIndex(0, 1) == 1;
    assert AllocateBatchAsWritten(ws1, 0, 1) == (ws2, Some(1));
    assert FreeSlots({}, 2) == {0, 1};
    assert LowestFrom({}, 2, 0, false) == Some(0);
    assert ClaimLowest({}, 2, 1) == {0};
    assert LowestFrom({0}, 2, 1, false) == Some(1);
    forall s: nat | s < 2
      ensures !SlotUsed([0], s)
    {
    }
  }

  // ---------------------------------------------------------------------------
  // `create` clears `used_size` bytes of the bitmap, a quarter of its words.

  /** The bits a `memset` of `k` bytes (1 <= k <= 3) clears in a little-endian
      word, as the mask of the bits it keeps. */
  function KeepAbove(k: nat): bv32
    requires 1 <= k <= 3
  {
    if k == 1 then 0xFFFF_FF00 else if k == 2 then 0xFFFF_0000 else 0xFF00_0000
  }

  /** The bitmap a new allocation holding `garbage` looks like after
      `memset(used, 0, bytes)`: whole words below byte `bytes` are zero, the
      word it ends in is partly cleared, the rest is unchanged. */
  function ClearedAsWritten(garbage: seq<bv32>, bytes: nat): (ws: seq<bv32>)
    ensures |ws| == |garbage|
    ensures forall i :: 0 <= i < |ws| && 4 * i >= bytes ==> ws[i] == garbage[i]
  {
    seq(|garbage|, (i: int) requires 0 <= i && i < |garbage| =>
      if 4 * (i + 1) <= bytes then 0
      else if 4 * i >= bytes then garbage[i]
      else garbage[i] & KeepAbove(bytes - 4 * i))
  }

  /** A 64-slot pool over an allocation that held all ones: `used_size` is 2,
      so only the low 16 bits of word 0 are cleared and slot 16 reads as used
      in the new pool; the intended `create` leaves no slot used. */
  lemma ClearedAsWrittenLeavesUsed()
    ensures WordsFor(64) == 2
    ensures ClearedAsWritten([FULL, FULL], 2) == [0xFFFF_0000, FULL]
    ensures 16 in UsedSlots(ClearedAsWritten([FULL, FULL], 2), 64)
  {
    var ws := ClearedAsWritten([FULL, FULL], 2);
    assert ws[0] == 0xFFFF_0000;
    assert ToIdx(16) == 16;
    assert Bit(0xFFFF_0000, 16);
    assert SlotUsed(ws, 16);
  }

  // ---------------------------------------------------------------------------
  // `create` sets `initialised` after a failed allocation has destroyed the
  // pool, so the pool can never be created again.

  /** What `create` leaves: whether the pool is initialised and its capacity. */
  datatype Lifecycle = Lifecycle(initialised: bool, size: nat)

  /** `create(n)` as written: an initialised pool is left alone; otherwise a
      failed allocation destroys the pool (capacity 0) and the pool is marked
      initialised in both cases. */
  function CreateAsWritten(s: Lifecycle, n: nat, allocFails: bool): (r: Lifecycle)
    ensures r.initialised
  {
    if s.initialised then s
    else if allocFails then Lifecycle(true, 0)
    else Lifecycle(true, n)
  }

  /** Once an allocation has failed, a later `create(8)` that would succeed
      does nothing: the pool stays initialised with no slots. */
  lemma CreateAsWrittenSticks()
    ensures CreateAsWritten(CreateAsWritten(Lifecycle(false, 0), 8, true), 8, false) == Lifecycle(true, 0)
  {
  }

  // ---------------------------------------------------------------------------
  // `deallocate` decrements `used_count` even for a slot that is already free.

  /** `size_t`'s largest value; `used_count` wraps to it below zero. */
  const SIZE_MAX: nat := 0xFFFF_FFFF_FFFF_FFFF

  /** `used_count` after `deallocate(slot)` as written on an initialised pool of
      `n` slots: one less, modulo 2^64, for every slot in range. */
  function DeallocateCountAsWritten(count: nat, n: nat, slot: nat): (r: nat)
    requires count <= SIZE_MAX
    ensures r <= SIZE_MAX
    ensures slot < n && count > 0 ==> r == count - 1
  {
    if slot >= n then count else (count + SIZE_MAX) % (SIZE_MAX + 1)
  }

  /** Freeing slot 0 of an empty one-slot pool: no slot is used, yet the count
      wraps to `SIZE_MAX`; the intended count stays `|used|`, 0. */
  lemma DeallocateCountAsWrittenWraps()
    ensures UsedSlots([0], 1) == {}
    ensures DeallocateCountAsWritten(|UsedSlots([0], 1)|, 1, 0) == SIZE_MAX
  {
    assert !SlotUsed([0], 0) by {
      ZeroBits(0);
    }
    assert UsedSlots([0], 1) == {};
  }

  // ---------------------------------------------------------------------------
  // `while (used_ptr++ != used_end) if (*used_ptr)` steps before it reads, so
  // `findUsed` and `iterate` skip their first word and read one word past the
  // end of the bitmap.

  /** The word offsets the scan loop reads, starting from offset `from` in a
      bitmap of `usedSize` words: `from + 1` up to and including `usedSize`. */
  function ScannedWordsAsWritten(from: nat, usedSize: nat): (r: seq<nat>)
    ensures from < usedSize ==> |r| == usedSize - from && r[|r| - 1] == usedSize
    ensures forall k :: 0 <= k < |r| ==> r[k] == from + 1 + k
    decreases usedSize - from
  {
    if from >= usedSize then [] else [from + 1] + ScannedWordsAsWritten(from + 1, usedSize)
  }

  /** A pool of one word (at most 32 slots), scanned from the start: the only
      word read is word 1, past the end, and word 0 is never read. */
  lemma ScannedWordsAsWrittenSkipsFirst()
    ensures ScannedWordsAsWritten(0, 1) == [1]
  {
  }
}
