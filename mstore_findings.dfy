/**
  `mstore<T>` as its code is written, where that differs from what the code's
  own comments and arithmetic intend. Each definition here is paired with a
  lemma that exhibits the difference on a small input; the intended behaviour
  is the one module MStoreModel implements and proves.
*/
module MStoreFindings {
  import opened Wrappers
  import opened Bits32
  import opened SlotSpec
  import opened SlotBitmap
  import opened MStoreWords

  // ---------------------------------------------------------------------------
  // `resize` computes `fsize` in bytes, and the rest of the class reads it as
  // a number of words.

  /** `new_fsize` as `resize` computes it: the words needed, times
      `sizeof(msfree_t)`, a byte count. */
  function FreeSizeAsWritten(n: nat): (r: nat)
    ensures r == 8 * FreeWordsFor(n)
  {
    (n / 64 + (if n % 64 != 0 then 1 else 0)) * 8
  }

  /** As a word count, which `allocate` and `iterate` take it for, the size is
      eight times the words the free array holds as soon as there is a slot,
      so both loops run past the end of the array. */
  lemma {:induction false} FreeSizeAsWrittenOverruns(n: nat)
    requires n > 0
    ensures FreeSizeAsWritten(n) >= FreeWordsFor(n) + 7
  {
    assert FreeWordsFor(n) >= 1;
  }

  /** The word at which the `memset` of a growing `resize` from `n` slots
      starts: `free + fsize` offsets the word pointer by the byte count. */
  function GrowStartAsWritten(n: nat): (k: nat)
    ensures n > 0 ==> k > FreeWordsFor(n)
  {
    FreeSizeAsWritten(n)
  }

  /** Growing from 64 to 128 slots: the free array holds two words, and the
      `memset` that should mark word 1 free starts at word 8. */
  lemma GrowStartAsWrittenOutside()
    ensures FreeWordsFor(128) == 2 && GrowStartAsWritten(64) == 8
    ensures FreeWordsFor(64) == 1
  {
  }

  // ---------------------------------------------------------------------------
  // `allocate` counts the words left as `fsize - (free - last)`.

  /** The number of words `allocate` scans from cursor word `k` of `f`
      words: `free - last` is `-k`, so the count is `f + k`. */
  function ScanCountAsWritten(f: nat, k: nat): (c: nat)
    ensures k > 0 ==> k + c > f
    ensures c >= f - k
  {
    f + k
  }

  /** With the cursor on word 1 of two words the scan is to cover one word,
      and as written it covers three, the last two past the array. */
  lemma ScanCountAsWrittenOverruns()
    ensures ScanCountAsWritten(2, 1) == 3
    ensures 1 + ScanCountAsWritten(2, 1) - 1 >= 2
  {
  }

  // ---------------------------------------------------------------------------
  // The slot number divides the word offset by `sizeof(msfree_t)` instead of
  // multiplying it by 64.

  /** The slot `allocate` reports for bit `b` of word `k`: `b + k / 8`. */
  function SlotAsWritten(k: nat, b: nat): (s: nat)
    ensures b < 64 && 0 < k ==> s < 64 * k + b
  {
    b + k / 8
  }

  /** Bit 1 of word 0 and bit 0 of word 8 are slots 1 and 512, and as written
      both are reported as slot 1. */
  lemma SlotAsWrittenCollides()
    ensures SlotAsWritten(0, 1) == SlotAsWritten(8, 0) == 1
    ensures 64 * 0 + 1 == 1 && 64 * 8 + 0 == 512
  {
  }

  // ---------------------------------------------------------------------------
  // A failed `allocate` returns 0, which is also a slot number.

  /** The value `allocate` returns, as written: the slot, or 0 when none was
      found. */
  function AllocateResultAsWritten(r: Option<nat>): (v: nat)
    ensures r.Some? ==> v == r.value
    ensures r.None? ==> v == 0
  {
    match r
    case Some(s) => s
    case None => 0
  }

  /** A one-slot store: claiming in the empty store yields slot 0, claiming in
      the full store yields nothing, and as written both calls return 0. */
  lemma FailureLooksLikeSlotZero()
    ensures AllocateBatch({}, 1, 1).1 == Some(0)
    ensures AllocateBatch({0}, 1, 1).1 == None
    ensures AllocateResultAsWritten(AllocateBatch({}, 1, 1).1) == AllocateResultAsWritten(AllocateBatch({0}, 1, 1).1)
  {
    assert FreeSlots({}, 1) == {0};
    assert LowestFrom({}, 1, 0, false) == Some(0);
    assert FreeSlots({0}, 1) == {};
  }

  // ---------------------------------------------------------------------------
  // `allocate` does not compare the slot it finds with `dsize`, so it hands out
  // the free padding bits of the last word.

  /** The claim `allocate` makes as written, from word `k` of the free halves
      `fs`: the lowest free bit of the first word with one, whatever the
      number of slots. */
  function TakeAsWritten(fs: seq<bv32>, k: nat): (r: Option<nat>)
    ensures r.Some? ==> 64 * k <= r.value < 32 * |fs|
    decreases |fs| - 2 * k
  {
    if 2 * k + 1 >= |fs| then None
    else if fs[2 * k] != 0 then Some(SlotIndex(2 * k, LowestOne(fs[2 * k])))
    else if fs[2 * k + 1] != 0 then Some(SlotIndex(2 * k + 1, LowestOne(fs[2 * k + 1])))
    else TakeAsWritten(fs, k + 1)
  }

  /** A one-slot store whose slot 0 is used: as written `allocate` returns
      slot 1, a padding bit; the intended store has no free slot. */
  lemma TakeAsWrittenPastSize()
    ensures TakeAsWritten([0xFFFF_FFFE, FULL], 0) == Some(1)
    ensures UsedSlots(Complement([0xFFFF_FFFE, FULL]), 1) == {0}
    ensures LowestFree({0}, 1) == None
  {
    assert LowestOneFrom(0xFFFF_FFFE, 0) == 1;
    var hs := Complement([0xFFFF_FFFE, FULL]);
    assert hs[0] == 1;
    assert SlotUsed(hs, 0);
    assert UsedSlots(hs, 1) == {0};
    assert FreeSlots({0}, 1) == {};
  }

  // ---------------------------------------------------------------------------
  // A shrinking `resize` keeps the free bits of the dropped slots in the last
  // word, so the slots past `dsize` that were in use stay in use.

  /** The free halves after a shrinking `resize` to `n'` slots, as written:
      the leading halves unchanged. */
  function ShrunkAsWritten(fs: seq<bv32>, n': nat): (r: seq<bv32>)
    requires 2 * FreeWordsFor(n') <= |fs|
    ensures |r| == 2 * FreeWordsFor(n') && r <= fs
  {
    fs[..2 * FreeWordsFor(n')]
  }

  /** A 64-slot store using slots 0 and 5, shrunk to one slot: as written
      slot 5 is still recorded as used, so `iterate`, which visits every used
      bit of every word, visits it; the intended store keeps only slot 0. */
  lemma ShrunkAsWrittenKeepsDropped()
    ensures ShrunkAsWritten([0xFFFF_FFDE, FULL], 1) == [0xFFFF_FFDE, FULL]
    ensures 5 in UsedSlots(Complement(ShrunkAsWritten([0xFFFF_FFDE, FULL], 1)), 64)
    ensures 5 in InOrder(UsedSlots(Complement(ShrunkAsWritten([0xFFFF_FFDE, FULL], 1)), 64), 64)
    ensures 5 !in KeptBelow(UsedSlots(Complement([0xFFFF_FFDE, FULL]), 64), 1)
  {
    var hs := Complement([0xFFFF_FFDE, FULL]);
    assert hs[0] == 0x21;
    SlotOfWord(hs, 0, 5);
    assert SlotUsed(hs, 5);
    var u := UsedSlots(hs, 64);
    assert 5 in u;
    assert Bounded(u, 64);
    InOrderExactlyOnce(u, 64);
  }
}
