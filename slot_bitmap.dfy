/**
  The packed encoding of a set of used slots in 32-bit words: bit `s % 32` of
  word `s / 32` is 1 exactly when slot `s` is used. `Pool<T>` stores its
  bitmap this way; `mstore<T>` is read this way through the complement of the
  halves of its 64-bit free words. The lemmas here connect word operations to
  the set-level specification in SlotSpec.
*/
module SlotBitmap {
  import opened Wrappers
  import opened Bits32
  import opened SlotSpec


  /** Number of 32-bit words needed for `n` slots: `(n >> 5) + ((n & 31) != 0)`. */
  function WordsFor(n: nat): (r: nat)
    ensures n <= 32 * r < n + 32
  {
    n / 32 + (if n % 32 != 0 then 1 else 0)
  }

  /** The slot that bit `bit` of word `word` stands for. */
  function SlotIndex(word: nat, bit: Idx): (s: nat)
    ensures s / 32 == word && s % 32 == bit as int
  {
    32 * word + bit as int
  }

  /** Slot `s` is marked used in the bitmap `ws`. */
  predicate SlotUsed(ws: seq<bv32>, s: nat)
  {
    s / 32 < |ws| && Bit(ws[s / 32], ToIdx(s % 32))
  }

  /** The used slots below `n` that the bitmap records. */
  ghost function UsedSlots(ws: seq<bv32>, n: nat): set<nat>
  {
    set s: nat | s < n && SlotUsed(ws, s)
  }

  /** Bits past the capacity (the tail of the last word) are never set. */
  ghost predicate PaddingClear(ws: seq<bv32>, n: nat)
  {
    forall s: nat :: SlotUsed(ws, s) ==> s < n
  }

  /** Every word before `k` is full. */
  ghost predicate FullBefore(ws: seq<bv32>, k: nat)
  {
    forall i :: 0 <= i < k && i < |ws| ==> ws[i] == FULL
  }

  // ---------------------------------------------------------------------------
  // Lemmas connecting a word to the slots it stands for

  /** Distinct (word, bit) pairs name distinct slots, and every slot has one. */
  lemma SlotIndexBijective(w1: nat, b1: Idx, w2: nat, b2: Idx, s: nat)
    ensures SlotIndex(w1, b1) == SlotIndex(w2, b2) <==> w1 == w2 && b1 == b2
    ensures SlotIndex(s / 32, ToIdx(s % 32)) == s
  {
  }

  /** The slot of bit `bit` of word `word` is used exactly when that bit is set. */
  lemma SlotOfWord(ws: seq<bv32>, word: nat, bit: Idx)
    requires word < |ws|
    ensures SlotUsed(ws, SlotIndex(word, bit)) == Bit(ws[word], bit)
  {
    var s := SlotIndex(word, bit);
    assert ToIdx(s % 32) == bit;
  }

  /** Replacing word `i` by `w` changes only the slots of word `i`. */
  lemma SlotUsedUpdate(ws: seq<bv32>, i: nat, w: bv32, s: nat)
    requires i < |ws|
    ensures SlotUsed(ws[i := w], s) == if s / 32 == i then Bit(w, ToIdx(s % 32)) else SlotUsed(ws, s)
  {
  }

  /** Setting one more bit in word `i` adds exactly its slot to the used set. */
  lemma UsedSlotsSetBit(ws: seq<bv32>, n: nat, i: nat, b: Idx, w: bv32)
    requires i < |ws| && SlotIndex(i, b) < n
    requires forall j: Idx :: Bit(w, j) == (Bit(ws[i], j) || j == b)
    ensures UsedSlots(ws[i := w], n) == UsedSlots(ws, n) + {SlotIndex(i, b)}
    ensures PaddingClear(ws, n) ==> PaddingClear(ws[i := w], n)
  {
    var ws' := ws[i := w];
    forall s: nat
      ensures SlotUsed(ws', s) == (SlotUsed(ws, s) || s == SlotIndex(i, b))
    {
      SlotUsedUpdate(ws, i, w, s);
      SlotIndexBijective(i, b, s / 32, ToIdx(s % 32), s);
    }
    assert PaddingClear(ws, n) ==> PaddingClear(ws', n);
  }

  /** Clearing one bit in word `i` removes exactly its slot from the used set. */
  lemma UsedSlotsClearBit(ws: seq<bv32>, n: nat, i: nat, b: Idx, w: bv32)
    requires i < |ws|
    requires forall j: Idx :: Bit(w, j) == (Bit(ws[i], j) && j != b)
    ensures UsedSlots(ws[i := w], n) == UsedSlots(ws, n) - {SlotIndex(i, b)}
    ensures PaddingClear(ws, n) ==> PaddingClear(ws[i := w], n)
  {
    var ws' := ws[i := w];
    forall s: nat
      ensures SlotUsed(ws', s) == (SlotUsed(ws, s) && s != SlotIndex(i, b))
    {
      SlotUsedUpdate(ws, i, w, s);
      SlotIndexBijective(i, b, s / 32, ToIdx(s % 32), s);
    }
    assert PaddingClear(ws, n) ==> PaddingClear(ws', n);
  }

  /** Words before `k` full: every slot of them below `n` is used. */
  lemma FullBeforeUsed(ws: seq<bv32>, n: nat, k: nat, s: nat)
    requires FullBefore(ws, k) && k <= |ws|
    requires s < n && s < 32 * k
    ensures s in UsedSlots(ws, n)
  {
    FullBits(ws[s / 32]);
  }

  /** A single allocation step scans from a cursor `k` with every word before it
      full. In the first word that is not full, the lowest clear bit is the
      lowest free slot of the whole pool, or, when it lies past the
      capacity, the pool has no free slot. */
  lemma FirstNonFullWord(ws: seq<bv32>, n: nat, k: nat)
    requires k < |ws| && FullBefore(ws, k) && ws[k] != FULL
    ensures var s := SlotIndex(k, LowestZero(ws[k]));
      LowestFree(UsedSlots(ws, n), n) == if s < n then Some(s) else None
  {
    var u := UsedSlots(ws, n);
    var b := LowestZero(ws[k]);
    var s := SlotIndex(k, b);
    forall t: nat | t < n && t < s
      ensures t in u
    {
      UsedBelowLowestZero(ws, n, k, b, t);
    }
    if s < n {
      LowestZeroClear(ws[k]);
      SlotOfWord(ws, k, b);
    }
    LowestFromExact(u, n, 0, false, s);
  }

  lemma UsedBelowLowestZero(ws: seq<bv32>, n: nat, k: nat, b: Idx, t: nat)
    requires k < |ws| && FullBefore(ws, k) && ws[k] != FULL && b == LowestZero(ws[k])
    requires t < n && t < SlotIndex(k, b)
    ensures t in UsedSlots(ws, n)
  {
    if t < 32 * k {
      FullBeforeUsed(ws, n, k, t);
    } else {
      var j := ToIdx(t - 32 * k);
      SlotBelowBit(k, b, t, j);
      BelowLowestZero(ws[k], j);
      SlotOfWord(ws, k, j);
    }
  }

  /** Words `start .. k-1` empty and word `k` not: the lowest set bit of word
      `k` is the lowest used slot at or after slot `32 * start`. */
  lemma FirstNonZeroWord(ws: seq<bv32>, n: nat, start: nat, k: nat)
    requires PaddingClear(ws, n)
    requires start <= k < |ws| && ws[k] != 0
    requires forall i :: start <= i < k ==> ws[i] == 0
    ensures var s := SlotIndex(k, LowestOne(ws[k]));
      s < n && LowestFrom(UsedSlots(ws, n), n, 32 * start, true) == Some(s)
  {
    var s := SlotIndex(k, LowestOne(ws[k]));
    LowestOneUsed(ws, n, k, s);
    UnusedBeforeFirst(ws, n, start, k, s);
    LowestFromExact(UsedSlots(ws, n), n, 32 * start, true, s);
  }

  /** The slot of the lowest set bit of word `k` is used, hence below the
      capacity. */
  lemma LowestOneUsed(ws: seq<bv32>, n: nat, k: nat, s: nat)
    requires PaddingClear(ws, n)
    requires k < |ws| && ws[k] != 0 && s == SlotIndex(k, LowestOne(ws[k]))
    ensures s < n && s in UsedSlots(ws, n)
  {
    LowestOneSet(ws[k]);
    SlotOfWord(ws, k, LowestOne(ws[k]));
    assert SlotUsed(ws, s);
  }

  /** No slot from `32 * start` up to the lowest set bit of word `k` is used. */
  lemma UnusedBeforeFirst(ws: seq<bv32>, n: nat, start: nat, k: nat, s: nat)
    requires start <= k < |ws| && ws[k] != 0 && s == SlotIndex(k, LowestOne(ws[k]))
    requires forall i :: start <= i < k ==> ws[i] == 0
    ensures 32 * start <= s
    ensures forall t: nat :: 32 * start <= t < n && t < s ==> t !in UsedSlots(ws, n)
  {
    forall t: nat | 32 * start <= t < s
      ensures !SlotUsed(ws, t)
    {
      UnusedBelowLowestOne(ws, start, k, LowestOne(ws[k]), t);
    }
  }

  lemma UnusedBelowLowestOne(ws: seq<bv32>, start: nat, k: nat, b: Idx, t: nat)
    requires start <= k < |ws| && ws[k] != 0 && b == LowestOne(ws[k])
    requires forall i :: start <= i < k ==> ws[i] == 0
    requires 32 * start <= t < SlotIndex(k, b)
    ensures !SlotUsed(ws, t)
  {
    if t < 32 * k {
      UnusedInEarlierWord(ws, start, k, t);
    } else {
      var j := ToIdx(t - 32 * k);
      SlotBelowBit(k, b, t, j);
      UnusedBelowBit(ws, k, ws[k], b, j);
    }
  }

  /** A slot of one of the empty words `start .. k-1` is not used. */
  lemma UnusedInEarlierWord(ws: seq<bv32>, start: nat, k: nat, t: nat)
    requires k <= |ws| && 32 * start <= t < 32 * k
    requires forall i :: start <= i < k ==> ws[i] == 0
    ensures !SlotUsed(ws, t)
  {
    assert start <= t / 32 < k;
    UnusedInZeroWord(ws, t);
  }

  /** A slot of word `k` below `SlotIndex(k, b)` is a bit of word `k` below `b`. */
  lemma SlotBelowBit(k: nat, b: Idx, t: nat, j: Idx)
    requires 32 * k <= t < SlotIndex(k, b) && j as int == t - 32 * k
    ensures t == SlotIndex(k, j) && j < b
  {
    IdxLess(j, b);
  }

  /** A slot of an empty word is not used. */
  lemma UnusedInZeroWord(ws: seq<bv32>, t: nat)
    requires t / 32 < |ws| && ws[t / 32] == 0
    ensures !SlotUsed(ws, t)
  {
    var j := ToIdx(t % 32);
    ZeroBits(ws[t / 32]);
  }

  /** A slot of word `k` below the lowest set bit `b` of `w`, where `w` agrees
      with word `k` at the slot's position, is not used. */
  lemma UnusedBelowBit(ws: seq<bv32>, k: nat, w: bv32, b: Idx, j: Idx)
    requires k < |ws| && w != 0 && b == LowestOne(w) && j < b
    requires Bit(w, j) == Bit(ws[k], j)
    ensures !SlotUsed(ws, SlotIndex(k, j))
  {
    BelowLowestOne(w, j);
    SlotOfWord(ws, k, j);
  }

  /** Words `start ..` all empty: no used slot at or after slot `32 * start`. */
  lemma NoNonZeroWord(ws: seq<bv32>, n: nat, start: nat)
    requires start <= |ws| && n <= 32 * |ws|
    requires forall i :: start <= i < |ws| ==> ws[i] == 0
    ensures LowestFrom(UsedSlots(ws, n), n, 32 * start, true) == None
  {
    var u := UsedSlots(ws, n);
    forall t: nat | 32 * start <= t < n
      ensures t !in u
    {
      UnusedInZeroWord(ws, t);
    }
    LowestFromExact(u, n, 32 * start, true, if n < 32 * start then 32 * start else n);
  }

  /** Words before `|ws|` all full: no free slot is left below `n`. */
  lemma FullBeforeNext(ws: seq<bv32>, i: nat)
    requires FullBefore(ws, i) && i < |ws| && ws[i] == FULL
    ensures FullBefore(ws, i + 1)
  {
  }

  lemma BatchSucceeds(used: set<nat>, n: nat, count: nat)
    requires 0 < count <= |FreeSlots(used, n)|
    ensures AllocateBatch(used, n, count) == (ClaimLowest(used, n, count), LowestFree(used, n))
  {
  }

  lemma AllWordsFull(ws: seq<bv32>, n: nat)
    requires FullBefore(ws, |ws|) && n <= 32 * |ws|
    ensures LowestFree(UsedSlots(ws, n), n) == None
  {
    var u := UsedSlots(ws, n);
    forall t: nat | t < n
      ensures t in u
    {
      FullBeforeUsed(ws, n, |ws|, t);
    }
    LowestFromExact(u, n, 0, false, n);
  }

  lemma CardRemove(s: set<nat>, x: nat)
    ensures |s - {x}| == if x in s then |s| - 1 else |s|
  {
    if x in s {
      assert s == (s - {x}) + {x};
    } else {
      assert s - {x} == s;
    }
  }

  /** Overwriting word `i` keeps every word before `min(i, k)` full. */
  lemma FullBeforeUpdate(ws: seq<bv32>, i: nat, w: bv32, k: nat)
    requires i < |ws| && FullBefore(ws, k)
    ensures FullBefore(ws[i := w], if i < k then i else k)
  {
  }

  /** One step of the iteration over word `i`: `temp` holds the bits of the
      word at positions `p` and above. Its lowest set bit `b` is the next used
      slot in ascending order, no slot between is used, and dropping `b` leaves
      the bits at positions `b + 1` and above. */
  lemma IterateBit(ws: seq<bv32>, n: nat, i: nat, p: nat, temp: bv32)
    requires i < |ws| && PaddingClear(ws, n)
    requires p <= 32 && temp != 0
    requires forall j: Idx :: Bit(temp, j) == (Bit(ws[i], j) && j as int >= p)
    ensures var b := LowestOne(temp);
      p <= b as int &&
      InOrder(UsedSlots(ws, n), SlotIndex(i, b) + 1) == InOrder(UsedSlots(ws, n), 32 * i + p) + [SlotIndex(i, b)] &&
      forall j: Idx :: (Bit(temp, j) && j != b) == (Bit(ws[i], j) && j as int >= b as int + 1)
  {
    var b := LowestOne(temp);
    IterateBitOrder(ws, n, UsedSlots(ws, n), i, p, temp, b, 32 * i + p, SlotIndex(i, b));
    DropLowest(ws[i], p, temp, b);
  }

  /** The ordering half of `IterateBit`. */
  lemma IterateBitOrder(ws: seq<bv32>, n: nat, u: set<nat>, i: nat, p: nat, temp: bv32, b: Idx, c: nat, s: nat)
    requires u == UsedSlots(ws, n)
    requires i < |ws| && PaddingClear(ws, n)
    requires p <= 32 && temp != 0 && b == LowestOne(temp)
    requires forall j: Idx :: Bit(temp, j) == (Bit(ws[i], j) && j as int >= p)
    requires c == 32 * i + p && s == SlotIndex(i, b)
    ensures p <= b as int
    ensures InOrder(u, s + 1) == InOrder(u, c) + [s]
  {
    IterateBitFound(ws, n, u, i, p, temp, b, s);
    IterateBitSkip(ws, n, u, i, p, temp, b, c, s);
    InOrderStep(u, s);
  }

  /** The inner step of the iteration, with the word `rest = temp & (temp - 1)`
      the source computes: `rest` holds the bits of word `w` past the bit `b`
      just visited. */
  lemma IterateRest(w: bv32, p: nat, temp: bv32, b: Idx, rest: bv32)
    requires temp != 0 && b == LowestOne(temp)
    requires forall j: Idx :: Bit(rest, j) == (Bit(temp, j) && j != b)
    requires forall j: Idx :: Bit(temp, j) == (Bit(w, j) && j as int >= p)
    ensures forall j: Idx :: Bit(rest, j) == (Bit(w, j) && j as int >= b as int + 1)
  {
    LowestOneSet(temp);
    forall j: Idx
      ensures Bit(rest, j) == (Bit(w, j) && j as int >= b as int + 1)
    {
      if j < b {
        BelowLowestOne(temp, j);
      }
      DropLowestAt(Bit(w, j), Bit(temp, j), p, b, j);
    }
  }

  /** Dropping the lowest set bit `b` from the bits of `w` at positions `p` and
      above leaves the bits of `w` at positions `b + 1` and above. */
  lemma DropLowest(w: bv32, p: nat, temp: bv32, b: Idx)
    requires temp != 0 && b == LowestOne(temp)
    requires forall j: Idx :: Bit(temp, j) == (Bit(w, j) && j as int >= p)
    ensures forall j: Idx :: (Bit(temp, j) && j != b) == (Bit(w, j) && j as int >= b as int + 1)
  {
    LowestOneSet(temp);
    forall j: Idx
      ensures (Bit(temp, j) && j != b) == (Bit(w, j) && j as int >= b as int + 1)
    {
      if j < b {
        BelowLowestOne(temp, j);
      }
      DropLowestAt(Bit(w, j), Bit(temp, j), p, b, j);
    }
  }

  /** `DropLowest` at one position `j`, on the two bits `wj` of `w` and `tj` of
      `temp`. */
  lemma DropLowestAt(wj: bool, tj: bool, p: nat, b: Idx, j: Idx)
    requires tj == (wj && j as int >= p) && p <= b as int
    requires j < b ==> !tj
    ensures (tj && j != b) == (wj && j as int >= b as int + 1)
  {
    IdxLess(j, b);
  }

  lemma IterateBitFound(ws: seq<bv32>, n: nat, u: set<nat>, i: nat, p: nat, temp: bv32, b: Idx, s: nat)
    requires u == UsedSlots(ws, n)
    requires i < |ws| && PaddingClear(ws, n)
    requires p <= 32 && temp != 0 && b == LowestOne(temp)
    requires forall j: Idx :: Bit(temp, j) == (Bit(ws[i], j) && j as int >= p)
    requires s == SlotIndex(i, b)
    ensures p <= b as int && s in u
  {
    LowestOneSet(temp);
    SlotOfWord(ws, i, b);
  }

  lemma IterateBitSkip(ws: seq<bv32>, n: nat, u: set<nat>, i: nat, p: nat, temp: bv32, b: Idx, c: nat, s: nat)
    requires u == UsedSlots(ws, n)
    requires i < |ws|
    requires p <= b as int && temp != 0 && b == LowestOne(temp)
    requires forall j: Idx :: Bit(temp, j) == (Bit(ws[i], j) && j as int >= p)
    requires c == 32 * i + p && s == SlotIndex(i, b)
    ensures InOrder(u, s) == InOrder(u, c)
  {
    forall t | c <= t < s
      ensures t !in u
    {
      SkippedUnused(ws, i, p, temp, b, t);
    }
    InOrderSkip(u, c, s);
  }

  /** A slot of word `i` from position `p` up to the lowest set bit `b` of
      `temp` is not used. */
  lemma SkippedUnused(ws: seq<bv32>, i: nat, p: nat, temp: bv32, b: Idx, t: nat)
    requires i < |ws| && temp != 0 && b == LowestOne(temp)
    requires forall j: Idx :: Bit(temp, j) == (Bit(ws[i], j) && j as int >= p)
    requires 32 * i + p <= t < SlotIndex(i, b)
    ensures !SlotUsed(ws, t)
  {
    var j := ToIdx(t - 32 * i);
    SlotBelowBit(i, b, t, j);
    BelowLowestOne(temp, j);
    SlotOfWord(ws, i, j);
  }

  /** The iteration over word `i` is done once `temp` is empty: no slot of the
      word at position `p` or above is used. */
  lemma IterateWordDone(ws: seq<bv32>, n: nat, i: nat, p: nat)
    requires i < |ws| && p <= 32
    requires forall j: Idx :: !(Bit(ws[i], j) && j as int >= p)
    ensures InOrder(UsedSlots(ws, n), 32 * (i + 1)) == InOrder(UsedSlots(ws, n), 32 * i + p)
  {
    var u := UsedSlots(ws, n);
    forall t | 32 * i + p <= t < 32 * (i + 1)
      ensures t !in u
    {
      var j := ToIdx(t % 32);
      assert t == SlotIndex(i, j);
      SlotOfWord(ws, i, j);
    }
    InOrderSkip(u, 32 * i + p, 32 * (i + 1));
  }

  /** One claim of `allocate` in word `i`, the first word at or after the
      cursor that is not full, after `c` claims of a batch: when the lowest
      clear bit `b` stands for a slot below the capacity, the new word `w`
      records one more first-fit claim. */
  lemma ClaimWordFound(ws: seq<bv32>, n: nat, i: nat, b: Idx, w: bv32, u0: set<nat>, c: nat)
    requires i < |ws| && FullBefore(ws, i) && ws[i] != FULL && PaddingClear(ws, n)
    requires b == LowestZero(ws[i]) && SlotIndex(i, b) < n
    requires forall j: Idx :: Bit(w, j) == (Bit(ws[i], j) || j == b)
    requires c <= |FreeSlots(u0, n)| && UsedSlots(ws, n) == ClaimLowest(u0, n, c)
    ensures UsedSlots(ws[i := w], n) == ClaimLowest(u0, n, c + 1)
    ensures PaddingClear(ws[i := w], n) && FullBefore(ws[i := w], i)
    ensures c + 1 <= |FreeSlots(u0, n)|
    ensures c == 0 ==> LowestFree(u0, n) == Some(SlotIndex(i, b))
  {
    FirstNonFullWord(ws, n, i);
    ClaimAdvance(u0, n, c, SlotIndex(i, b));
    UsedSlotsSetBit(ws, n, i, b, w);
    FullBeforeUpdate(ws, i, w, i);
  }

  /** The same claim when the lowest clear bit lies past the capacity: the
      batch had only the `c` free slots it has claimed. */
  lemma ClaimWordPastEnd(ws: seq<bv32>, n: nat, i: nat, b: Idx, u0: set<nat>, c: nat)
    requires i < |ws| && FullBefore(ws, i) && ws[i] != FULL
    requires b == LowestZero(ws[i]) && SlotIndex(i, b) >= n
    requires c <= |FreeSlots(u0, n)| && UsedSlots(ws, n) == ClaimLowest(u0, n, c)
    ensures |FreeSlots(u0, n)| == c
  {
    FirstNonFullWord(ws, n, i);
    ClaimExhausted(u0, n, c);
  }
}
