/**
  The 64-bit free words of `mstore<T>`: bit `s & 63` of word `s >> 6` is 1
  exactly when slot `s` is FREE. The words are held as the 32-bit halves they
  occupy in memory, low half first, so word `k` is halves `2 * k` and
  `2 * k + 1`, and slot `s` is bit `s % 32` of half `s / 32`. The word
  operations of the store (`bsf`, `x & (x - 1)`, `bts`, `~x`) act on one
  half at a time. Complemented, the halves form the used-slot bitmap of
  module SlotBitmap, so the lemmas proved there for the pool carry over to
  this store.
*/
module MStoreWords {
  import opened Wrappers
  import opened Bits32
  import opened SlotSpec
  import opened SlotBitmap

  /** Number of 64-bit words needed for `n` slots: `(n >> 6) + ((n & 63) != 0)`. */
  function FreeWordsFor(n: nat): (r: nat)
    ensures n <= 64 * r < n + 64
  {
    n / 64 + (if n % 64 != 0 then 1 else 0)
  }

  /** `fs` is the used-slot view `hs` of the free halves: each half
      complemented. */
  ghost predicate UsedView(hs: seq<bv32>, fs: seq<bv32>)
  {
    |hs| == |fs| && forall h {:trigger fs[h]} :: 0 <= h < |fs| ==> hs[h] == !fs[h]
  }

  /** The used-slot view of the free halves `fs`. */
  ghost function Complement(fs: seq<bv32>): (hs: seq<bv32>)
    ensures UsedView(hs, fs)
  {
    seq(|fs|, (h: int) requires 0 <= h < |fs| => !fs[h])
  }

  /** Halves without a free bit are full used halves. */
  lemma NoneFreeFull(hs: seq<bv32>, fs: seq<bv32>, h: nat)
    requires UsedView(hs, fs) && h <= |fs|
    requires forall i :: 0 <= i < h ==> fs[i] == 0
    ensures FullBefore(hs, h)
  {
    forall i | 0 <= i < h
      ensures hs[i] == FULL
    {
      assert fs[i] == 0;
    }
  }

  /** Storing `x` in free half `h` stores its complement in the view. */
  lemma ViewUpdate(hs: seq<bv32>, fs: seq<bv32>, h: nat, x: bv32)
    requires UsedView(hs, fs) && h < |fs|
    ensures UsedView(hs[h := !x], fs[h := x])
  {
  }

  // ---------------------------------------------------------------------------
  // Word facts

  lemma BitOfNotOr(h: bv32, b: Idx, j: Idx)
    ensures Bit(!(h | Mask(b)), j) == (Bit(!h, j) && j != b)
  {
  }

  lemma BitOfNotSetFrom(h: bv32, r: Idx, j: Idx)
    ensures Bit(!(h | (FULL << r)), j) == (Bit(!h, j) && j < r)
  {
  }

  /** The complement of a word with one more bit set has that bit clear. */
  lemma NotOfSet(h: bv32, b: Idx, nh: bv32, nh': bv32)
    requires nh == !h && nh' == !(h | Mask(b))
    ensures forall j: Idx :: Bit(nh', j) == (Bit(nh, j) && j != b)
  {
    forall j: Idx
      ensures Bit(nh', j) == (Bit(nh, j) && j != b)
    {
      BitOfNotOr(h, b, j);
    }
  }

  /** The complement of a word with one bit cleared has that bit set. */
  lemma NotOfCleared(h: bv32, b: Idx, h': bv32, nh: bv32, nh': bv32)
    requires nh == !h && nh' == !h'
    requires forall j: Idx :: Bit(h', j) == (Bit(h, j) && j != b)
    ensures forall j: Idx :: Bit(nh', j) == (Bit(nh, j) || j == b)
  {
    forall j: Idx
      ensures Bit(nh', j) == (Bit(nh, j) || j == b)
    {
      BitOfNot(h', j);
      BitOfNot(h, j);
    }
  }

  /** The complement of a word with its bits from `r` on set has no bit from
      `r` on and keeps the bits below `r`. */
  lemma NotOfSetFrom(h: bv32, r: Idx, nh: bv32, nh': bv32)
    requires nh == !h && nh' == !(h | (FULL << r))
    ensures forall j: Idx :: Bit(nh', j) == (Bit(nh, j) && j < r)
  {
    forall j: Idx
      ensures Bit(nh', j) == (Bit(nh, j) && j < r)
    {
      BitOfNotSetFrom(h, r, j);
    }
  }

  // ---------------------------------------------------------------------------
  // The store's steps on the used-slot halves

  /** A claim in the first half `h` that has a free slot (`hs[h]` is the
      complement of the free half `fh`): the lowest free slot of the store is
      the lowest 1 bit of `fh` when that slot is below the capacity, and there
      is none otherwise; clearing that bit (`fh & (fh - 1)`) records exactly
      one first-fit claim. */
  lemma ClaimInHalf(hs: seq<bv32>, n: nat, h: nat, fh: bv32, fh': bv32)
    requires h < |hs| && FullBefore(hs, h) && PaddingClear(hs, n)
    requires fh != 0 && hs[h] == !fh && fh' == fh & (fh - 1)
    ensures var s := SlotIndex(h, LowestOne(fh));
      LowestFree(UsedSlots(hs, n), n) == (if s < n then Some(s) else None) &&
      (s < n ==> UsedSlots(hs[h := !fh'], n) == ClaimLowest(UsedSlots(hs, n), n, 1) &&
                 PaddingClear(hs[h := !fh'], n))
  {
    var b := LowestOne(fh);
    LowestZeroOfNot(fh);
    FirstNonFullWord(hs, n, h);
    if SlotIndex(h, b) < n {
      ReleaseStep(fh, b, fh');
      NotOfCleared(fh, b, fh', !fh, !fh');
      ClaimWordFound(hs, n, h, b, !fh', UsedSlots(hs, n), 0);
    }
  }

  /** Setting bit `b` of the free half `fh` behind half `h` takes its slot out
      of the used set and changes nothing else. */
  lemma ReleaseInHalf(hs: seq<bv32>, n: nat, h: nat, fh: bv32, b: Idx)
    requires h < |hs| && hs[h] == !fh
    ensures UsedSlots(hs[h := !(fh | Mask(b))], n) == UsedSlots(hs, n) - {SlotIndex(h, b)}
  {
    NotOfSet(fh, b, !fh, !(fh | Mask(b)));
    UsedSlotsClearBit(hs, n, h, b, !(fh | Mask(b)));
  }

  /** The same step keeps the padding free. */
  lemma ReleaseInHalfPadding(hs: seq<bv32>, n: nat, h: nat, fh: bv32, b: Idx)
    requires h < |hs| && hs[h] == !fh && PaddingClear(hs, n)
    ensures PaddingClear(hs[h := !(fh | Mask(b))], n)
  {
    NotOfSet(fh, b, !fh, !(fh | Mask(b)));
    UsedSlotsClearBit(hs, n, h, b, !(fh | Mask(b)));
  }

  /** The slot found in either half of word `k` lies in word `k`; when it
      is in the padding after slot `n`, word `k` is the last word. */
  lemma SlotInWord(n: nat, k: nat, h: nat, slot: nat, words: nat)
    requires h == 2 * k || h == 2 * k + 1
    requires 32 * h <= slot < 32 * h + 32 && k < words == FreeWordsFor(n)
    ensures 64 * k <= slot < 64 * k + 64
    ensures n <= slot ==> words == k + 1
  {
  }

  /** The `found:` step of `allocate()` on word `k`, the first word from the
      cursor with a free bit: the half `h` that the 64-bit `bsf` lands in has
      its lowest free bit `x` cleared. The bit names the lowest free slot
      when it lies below `n`, and claiming it is the first-fit claim; a bit
      in the padding means no slot is free. */
  lemma TakeInHalf(hs: seq<bv32>, fs: seq<bv32>, n: nat, k: nat, h: nat, x: bv32, x': bv32, slot: nat)
    requires UsedView(hs, fs) && 2 * k + 1 < |fs| && FullBefore(hs, 2 * k) && PaddingClear(hs, n)
    requires fs[2 * k] != 0 || fs[2 * k + 1] != 0
    requires h == (if fs[2 * k] != 0 then 2 * k else 2 * k + 1) && x == fs[h] && x' == x & (x - 1)
    requires slot == SlotIndex(h, LowestOne(x))
    ensures n <= slot ==> AllocateBatch(UsedSlots(hs, n), n, 1) == (UsedSlots(hs, n), None)
    ensures slot < n ==> AllocateBatch(UsedSlots(hs, n), n, 1) == (UsedSlots(hs[h := !x'], n), Some(slot))
    ensures slot < n ==> PaddingClear(hs[h := !x'], n)
  {
    ClaimInHalf(hs, n, h, x, x');
    if slot < n {
      ClaimFound(UsedSlots(hs, n), n, slot);
    } else {
      ClaimNone(UsedSlots(hs, n), n);
    }
  }

  /** The `bts` step of `deallocate(slot)` on half `h`, holding `x`: setting
      free bit `b` frees exactly slot `SlotIndex(h, b)` and keeps the padding
      free. */
  lemma ReleaseHalf(hs: seq<bv32>, fs: seq<bv32>, n: nat, h: nat, b: Idx, x: bv32)
    requires UsedView(hs, fs) && h < |fs| && x == fs[h] && PaddingClear(hs, n)
    ensures UsedSlots(hs[h := !(x | Mask(b))], n) == UsedSlots(hs, n) - {SlotIndex(h, b)}
    ensures PaddingClear(hs[h := !(x | Mask(b))], n)
  {
    ReleaseInHalf(hs, n, h, x, b);
    ReleaseInHalfPadding(hs, n, h, x, b);
  }

  /** The same step on the free halves and the view together. */
  lemma ReleaseView(hs: seq<bv32>, fs: seq<bv32>, h: nat, b: Idx, x: bv32)
    requires UsedView(hs, fs) && h < |fs|
    ensures UsedView(hs[h := !(x | Mask(b))], fs[h := x | Mask(b)])
  {
    ViewUpdate(hs, fs, h, x | Mask(b));
  }

  /** A claim has a first-fit result: the claimed slot when one is free, and
      no change otherwise. */
  lemma ClaimFound(u: set<nat>, n: nat, s: nat)
    requires LowestFree(u, n) == Some(s)
    ensures AllocateBatch(u, n, 1) == (ClaimLowest(u, n, 1), Some(s))
  {
    assert s in FreeSlots(u, n);
    BatchSucceeds(u, n, 1);
  }

  lemma ClaimNone(u: set<nat>, n: nat)
    requires LowestFree(u, n) == None
    ensures AllocateBatch(u, n, 1) == (u, None)
  {
    assert FreeSlots(u, n) == {};
  }

  /** `bsf` followed by `lea`/`and` on a non-zero 64-bit word held as its
      halves `lo` and `hi`: `pos` is the position of its lowest 1 bit, which
      lies in the low half unless that half is zero, and `x & (x - 1)` drops
      that bit; the borrow reaches the high half only through a zero low
      half. */
  method LowestOneAndClear(lo: bv32, hi: bv32) returns (lo': bv32, hi': bv32, pos: nat)
    requires lo != 0 || hi != 0
    ensures lo != 0 ==> pos == LowestOne(lo) as int && lo' == lo & (lo - 1) && hi' == hi
    ensures lo == 0 ==> pos == 32 + LowestOne(hi) as int && lo' == 0 && hi' == hi & (hi - 1)
  {
    if lo != 0 {
      pos := LowestOne(lo) as int;
      lo', hi' := lo & (lo - 1), hi;
    } else {
      pos := 32 + LowestOne(hi) as int;
      lo', hi' := 0, hi & (hi - 1);
    }
  }

  /** When no half has a free bit, no slot is free. */
  lemma AllocateNone(hs: seq<bv32>, n: nat)
    requires FullBefore(hs, |hs|) && n <= 32 * |hs|
    ensures AllocateBatch(UsedSlots(hs, n), n, 1) == (UsedSlots(hs, n), None)
  {
    AllWordsFull(hs, n);
    ClaimNone(UsedSlots(hs, n), n);
  }

  // ---------------------------------------------------------------------------
  // `resize`

  /** The used slots that survive a resize to `n` slots. */
  ghost function KeptBelow(used: set<nat>, n: nat): (r: set<nat>)
    ensures forall s :: s in r <==> s in used && s < n
  {
    set s | s in used && s < n
  }

  /** Copying the first halves of `hs` and padding with empty used halves
      (free halves of all ones) keeps exactly the slots of the copied halves. */
  lemma CopyView(hs: seq<bv32>, hs': seq<bv32>)
    requires forall i :: 0 <= i < |hs'| ==> hs'[i] == if i < |hs| then hs[i] else 0
    ensures forall s: nat :: SlotUsed(hs', s) == (SlotUsed(hs, s) && s / 32 < |hs'|)
  {
    forall s: nat
      ensures SlotUsed(hs', s) == (SlotUsed(hs, s) && s / 32 < |hs'|)
    {
      if s / 32 < |hs'| && |hs| <= s / 32 {
        ZeroBits(hs'[s / 32]);
      }
    }
  }

  /** Freeing the bits from slot `n` on of the last word (bits from `n % 32`,
      the position `r`, on of half `n / 32`, and all of the halves after it) leaves exactly the
      used slots below `n`. */
  lemma TailView(hs: seq<bv32>, hs': seq<bv32>, n: nat, r: Idx)
    requires |hs'| == |hs| && r as int == n % 32
    requires forall i :: 0 <= i < |hs| && i < n / 32 ==> hs'[i] == hs[i]
    requires n / 32 < |hs| ==> forall j: Idx :: Bit(hs'[n / 32], j) == (Bit(hs[n / 32], j) && j < r)
    requires forall i :: n / 32 < i < |hs| ==> hs'[i] == 0
    ensures forall s: nat :: SlotUsed(hs', s) == (SlotUsed(hs, s) && s < n)
  {
    forall s: nat
      ensures SlotUsed(hs', s) == (SlotUsed(hs, s) && s < n)
    {
      var i := s / 32;
      if i < |hs| && n / 32 < i {
        ZeroBits(hs'[i]);
      } else if i < |hs| && i == n / 32 {
        IdxLess(ToIdx(s % 32), r);
      }
    }
  }

  /** The halves of the words for `n` slots that lie after half `n / 32`:
      at most the one after it. */
  lemma LastHalves(n: nat)
    ensures 2 * FreeWordsFor(n) <= n / 32 + 2
  {
  }

  /** A view in which exactly the slots of `hs` below `n'` are used records
      the used slots that survive the resize, and no padding. */
  lemma ResizeView(hs: seq<bv32>, n: nat, n': nat, hs': seq<bv32>)
    requires PaddingClear(hs, n)
    requires forall s: nat :: SlotUsed(hs', s) == (SlotUsed(hs, s) && s < n')
    ensures UsedSlots(hs', n') == KeptBelow(UsedSlots(hs, n), n')
    ensures PaddingClear(hs', n')
  {
  }

  /** The used bits of half `h` at positions `p` and above are those of `t`. */
  ghost predicate BitsFrom(hs: seq<bv32>, h: nat, p: nat, t: bv32)
    requires h < |hs|
  {
    forall j: Idx :: Bit(t, j) == (Bit(hs[h], j) && j as int >= p)
  }

  /** The state of the scan of word `i` in `iterate` at cursor `c`, the slot
      after the last one visited; `lo` and `hi` are the halves of `temp`.
      While the cursor is in the low half, `lo` holds the used bits of half
      `2 * i` from the cursor on and `hi` all the used bits of half
      `2 * i + 1`; once it is in the high half, `lo` is empty and `hi` holds
      the used bits of half `2 * i + 1` from the cursor on. */
  ghost predicate Scanning(hs: seq<bv32>, i: nat, c: nat, lo: bv32, hi: bv32)
    requires 2 * i + 1 < |hs|
  {
    64 * i <= c <= 64 * i + 64 &&
    ((c <= 64 * i + 32 && BitsFrom(hs, 2 * i, c - 64 * i, lo) && hi == hs[2 * i + 1]) ||
     (64 * i + 32 <= c && lo == 0 && BitsFrom(hs, 2 * i + 1, c - 64 * i - 32, hi)))
  }

  /** A step of the scan in half `h` from position `p` (cursor `c`): the
      lowest 1 bit of `t`, slot `s`, is the next used slot in ascending
      order. */
  lemma {:induction false} VisitOrder(hs: seq<bv32>, n: nat, u: set<nat>, h: nat, p: nat, t: bv32, c: nat, s: nat)
    requires u == UsedSlots(hs, n)
    requires h < |hs| && PaddingClear(hs, n) && p <= 32 && BitsFrom(hs, h, p, t) && t != 0
    requires c == 32 * h + p && s == 32 * h + LowestOne(t) as int
    ensures c <= s
    ensures InOrder(u, s + 1) == InOrder(u, c) + [s]
  {
    var b := LowestOne(t);
    IterateBitOrder(hs, n, u, h, p, t, b, c, s);
  }

  /** After the step, `t & (t - 1)` holds the used bits of half `h` past the
      bit just visited. */
  lemma {:induction false} VisitRest(hs: seq<bv32>, h: nat, p: nat, t: bv32, t': bv32)
    requires h < |hs| && BitsFrom(hs, h, p, t)
    requires t != 0 && t' == t & (t - 1)
    ensures BitsFrom(hs, h, LowestOne(t) as int + 1, t')
  {
    var b := LowestOne(t);
    ReleaseStep(t, b, t');
    IterateRest(hs[h], p, t, b, t');
  }

  /** The scan of half `h` is over once no used bit from position `p`
      (cursor `c`) on is left: the cursor moves to `e`, the next half. */
  lemma {:induction false} HalfDone(hs: seq<bv32>, n: nat, u: set<nat>, h: nat, p: nat, c: nat, e: nat)
    requires u == UsedSlots(hs, n)
    requires h < |hs| && p <= 32 && BitsFrom(hs, h, p, 0)
    requires c == 32 * h + p && e == 32 * h + 32
    ensures InOrder(u, e) == InOrder(u, c)
  {
    ZeroBits(0);
    IterateWordDone(hs, n, h, p);
  }

  /** The words after the last slot hold no used slot to visit. */
  lemma ScanPadding(u: set<nat>, hs: seq<bv32>, n: nat, m: nat)
    requires u == UsedSlots(hs, n) && n <= m
    ensures InOrder(u, m) == InOrder(u, n)
  {
    InOrderSkip(u, n, m);
  }

  /** The scan of word `i` starts at its first slot with `temp` holding
      both used halves. */
  lemma ScanStart(hs: seq<bv32>, i: nat)
    requires 2 * i + 1 < |hs|
    ensures Scanning(hs, i, 64 * i, hs[2 * i], hs[2 * i + 1])
  {
    assert BitsFrom(hs, 2 * i, 0, hs[2 * i]);
  }

  /** One step of the scan of word `i`: the bit `LowestOneAndClear` finds in
      `temp`, whose halves are `lo` and `hi`, is slot `64 * i + pos`, the
      next used slot in ascending order. */
  lemma {:induction false} ScanOrder(hs: seq<bv32>, n: nat, u: set<nat>, i: nat, c: nat, lo: bv32, hi: bv32, pos: nat)
    requires u == UsedSlots(hs, n)
    requires 2 * i + 1 < |hs| && PaddingClear(hs, n) && Scanning(hs, i, c, lo, hi)
    requires lo != 0 ==> pos == LowestOne(lo) as int
    requires lo == 0 ==> hi != 0 && pos == 32 + LowestOne(hi) as int
    ensures c <= 64 * i + pos
    ensures InOrder(u, 64 * i + pos + 1) == InOrder(u, c) + [64 * i + pos]
  {
    if lo != 0 {
      OrderLow(hs, n, u, i, c, lo, pos);
    } else if c < 64 * i + 32 {
      OrderCross(hs, n, u, i, c, hi, pos);
    } else {
      OrderHigh(hs, n, u, i, c, hi, pos);
    }
  }

  lemma {:induction false} OrderLow(hs: seq<bv32>, n: nat, u: set<nat>, i: nat, c: nat, lo: bv32, pos: nat)
    requires u == UsedSlots(hs, n)
    requires 2 * i + 1 < |hs| && PaddingClear(hs, n)
    requires 64 * i <= c <= 64 * i + 32 && BitsFrom(hs, 2 * i, c - 64 * i, lo)
    requires lo != 0 && pos == LowestOne(lo) as int
    ensures c <= 64 * i + pos
    ensures InOrder(u, 64 * i + pos + 1) == InOrder(u, c) + [64 * i + pos]
  {
    VisitOrder(hs, n, u, 2 * i, c - 64 * i, lo, c, 64 * i + pos);
  }

  lemma {:induction false} OrderCross(hs: seq<bv32>, n: nat, u: set<nat>, i: nat, c: nat, hi: bv32, pos: nat)
    requires u == UsedSlots(hs, n)
    requires 2 * i + 1 < |hs| && PaddingClear(hs, n)
    requires 64 * i <= c < 64 * i + 32 && BitsFrom(hs, 2 * i, c - 64 * i, 0) && hi == hs[2 * i + 1]
    requires hi != 0 && pos == 32 + LowestOne(hi) as int
    ensures c <= 64 * i + pos
    ensures InOrder(u, 64 * i + pos + 1) == InOrder(u, c) + [64 * i + pos]
  {
    HalfDone(hs, n, u, 2 * i, c - 64 * i, c, 64 * i + 32);
    OrderHighStart(hs, n, u, i, hi, pos);
  }

  /** The first slot visited in the high half, from its start. */
  lemma {:induction false} OrderHighStart(hs: seq<bv32>, n: nat, u: set<nat>, i: nat, hi: bv32, pos: nat)
    requires u == UsedSlots(hs, n)
    requires 2 * i + 1 < |hs| && PaddingClear(hs, n) && hi == hs[2 * i + 1]
    requires hi != 0 && pos == 32 + LowestOne(hi) as int
    ensures InOrder(u, 64 * i + pos + 1) == InOrder(u, 64 * i + 32) + [64 * i + pos]
  {
    assert BitsFrom(hs, 2 * i + 1, 0, hi);
    VisitOrder(hs, n, u, 2 * i + 1, 0, hi, 64 * i + 32, 64 * i + pos);
  }

  lemma {:induction false} OrderHigh(hs: seq<bv32>, n: nat, u: set<nat>, i: nat, c: nat, hi: bv32, pos: nat)
    requires u == UsedSlots(hs, n)
    requires 2 * i + 1 < |hs| && PaddingClear(hs, n)
    requires 64 * i + 32 <= c <= 64 * i + 64 && BitsFrom(hs, 2 * i + 1, c - 64 * i - 32, hi)
    requires hi != 0 && pos == 32 + LowestOne(hi) as int
    ensures c <= 64 * i + pos
    ensures InOrder(u, 64 * i + pos + 1) == InOrder(u, c) + [64 * i + pos]
  {
    VisitOrder(hs, n, u, 2 * i + 1, c - 64 * i - 32, hi, c, 64 * i + pos);
  }

  /** After the step, with `temp`'s halves `lo'` and `hi'` as
      `LowestOneAndClear` leaves them, the scan is in its state at the
      cursor past slot `64 * i + pos`. */
  lemma {:induction false} ScanRest(hs: seq<bv32>, i: nat, c: nat, lo: bv32, hi: bv32, lo': bv32, hi': bv32, pos: nat)
    requires 2 * i + 1 < |hs| && Scanning(hs, i, c, lo, hi)
    requires lo != 0 ==> pos == LowestOne(lo) as int && lo' == lo & (lo - 1) && hi' == hi
    requires lo == 0 ==> hi != 0 && pos == 32 + LowestOne(hi) as int && lo' == 0 && hi' == hi & (hi - 1)
    ensures Scanning(hs, i, 64 * i + pos + 1, lo', hi')
  {
    if lo != 0 {
      RestLow(hs, i, c, lo, hi, lo', pos);
    } else if c < 64 * i + 32 {
      RestCross(hs, i, c, hi, hi', pos);
    } else {
      RestHigh(hs, i, c, hi, hi', pos);
    }
  }

  lemma {:induction false} RestLow(hs: seq<bv32>, i: nat, c: nat, lo: bv32, hi: bv32, lo': bv32, pos: nat)
    requires 2 * i + 1 < |hs|
    requires 64 * i <= c <= 64 * i + 32 && BitsFrom(hs, 2 * i, c - 64 * i, lo) && hi == hs[2 * i + 1]
    requires lo != 0 && pos == LowestOne(lo) as int && lo' == lo & (lo - 1)
    ensures Scanning(hs, i, 64 * i + pos + 1, lo', hi)
  {
    VisitRest(hs, 2 * i, c - 64 * i, lo, lo');
    assert 64 * i + pos + 1 - 64 * i == LowestOne(lo) as int + 1;
  }

  lemma {:induction false} RestCross(hs: seq<bv32>, i: nat, c: nat, hi: bv32, hi': bv32, pos: nat)
    requires 2 * i + 1 < |hs|
    requires 64 * i <= c < 64 * i + 32 && hi == hs[2 * i + 1]
    requires hi != 0 && pos == 32 + LowestOne(hi) as int && hi' == hi & (hi - 1)
    ensures Scanning(hs, i, 64 * i + pos + 1, 0, hi')
  {
    assert BitsFrom(hs, 2 * i + 1, 0, hi);
    VisitRest(hs, 2 * i + 1, 0, hi, hi');
    assert 64 * i + pos + 1 - 64 * i - 32 == LowestOne(hi) as int + 1;
  }

  lemma {:induction false} RestHigh(hs: seq<bv32>, i: nat, c: nat, hi: bv32, hi': bv32, pos: nat)
    requires 2 * i + 1 < |hs|
    requires 64 * i + 32 <= c <= 64 * i + 64 && BitsFrom(hs, 2 * i + 1, c - 64 * i - 32, hi)
    requires hi != 0 && pos == 32 + LowestOne(hi) as int && hi' == hi & (hi - 1)
    ensures Scanning(hs, i, 64 * i + pos + 1, 0, hi')
  {
    VisitRest(hs, 2 * i + 1, c - 64 * i - 32, hi, hi');
    assert 64 * i + pos + 1 - 64 * i - 32 == LowestOne(hi) as int + 1;
  }


  /** The scan of word `i` ends when `temp` is empty: no used slot of the
      word is left after the cursor. */
  lemma {:induction false} ScanDone(hs: seq<bv32>, n: nat, u: set<nat>, i: nat, c: nat)
    requires u == UsedSlots(hs, n)
    requires 2 * i + 1 < |hs| && Scanning(hs, i, c, 0, 0)
    ensures InOrder(u, 64 * i + 64) == InOrder(u, c)
  {
    if c <= 64 * i + 32 && hs[2 * i + 1] == 0 {
      HalfDone(hs, n, u, 2 * i, c - 64 * i, c, 64 * i + 32);
      HalfDone(hs, n, u, 2 * i + 1, 0, 64 * i + 32, 64 * i + 64);
    } else {
      HalfDone(hs, n, u, 2 * i + 1, c - 64 * i - 32, c, 64 * i + 64);
    }
  }
}
