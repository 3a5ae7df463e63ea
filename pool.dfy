/**
  The fixed-capacity slot allocator `Pool<T>`: a payload array beside a packed
  bitmap of 32-bit words in which bit `s % 32` of word `s / 32` is 1 exactly
  when slot `s` is used. The abstract state is the set of used slots
  (module SlotSpec); the bitmap is proved to refine it.
*/
module PoolModel {
  import opened Wrappers
  import opened Bits32
  import opened SlotSpec
  import opened SlotBitmap

  /** `POOL_ERROR`, the all-ones `size_t` the source returns on failure. */
  const POOL_ERROR: nat := 0xFFFF_FFFF_FFFF_FFFF

  /** `Pool<T>`. The word cursor `freePtr` stands for the source's `free_ptr`
      pointer: every word before it is full. */
  class Pool<T(0)> {
    var pool: array<T>
    var poolSize: nat
    var used: array<bv32>
    var usedSize: nat
    var usedCount: nat
    var freePtr: nat
    var initialised: bool

    /** The set of used slots the bitmap records. */
    ghost function UsedSet(): set<nat>
      reads this`poolSize, this`used, used
    {
      UsedSlots(used[..], poolSize)
    }

    ghost predicate Valid()
      reads this, used
    {
      pool.Length == poolSize && used.Length == usedSize && usedSize == WordsFor(poolSize) &&
      (pool as object) != (used as object) &&
      freePtr <= usedSize && FullBefore(used[..], freePtr) &&
      PaddingClear(used[..], poolSize) &&
      usedCount == |UsedSet()| &&
      (!initialised ==> poolSize == 0)
    }

    /** `Pool()`: an uninitialised, empty pool. */
    constructor ()
      ensures Valid() && !initialised && poolSize == 0 && UsedSet() == {}
      ensures fresh(pool) && fresh(used)
    {
      pool := new T[0];
      poolSize := 0;
      used := new bv32[0];
      usedSize := 0;
      usedCount := 0;
      freePtr := 0;
      initialised := false;
    }

    /** `Pool(size)`: an empty pool followed by `create(size)`. */
    constructor WithSize(n: nat, allocFails: bool)
      ensures Valid()
      ensures !allocFails ==> initialised && poolSize == n && usedSize == WordsFor(n) && usedCount == 0 && UsedSet() == {}
      ensures allocFails ==> !initialised && poolSize == 0 && UsedSet() == {}
      ensures fresh(pool) && fresh(used)
    {
      pool := new T[0];
      poolSize := 0;
      used := new bv32[0];
      usedSize := 0;
      usedCount := 0;
      freePtr := 0;
      initialised := false;
      new;
      Create(n, allocFails);
    }

    /** `create(n)`: on an uninitialised pool, `n` slots all free, in
        `ceil(n/32)` cleared words; a failed allocation of the arrays (the
        `allocFails` parameter) leaves the pool destroyed. An initialised pool
        is left as it is. */
    method Create(n: nat, allocFails: bool)
      requires Valid()
      modifies this
      ensures Valid()
      ensures old(initialised) ==>
        initialised && poolSize == old(poolSize) && used == old(used) && pool == old(pool) &&
        usedCount == old(usedCount) && freePtr == old(freePtr)
      ensures !old(initialised) && !allocFails ==>
        initialised && poolSize == n && usedSize == WordsFor(n) && usedCount == 0 && freePtr == 0 &&
        fresh(used) && fresh(pool) && (forall i :: 0 <= i < usedSize ==> used[i] == 0) && UsedSet() == {}
      ensures !old(initialised) && allocFails ==>
        !initialised && poolSize == 0 && usedSize == 0 && usedCount == 0 && UsedSet() == {} &&
        fresh(used) && fresh(pool)
    {
      if initialised {
        return;
      }
      if allocFails {
        Destroy();
        return;
      }
      poolSize := n;
      usedSize := WordsFor(n);
      usedCount := 0;
      pool := new T[n];
      used := new bv32[usedSize](_ => 0);
      freePtr := 0;
      initialised := true;
      forall s: nat
        ensures !SlotUsed(used[..], s)
      {
        if s / 32 < usedSize {
          UnusedInZeroWord(used[..], s);
        }
      }
      assert UsedSet() == {};
    }

    /** `destroy()`: no slots, no words, nothing used, uninitialised. */
    method Destroy()
      modifies this
      ensures Valid() && !initialised && poolSize == 0 && usedSize == 0 && usedCount == 0 && UsedSet() == {}
      ensures fresh(pool) && fresh(used)
    {
      pool := new T[0];
      used := new bv32[0];
      poolSize := 0;
      usedSize := 0;
      usedCount := 0;
      freePtr := 0;
      initialised := false;
      assert UsedSet() == {};
    }

    /** One claim of `allocate` in word `i`, the first word at or after the
        cursor that is not full: `w |= w + 1` marks the lowest clear bit and the
        de Bruijn table turns `old ^ new` into its slot. When that slot is past
        the capacity, the batch that has made `c` claims had only `c` free
        slots; otherwise the bitmap records one more first-fit claim. */
    method ClaimInWord(i: nat, ghost u0: set<nat>, ghost c: nat) returns (slot: nat, ghost c': nat)
      requires i < used.Length && used[i] != FULL
      requires FullBefore(used[..], i) && PaddingClear(used[..], poolSize)
      requires c <= |FreeSlots(u0, poolSize)| && UsedSlots(used[..], poolSize) == ClaimLowest(u0, poolSize, c)
      modifies used
      ensures slot == SlotIndex(i, LowestZero(old(used[i])))
      ensures slot >= poolSize ==> c' == c && |FreeSlots(u0, poolSize)| == c
      ensures slot < poolSize ==> (c' == c + 1 &&
        UsedSlots(used[..], poolSize) == ClaimLowest(u0, poolSize, c') && c' <= |FreeSlots(u0, poolSize)| &&
        FullBefore(used[..], i) && PaddingClear(used[..], poolSize) &&
        (c == 0 ==> LowestFree(u0, poolSize) == Some(slot)))
    {
      ghost var ws := used[..];
      var w, b := ClaimLowestZero(used[i]);
      used[i] := w;
      slot := SlotIndex(i, b);
      assert used[..] == ws[i := w];
      if slot >= poolSize {
        c' := c;
        ClaimWordPastEnd(ws, poolSize, i, b, u0, c);
      } else {
        c' := c + 1;
        ClaimWordFound(ws, poolSize, i, b, w, u0, c);
      }
    }

    /** `deallocate(slot)`: outside the pool (or on an uninitialised pool) a
        no-op; otherwise bit `slot % 32` of word `slot / 32` is cleared, the
        count drops when that bit was set, and the cursor moves back to the
        slot's word when that word lies before it. The payload is untouched. */
    method Deallocate(slot: nat)
      requires Valid()
      modifies this, used
      ensures Valid()
      ensures UsedSet() == old(UsedSet()) - {slot}
      ensures poolSize == old(poolSize) && used == old(used) && pool == old(pool) && initialised == old(initialised)
      ensures freePtr == if slot < poolSize && slot / 32 < old(freePtr) then slot / 32 else old(freePtr)
      ensures unchanged(pool)
    {
      if !initialised || slot >= poolSize {
        assert slot !in UsedSet();
        return;
      }
      ghost var before := UsedSet();
      var wasUsed := ClearSlotBit(slot);
      CardRemove(before, slot);
      if wasUsed {
        usedCount := usedCount - 1;
      }
      if slot / 32 < freePtr {
        freePtr := slot / 32;
      }
    }

    /** The bit work of `deallocate`: `used[slot >> 5] &= ~(1 << (slot & 31))`,
        reporting whether the bit was set. */
    method ClearSlotBit(slot: nat) returns (wasUsed: bool)
      requires slot < poolSize && used.Length == usedSize && usedSize == WordsFor(poolSize)
      requires FullBefore(used[..], freePtr) && PaddingClear(used[..], poolSize)
      modifies used
      ensures wasUsed == (slot in UsedSlots(old(used[..]), poolSize))
      ensures UsedSlots(used[..], poolSize) == UsedSlots(old(used[..]), poolSize) - {slot}
      ensures PaddingClear(used[..], poolSize)
      ensures FullBefore(used[..], if slot / 32 < freePtr then slot / 32 else freePtr)
    {
      ghost var ws := used[..];
      var i := slot / 32;
      var j := ToIdx(slot % 32);
      wasUsed := Bit(used[i], j);
      SlotIndexBijective(i, j, i, j, slot);
      SlotOfWord(ws, i, j);
      var w := ClearBit(used[i], j);
      used[i] := w;
      assert used[..] == ws[i := w];
      UsedSlotsClearBit(ws, poolSize, i, j, w);
      FullBeforeUpdate(ws, i, w, freePtr);
    }

    /** `isUsed(slot)`: bit `slot & 31` of word `slot >> 5`; false outside the pool. */
    function IsUsed(slot: nat): (r: bool)
      reads this, used
      requires Valid()
      ensures r <==> slot in UsedSet()
    {
      if slot >= poolSize then false
      else
        SlotIndexBijective(slot / 32, ToIdx(slot % 32), slot / 32, ToIdx(slot % 32), slot);
        Bit(used[slot / 32], ToIdx(slot % 32))
    }

    /** `isFree(slot)`: the complemented bit; false outside the pool, so a slot
        is free exactly when it is in the pool and not used. */
    function IsFree(slot: nat): (r: bool)
      reads this, used
      requires Valid()
      ensures r <==> slot in FreeSlots(UsedSet(), poolSize)
    {
      if slot >= poolSize then false
      else
        var w := used[slot / 32];
        var j := ToIdx(slot % 32);
        ComplementBit(w, j);
        SlotIndexBijective(slot / 32, j, slot / 32, j, slot);
        (!(w >> j)) & 1 == 1
    }

    /** `size()`: the capacity, which the used and the free slots make up
        together. */
    function Size(): (r: nat)
      reads this, used
      requires Valid()
      ensures r == |UsedSet()| + |FreeSlots(UsedSet(), poolSize)|
    {
      Conservation(UsedSet(), poolSize);
      poolSize
    }

    /** `count()`: the number of used slots, never more than the capacity. */
    function Count(): (r: nat)
      reads this, used
      requires Valid()
      ensures r == |UsedSet()| && r <= poolSize
    {
      Conservation(UsedSet(), poolSize);
      usedCount
    }

    /** `operator[]` read: the payload of a slot, used or not. */
    function Get(slot: nat): T
      reads this, pool
      requires slot < pool.Length
    {
      pool[slot]
    }

    /** `operator[]` write: storing through the reference changes that payload
        only; the bitmap and the used set are untouched. */
    method Put(slot: nat, v: T)
      requires Valid() && slot < poolSize
      modifies pool
      ensures Valid() && UsedSet() == old(UsedSet())
      ensures pool[..] == old(pool[..])[slot := v]
    {
      pool[slot] := v;
    }

    /** `findUsed(start_ptr)`: the words after `*start_ptr`, or all words when
        no cursor is passed, are scanned for one that is not empty; its lowest
        set bit, found as `temp ^ (temp & (temp - 1))` and the de Bruijn table,
        is the lowest used slot from that word on. A cursor that was passed
        moves to the word found. `None` stands for `POOL_ERROR`. */
    method FindUsed(start: Option<nat>) returns (r: Option<nat>, cursor: Option<nat>)
      requires Valid()
      ensures var first := if start.None? then 0 else start.value + 1;
        r == LowestFrom(UsedSet(), poolSize, 32 * first, true)
      ensures cursor == if start.Some? && r.Some? then Some(r.value / 32) else start
    {
      ghost var ws := used[..];
      var first := if start.None? then 0 else start.value + 1;
      var i := first;
      while i < usedSize
        invariant first <= i
        invariant forall k :: first <= k < i && k < |ws| ==> ws[k] == 0
      {
        if used[i] != 0 {
          var bit := LowestOnePosition(used[i]);
          var slot := SlotIndex(i, bit);
          FirstNonZeroWord(ws, poolSize, first, i);
          r := Some(slot);
          cursor := if start.Some? then Some(i) else start;
          return;
        }
        i := i + 1;
      }
      if first <= usedSize {
        NoNonZeroWord(ws, poolSize, first);
      }
      r := None;
      cursor := start;
    }

    /** `iterate(func_ptr)`: every used slot is passed to the callback once,
        word by word and, inside a word, lowest bit first
        (`temp &= temp - 1` drops the bit just visited). The callback is
        recorded as the sequence of slots it receives. */
    method Iterate() returns (visited: seq<nat>)
      requires Valid()
      ensures visited == InOrder(UsedSet(), poolSize)
    {
      ghost var ws := used[..];
      ghost var u := UsedSlots(ws, poolSize);
      visited := [];
      var i := 0;
      while i < usedSize
        invariant i <= usedSize
        invariant visited == InOrder(u, 32 * i)
      {
        visited := VisitWord(i, ws, visited);
        i := i + 1;
      }
      InOrderSkip(u, poolSize, 32 * usedSize);
    }

    /** The inner loop of `iterate` over word `i`: while `temp` has a set
        bit, its lowest one is visited and dropped. */
    method VisitWord(i: nat, ghost ws: seq<bv32>, visited0: seq<nat>) returns (visited: seq<nat>)
      requires ws == used[..] && i < |ws| && PaddingClear(ws, poolSize)
      requires visited0 == InOrder(UsedSlots(ws, poolSize), 32 * i)
      ensures visited == InOrder(UsedSlots(ws, poolSize), 32 * (i + 1))
    {
      ghost var u := UsedSlots(ws, poolSize);
      visited := visited0;
      var temp := used[i];
      ghost var p: nat := 0;
      while temp != 0
        invariant p <= 32
        invariant forall j: Idx :: Bit(temp, j) == (Bit(ws[i], j) && j as int >= p)
        invariant visited == InOrder(u, 32 * i + p)
        decreases 32 - p
      {
        var rest, b := DropLowestOne(temp);
        IterateBit(ws, poolSize, i, p, temp);
        IterateRest(ws[i], p, temp, b, rest);
        visited := visited + [SlotIndex(i, b)];
        temp := rest;
        p := b as int + 1;
      }
      ZeroBits(temp);
      IterateWordDone(ws, poolSize, i, p);
    }

    /** Puts back the bitmap saved before a batch. */
    method Restore(saved: seq<bv32>)
      requires |saved| == used.Length
      modifies used
      ensures used[..] == saved
    {
      forall j | 0 <= j < used.Length {
        used[j] := saved[j];
      }
    }

    /** The claiming loop of `allocate(count)`: from the cursor on, each word
        that is not full gives up its lowest clear bit until `count` slots are
        claimed (`next` is then the word of the last claim), or the words run
        out or the claim lands past the capacity, in which case the bitmap is
        put back. `first` is the lowest slot claimed. */
    method ClaimBatch(count: nat) returns (first: Option<nat>, next: nat)
      requires 0 < count && used.Length == usedSize && usedSize == WordsFor(poolSize)
      requires freePtr <= usedSize && FullBefore(used[..], freePtr) && PaddingClear(used[..], poolSize)
      modifies used
      ensures first.None? ==>
        used[..] == old(used[..]) && |FreeSlots(UsedSlots(old(used[..]), poolSize), poolSize)| < count
      ensures first.Some? ==>
        var u0 := UsedSlots(old(used[..]), poolSize);
        count <= |FreeSlots(u0, poolSize)| && first == LowestFree(u0, poolSize) &&
        UsedSlots(used[..], poolSize) == ClaimLowest(u0, poolSize, count) &&
        freePtr <= next <= usedSize && FullBefore(used[..], next) && PaddingClear(used[..], poolSize)
    {
      ghost var u0 := UsedSet();
      var saved := used[..];
      ghost var ws := saved;
      var i := freePtr;
      var remaining := count;
      first := None;
      var exhausted := false;
      ghost var c := 0;
      while i < usedSize && remaining > 0 && !exhausted
        invariant ws == used[..] && |ws| == usedSize
        invariant freePtr <= i <= usedSize && 0 <= remaining <= count && c == count - remaining
        invariant c <= |FreeSlots(u0, poolSize)|
        invariant !exhausted ==> FullBefore(ws, i) && PaddingClear(ws, poolSize)
        invariant !exhausted ==> UsedSlots(ws, poolSize) == ClaimLowest(u0, poolSize, c)
        invariant exhausted ==> remaining > 0 && |FreeSlots(u0, poolSize)| == c
        invariant first == if c == 0 then None else LowestFree(u0, poolSize)
        decreases usedSize - i, remaining, if exhausted then 0 else 1
      {
        if used[i] != FULL {
          var slot;
          slot, c := ClaimInWord(i, u0, c);
          ws := used[..];
          if slot >= poolSize {
            exhausted := true;
          } else {
            remaining := remaining - 1;
            if first.None? {
              first := Some(slot);
            }
          }
        } else {
          FullBeforeNext(ws, i);
          i := i + 1;
        }
      }
      if remaining == 0 {
        return first, i;
      }
      if !exhausted {
        AllWordsFull(ws, poolSize);
        ClaimExhausted(u0, poolSize, c);
      }
      // Too few free slots: undo the claims made so far.
      Restore(saved);
      return None, freePtr;
    }

    /** `allocate(count)`: `count` first-fit claims from the cursor on, which
        together succeed and return the lowest slot claimed or fail and change
        nothing (SlotSpec.AllocateBatch). `None` stands for `POOL_ERROR`. */
    method Allocate(count: nat) returns (r: Option<nat>)
      requires Valid()
      modifies this, used
      ensures Valid()
      ensures (UsedSet(), r) == AllocateBatch(old(UsedSet()), poolSize, count)
      ensures poolSize == old(poolSize) && used == old(used) && pool == old(pool) && initialised == old(initialised)
      ensures r.None? ==> used[..] == old(used[..]) && freePtr == old(freePtr)
      ensures r.Some? ==> usedCount == old(usedCount) + count
      ensures old(freePtr) <= freePtr
    {
      if count == 0 {
        return None;
      }
      ghost var u0 := UsedSet();
      var next;
      r, next := ClaimBatch(count);
      if r.Some? {
        BatchSucceeds(u0, poolSize, count);
        ClaimLowestCount(u0, poolSize, count);
        usedCount := usedCount + count;
        freePtr := next;
      }
    }
  }
}
