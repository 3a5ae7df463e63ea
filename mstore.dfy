/**
  The resizable slot store `mstore<T>`: a payload array beside an array of
  64-bit free words in which bit `s & 63` of word `s >> 6` is 1 exactly when
  slot `s` is free. The abstract state is the set of used slots (module
  SlotSpec); the ghost field `view` holds the complemented halves of the free
  words, the used-slot bitmap of module SlotBitmap, and the free words are
  proved to refine it.
*/
module MStoreModel {
  import opened Wrappers
  import opened Bits32
  import opened SlotSpec
  import opened SlotBitmap
  import opened MStoreWords

  /** `mstore<T>`. `free` holds the 64-bit words as their 32-bit halves, low
      half first, so `fsize` words take `2 * fsize` halves. The word cursor
      `last` stands for the source's `last` pointer: no word before it has a
      free bit. `zero` is the payload whose bytes are all zero, which
      `resize` writes into new slots. */
  class MStore<T(0)> {
    var data: array<T>
    var free: array<bv32>
    var last: nat
    var dsize: nat
    var fsize: nat
    ghost var view: seq<bv32>
    const zero: T

    /** The set of used slots the free words record. */
    ghost function UsedSet(): set<nat>
      reads this
    {
      UsedSlots(view, dsize)
    }

    ghost predicate Valid()
      reads this, free
    {
      data as object != free &&
      data.Length == dsize && fsize == FreeWordsFor(dsize) && free.Length == 2 * fsize &&
      UsedView(view, free[..]) &&
      last <= fsize && FullBefore(view, 2 * last) &&
      PaddingClear(view, dsize)
    }

    /** `mstore()`: no slots, no words, no cursor. */
    constructor (zero: T)
      ensures Valid() && dsize == 0 && fsize == 0 && UsedSet() == {}
      ensures this.zero == zero && fresh(free) && fresh(data)
    {
      this.zero := zero;
      data := new T[0];
      free := new bv32[0];
      last := 0;
      dsize := 0;
      fsize := 0;
      view := [];
      new;
      assert UsedSet() == {};
    }

    /** `mstore(new_size)`: an empty store followed by `resize(new_size)`;
        `allocFails` stands for a failing `realloc`. */
    constructor WithSize(zero: T, n: nat, allocFails: bool)
      ensures Valid() && UsedSet() == {} && this.zero == zero && fresh(free) && fresh(data)
      ensures if n == 0 || !allocFails then dsize == n && fsize == FreeWordsFor(n) else dsize == 0 && fsize == 0
    {
      this.zero := zero;
      data := new T[0];
      free := new bv32[0];
      last := 0;
      dsize := 0;
      fsize := 0;
      view := [];
      new;
      assert UsedSet() == {};
      var ok := Resize(n, allocFails);
    }

    /** `release()`: no slots, no words, nothing used. */
    method Release()
      modifies this
      ensures Valid() && dsize == 0 && fsize == 0 && last == 0 && UsedSet() == {}
      ensures fresh(free) && fresh(data)
    {
      free := new bv32[0];
      data := new T[0];
      last := 0;
      dsize := 0;
      fsize := 0;
      view := [];
      assert UsedSet() == {};
    }

    /** `resize(new_size)`: the arrays are reallocated to `n` slots and
        `ceil(n / 64)` words. When a reallocation fails (`allocFails`, which
        does not count for `n == 0`) the store is released and the result is
        false. Otherwise slots and words are kept up to the new size, new
        words are all free and new payloads zero; the used slots that survive
        are those below `n`, with the dropped slots of the last word freed;
        the cursor goes back to the first word. */
    method Resize(n: nat, allocFails: bool) returns (ok: bool)
      requires Valid()
      modifies this
      ensures Valid()
      ensures ok == (n == 0 || !allocFails) && fresh(free) && fresh(data)
      ensures !ok ==> dsize == 0 && fsize == 0 && UsedSet() == {}
      ensures ok ==> dsize == n && fsize == FreeWordsFor(n) && last == 0
      ensures ok ==> UsedSet() == KeptBelow(old(UsedSet()), n)
      ensures ok ==> forall i :: 0 <= i < n ==> data[i] == if i < old(dsize) then old(data[i]) else zero
    {
      if n != 0 && allocFails {
        Release();
        return false;
      }
      var nf, v := ResizedWords(free, view, dsize, n);
      var nd := CopyData(data, n, zero);
      free := nf;
      data := nd;
      dsize := n;
      fsize := FreeWordsFor(n);
      last := 0;
      view := v;
      return true;
    }

    /** The free words after `resize` from `n` to `n'` slots, and their view
        `v`: the used slots that survive are those below `n'`. */
    static method ResizedWords(free: array<bv32>, ghost hs: seq<bv32>, n: nat, n': nat)
      returns (nf: array<bv32>, ghost v: seq<bv32>)
      requires free.Length == 2 * FreeWordsFor(n) && UsedView(hs, free[..]) && PaddingClear(hs, n)
      ensures fresh(nf) && nf.Length == 2 * FreeWordsFor(n') && UsedView(v, nf[..])
      ensures UsedSlots(v, n') == KeptBelow(UsedSlots(hs, n), n') && PaddingClear(v, n')
    {
      if n' < n {
        nf := ShrunkWords(free, hs, n, n');
      } else {
        nf := CopyWords(free, 2 * FreeWordsFor(n'));
        GrowView(hs, free[..], nf[..], n, n');
      }
      v := Complement(nf[..]);
    }

    /** The shrinking case of `ResizedWords`, with the intended freeing of
        the dropped slots of the last word. */
    static method ShrunkWords(free: array<bv32>, ghost hs: seq<bv32>, n: nat, n': nat) returns (nf: array<bv32>)
      requires free.Length == 2 * FreeWordsFor(n) && UsedView(hs, free[..]) && PaddingClear(hs, n) && n' < n
      ensures fresh(nf) && nf.Length == 2 * FreeWordsFor(n')
      ensures UsedSlots(Complement(nf[..]), n') == KeptBelow(UsedSlots(hs, n), n')
      ensures PaddingClear(Complement(nf[..]), n')
    {
      nf := CopyWords(free, 2 * FreeWordsFor(n'));
      LastHalves(n');
      var r := ToIdx(n' % 32);
      if n' / 32 < nf.Length {
        FreeTail(nf, n' / 32, r);
      }
      ShrinkView(hs, free[..], nf[..], hs[..nf.Length], Complement(nf[..]), n, n', r);
    }

    /** `allocate()` with the intended word count and slot number: the scan
        runs over the `fsize - last` words from the cursor on, the first
        word with a free bit becomes the cursor, and its lowest free bit is
        claimed, giving slot `64 * word + bit`. The result is the lowest free
        slot, and the store records it as used; when no word from the cursor
        on has a free bit, or the free bit found lies in the padding after
        the last slot, there is no result and nothing is claimed. */
    method Allocate() returns (r: Option<nat>)
      requires Valid()
      modifies this, free
      ensures Valid()
      ensures (UsedSet(), r) == AllocateBatch(old(UsedSet()), dsize, 1)
      ensures dsize == old(dsize) && fsize == old(fsize) && data == old(data) && free == old(free)
      ensures r.None? ==> free[..] == old(free[..])
      ensures r.Some? ==> 64 * last <= r.value < 64 * last + 64
      ensures r.None? ==> last == old(last) || last + 1 == fsize
    {
      var k := last;
      var count := fsize - last;
      while count > 0 && free[2 * k] == 0 && free[2 * k + 1] == 0
        invariant last <= k <= fsize && k + count == fsize
        invariant FullBefore(view, 2 * k)
        decreases count
      {
        k := k + 1;
        count := count - 1;
      }
      if count == 0 {
        AllocateNone(view, dsize);
        return None;
      }
      r := TakeInWord(k);
    }

    /** The `found:` part of `allocate()` on word `k`, which has a free bit
        while every word before it has none. The `bsf` on the 64-bit word
        finds its lowest free bit in the low half when that has one, else in
        the high half; `lea`/`and` clears it. */
    method TakeInWord(k: nat) returns (r: Option<nat>)
      requires Valid() && k < fsize && FullBefore(view, 2 * k)
      requires free[2 * k] != 0 || free[2 * k + 1] != 0
      modifies this, free
      ensures Valid()
      ensures (UsedSet(), r) == AllocateBatch(old(UsedSet()), dsize, 1)
      ensures dsize == old(dsize) && fsize == old(fsize) && data == old(data) && free == old(free)
      ensures r.None? ==> free[..] == old(free[..])
      ensures last == k
      ensures r.Some? ==> 64 * k <= r.value < 64 * k + 64
      ensures r.None? ==> k + 1 == fsize
    {
      var h := if free[2 * k] != 0 then 2 * k else 2 * k + 1;
      var x := free[h];
      var slot := FoundSlot(h, x);
      var x' := x & (x - 1);
      TakeInHalf(view, free[..], dsize, k, h, x, x', slot);
      SlotInWord(dsize, k, h, slot, fsize);
      if dsize <= slot {
        last := k;
        return None;
      }
      ViewUpdate(view, free[..], h, x');
      FullBeforeUpdate(view, h, !x', 2 * k);
      ClearFound(k, h, x');
      r := Some(slot);
    }

    /** The `bsf` of the `found:` step and the slot number it makes: the
        lowest free bit of half `h`, whose value is `x`, plus 32 per half
        before it. */
    method FoundSlot(h: nat, x: bv32) returns (slot: nat)
      requires x != 0
      ensures slot == SlotIndex(h, LowestOne(x)) && 32 * h <= slot < 32 * h + 32
    {
      var pos := LowestOnePosition(x);
      slot := 32 * h + pos as int;
    }

    /** The end of the `found:` step: the cursor moves to word `k` and half
        `h` of the free words becomes `x`, the half with the found bit
        cleared. */
    method ClearFound(k: nat, h: nat, x: bv32)
      requires Valid() && k <= fsize && h < free.Length
      requires UsedView(view[h := !x], free[..][h := x])
      requires FullBefore(view[h := !x], 2 * k) && PaddingClear(view[h := !x], dsize)
      modifies this, free
      ensures Valid() && last == k
      ensures view == old(view)[h := !x] && free[..] == old(free[..])[h := x]
      ensures dsize == old(dsize) && fsize == old(fsize) && data == old(data) && free == old(free)
    {
      last := k;
      free[h] := x;
      view := view[h := !x];
      assert free[..] == old(free[..])[h := x];
    }

    /** `deallocate(slot)`: the cursor moves back to the slot's word when
        that lies before it, and `bts` sets bit `slot & 63` of word
        `slot >> 6`, so the slot reads as free. The slot must lie in a word of
        the store, which the source does not check. */
    method Deallocate(slot: nat)
      requires Valid() && slot / 64 < fsize
      modifies this, free
      ensures Valid()
      ensures UsedSet() == old(UsedSet()) - {slot}
      ensures last == if slot / 64 < old(last) then slot / 64 else old(last)
      ensures dsize == old(dsize) && fsize == old(fsize) && data == old(data) && free == old(free)
    {
      var k := slot / 64;
      if k < last {
        last := k;
      }
      var h := slot / 32;
      var b := ToIdx(slot % 32);
      var x := free[h];
      ReleaseHalf(view, free[..], dsize, h, b, x);
      ReleaseView(view, free[..], h, b, x);
      assert SlotIndex(h, b) == slot;
      FullBeforeUpdate(view, h, !(x | Mask(b)), 2 * last);
      free[h] := x | Mask(b);
      view := view[h := !(x | Mask(b))];
      assert free[..] == old(free[..])[h := x | Mask(b)];
    }

    /** `iterate(function, argument)`: every word is complemented into
        `temp`, and while `temp` has a set bit its lowest one is found with
        `bsf`, cleared with `lea`/`and`, and the slot `64 * word + bit` is
        passed to the callback. The result is the sequence of slots passed:
        the used slots in ascending order, each once. */
    method Iterate() returns (visited: seq<nat>)
      requires Valid()
      ensures visited == InOrder(UsedSet(), dsize)
    {
      visited := IterateWords(free, view, dsize, fsize, UsedSet());
    }

    /** The outer loop of `iterate` over the `f` words of `free`, whose view
        `hs` records the used slots `u`. */
    static method IterateWords(free: array<bv32>, ghost hs: seq<bv32>, n: nat, f: nat, ghost u: set<nat>)
      returns (visited: seq<nat>)
      requires free.Length == 2 * f && n <= 64 * f && UsedView(hs, free[..]) && PaddingClear(hs, n)
      requires u == UsedSlots(hs, n)
      ensures visited == InOrder(u, n)
    {
      visited := [];
      var i := 0;
      while i < f
        invariant i <= f
        invariant visited == InOrder(u, 64 * i)
      {
        visited := VisitWord(free, hs, n, u, i, visited);
        i := i + 1;
      }
      ScanPadding(u, hs, n, 64 * f);
    }

    /** The inner loop of `iterate` over word `i`, on the halves `lo` and
        `hi` of `temp`; the ghost cursor `c` is the slot after the last one
        visited. */
    static method VisitWord(free: array<bv32>, ghost hs: seq<bv32>, n: nat, ghost u: set<nat>, i: nat, visited0: seq<nat>)
      returns (visited: seq<nat>)
      requires 2 * i + 1 < free.Length && UsedView(hs, free[..]) && PaddingClear(hs, n)
      requires u == UsedSlots(hs, n) && visited0 == InOrder(u, 64 * i)
      ensures visited == InOrder(u, 64 * i + 64)
    {
      visited := visited0;
      var lo, hi := !free[2 * i], !free[2 * i + 1];
      ScanStart(hs, i);
      ghost var c := 64 * i;
      while lo != 0 || hi != 0
        invariant Scanning(hs, i, c, lo, hi)
        invariant visited == InOrder(u, c)
        decreases 64 * i + 64 - c
      {
        var lo', hi', pos := LowestOneAndClear(lo, hi);
        ScanOrder(hs, n, u, i, c, lo, hi, pos);
        ScanRest(hs, i, c, lo, hi, lo', hi', pos);
        visited := visited + [64 * i + pos];
        lo, hi := lo', hi';
        c := 64 * i + pos + 1;
      }
      ScanDone(hs, n, u, i, c);
    }

    /** `operator[]` read: the payload of a slot, used or not. */
    function Get(slot: nat): T
      reads this, data
      requires slot < data.Length
    {
      data[slot]
    }

    /** `operator[]` write: storing through the reference changes that
        payload only; the free words and the used set are untouched. */
    method Put(slot: nat, v: T)
      requires Valid() && slot < dsize
      modifies data
      ensures Valid() && UsedSet() == old(UsedSet())
      ensures data[..] == old(data[..])[slot := v]
    {
      data[slot] := v;
      assert free[..] == old(free[..]);
    }

    /** `realloc` of the free words to `len` halves followed by the `memset`
        of the new ones to all ones (all free). */
    static method CopyWords(free: array<bv32>, len: nat) returns (nf: array<bv32>)
      ensures fresh(nf) && nf.Length == len
      ensures forall i :: 0 <= i < len ==> nf[i] == if i < free.Length then free[i] else FULL
    {
      nf := new bv32[len](i requires 0 <= i reads free => if i < free.Length then free[i] else FULL);
    }

    /** `realloc` of the payloads to `n` slots followed by the `memset` of
        the new ones to zero bytes. */
    static method CopyData(data: array<T>, n: nat, zero: T) returns (nd: array<T>)
      ensures fresh(nd) && nd.Length == n
      ensures forall i :: 0 <= i < n ==> nd[i] == if i < data.Length then data[i] else zero
    {
      nd := new T[n](i requires 0 <= i reads data => if i < data.Length then data[i] else zero);
    }

    /** The intended end of a shrinking `resize` to `n` slots: in the last
        word, the bits of the dropped slots (from `n & 63` on) are set, so
        those slots read as free. On the halves, with `h = n / 32` and
        `r = n % 32`: the bits from `r` on of half `h`, and all of the half
        after it when that is the high half of the same word. */
    static method FreeTail(nf: array<bv32>, h: nat, r: Idx)
      requires h < nf.Length
      modifies nf
      ensures forall i :: 0 <= i < nf.Length && i != h && i != h + 1 ==> nf[i] == old(nf[i])
      ensures nf[h] == old(nf[h]) | (FULL << r)
      ensures h + 1 < nf.Length ==> nf[h + 1] == FULL
    {
      nf[h] := nf[h] | (FULL << r);
      if h + 1 < nf.Length {
        nf[h + 1] := FULL;
      }
    }

    /** Growing (or keeping the size): the copied free words with new words
        of all ones give a view whose used slots are the old ones. */
    static lemma GrowView(hs: seq<bv32>, fs: seq<bv32>, nfs: seq<bv32>, n: nat, n': nat)
      requires UsedView(hs, fs) && PaddingClear(hs, n) && n <= n' <= 32 * |nfs|
      requires forall i :: 0 <= i < |nfs| ==> nfs[i] == if i < |fs| then fs[i] else FULL
      ensures UsedSlots(Complement(nfs), n') == KeptBelow(UsedSlots(hs, n), n')
      ensures PaddingClear(Complement(nfs), n')
    {
      CopyView(hs, Complement(nfs));
      ResizeView(hs, n, n', Complement(nfs));
    }

    /** Shrinking: the first free words with the tail of the last word freed
        from bit position `r` (that is `n' % 32`) on give a view `v` whose
        used slots are the old ones below `n'`; `c` holds the first halves of
        the old view. */
    static lemma ShrinkView(hs: seq<bv32>, fs: seq<bv32>, nfs: seq<bv32>, c: seq<bv32>, v: seq<bv32>, n: nat, n': nat, r: Idx)
      requires UsedView(hs, fs) && UsedView(v, nfs) && PaddingClear(hs, n) && n' < n && r as int == n' % 32
      requires |c| == |nfs| <= |fs| && n' <= 32 * |nfs| && |nfs| <= n' / 32 + 2
      requires forall i :: 0 <= i < |c| ==> c[i] == hs[i]
      requires forall i :: 0 <= i < |nfs| && i != n' / 32 && i != n' / 32 + 1 ==> nfs[i] == fs[i]
      requires n' / 32 < |nfs| ==> nfs[n' / 32] == fs[n' / 32] | (FULL << r)
      requires n' / 32 + 1 < |nfs| ==> nfs[n' / 32 + 1] == FULL
      ensures UsedSlots(v, n') == KeptBelow(UsedSlots(hs, n), n')
      ensures PaddingClear(v, n')
    {
      CopyView(hs, c);
      TailOfShrink(hs, fs, nfs, c, v, n');
      if n' / 32 < |nfs| {
        ShrinkTail(fs, nfs, c, v, n' / 32, r);
      }
      TailView(c, v, n', r);
      ResizeView(hs, n, n', v);
    }

    /** Away from the half that holds slot `n'`, the view `v` of the shrunk
        words meets the requirements of `TailView` against `c`, the first
        halves of the old view. */
    static lemma TailOfShrink(hs: seq<bv32>, fs: seq<bv32>, nfs: seq<bv32>, c: seq<bv32>, v: seq<bv32>, n': nat)
      requires UsedView(hs, fs) && UsedView(v, nfs) && |c| == |nfs| <= |fs| && |nfs| <= n' / 32 + 2
      requires forall i :: 0 <= i < |c| ==> c[i] == hs[i]
      requires forall i :: 0 <= i < |nfs| && i != n' / 32 && i != n' / 32 + 1 ==> nfs[i] == fs[i]
      requires n' / 32 + 1 < |nfs| ==> nfs[n' / 32 + 1] == FULL
      ensures forall i :: 0 <= i < |c| && i < n' / 32 ==> v[i] == c[i]
      ensures forall i :: n' / 32 < i < |c| ==> v[i] == 0
    {
      forall i | 0 <= i < |c| && i != n' / 32
        ensures v[i] == if i < n' / 32 then c[i] else 0
      {
        assert v[i] == !nfs[i];
        if i < n' / 32 {
          assert c[i] == !fs[i];
        }
      }
    }

    /** At the half `h` that holds slot `n'`, the view `v` of the shrunk
        words meets the requirement of `TailView` against `c`. */
    static lemma ShrinkTail(fs: seq<bv32>, nfs: seq<bv32>, c: seq<bv32>, v: seq<bv32>, h: nat, r: Idx)
      requires h < |fs| && h < |nfs| && h < |c| && h < |v|
      requires c[h] == !fs[h] && v[h] == !nfs[h] && nfs[h] == fs[h] | (FULL << r)
      ensures forall j: Idx :: Bit(v[h], j) == (Bit(c[h], j) && j < r)
    {
      NotOfSetFrom(fs[h], r, c[h], v[h]);
    }
  }
}
