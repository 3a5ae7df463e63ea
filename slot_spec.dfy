/**
  The abstract state shared by both bitmap pools: a set of used slot numbers
  below a capacity `n`. Each pool stores it in its own packed encoding
  (32-bit words with 1 = used, 64-bit words with 1 = free) and is proved
  against the functions here.
*/
module SlotSpec {
  import opened Wrappers

  /** The slots below `n` that are not used. */
  ghost function FreeSlots(used: set<nat>, n: nat): set<nat>
  {
    set s | 0 <= s < n && s !in used
  }

  /** Every used slot is below the capacity. */
  ghost predicate Bounded(used: set<nat>, n: nat)
  {
    forall s :: s in used ==> s < n
  }

  /** The lowest slot in `from .. n-1` whose membership in `used` is `inUsed`:
      the first-fit search both pools perform, for a free slot or a used one. */
  ghost function LowestFrom(used: set<nat>, n: nat, from: nat, inUsed: bool): (r: Option<nat>)
    ensures r.Some? ==> from <= r.value < n && (r.value in used) == inUsed
    ensures forall s :: from <= s < n && (r.None? || s < r.value) ==> (s in used) != inUsed
    decreases n - from
  {
    if from >= n then None
    else if (from in used) == inUsed then Some(from)
    else LowestFrom(used, n, from + 1, inUsed)
  }

  /** The lowest free slot, if any. */
  ghost function LowestFree(used: set<nat>, n: nat): Option<nat>
  {
    LowestFrom(used, n, 0, false)
  }

  /** One first-fit claim: the lowest free slot becomes used. */
  ghost function ClaimOne(used: set<nat>, n: nat): set<nat>
  {
    match LowestFree(used, n)
    case None => used
    case Some(k) => used + {k}
  }

  /** `k` first-fit claims in a row. */
  ghost function ClaimLowest(used: set<nat>, n: nat, k: nat): set<nat>
    decreases k
  {
    if k == 0 then used else ClaimOne(ClaimLowest(used, n, k - 1), n)
  }

  /** The intended outcome of `allocate(count)`: either `count` first-fit claims
      and the lowest slot claimed, or (count 0, or too few free slots) no change
      and no slot. */
  ghost function AllocateBatch(used: set<nat>, n: nat, count: nat): (set<nat>, Option<nat>)
  {
    if count == 0 || |FreeSlots(used, n)| < count then (used, None)
    else (ClaimLowest(used, n, count), LowestFree(used, n))
  }

  /** The used slots below `hi`, in ascending order: what an iteration over the
      bitmap visits. */
  ghost function InOrder(used: set<nat>, hi: nat): seq<nat>
    decreases hi
  {
    if hi == 0 then [] else InOrder(used, hi - 1) + (if hi - 1 in used then [hi - 1] else [])
  }

  // ---------------------------------------------------------------------------
  // Properties of the specification

  /** Capacity conservation: used slots plus free slots make up the capacity. */
  lemma {:induction false} Conservation(used: set<nat>, n: nat)
    requires Bounded(used, n)
    ensures |used| + |FreeSlots(used, n)| == n
  {
    if n == 0 {
      assert used == {} && FreeSlots(used, n) == {};
    } else {
      var rest := used - {n - 1};
      Conservation(rest, n - 1);
      if n - 1 in used {
        assert FreeSlots(used, n) == FreeSlots(rest, n - 1);
      } else {
        assert FreeSlots(used, n) == FreeSlots(rest, n - 1) + {n - 1};
      }
    }
  }

  /** Claiming the lowest free slot uses exactly that slot, and it is free. */
  lemma ClaimOneEffect(used: set<nat>, n: nat)
    ensures LowestFree(used, n).Some? ==>
      var k := LowestFree(used, n).value;
      k !in used && k < n && ClaimOne(used, n) == used + {k} &&
      FreeSlots(ClaimOne(used, n), n) == FreeSlots(used, n) - {k}
    ensures LowestFree(used, n).None? <==> FreeSlots(used, n) == {}
  {
    if LowestFree(used, n).None? {
      assert forall s :: s in FreeSlots(used, n) ==> s in used;
    } else {
      var k := LowestFree(used, n).value;
      assert k in FreeSlots(used, n);
    }
  }

  /** `k` claims with at least `k` free slots: each claims a new slot below `n`,
      so the free count drops by exactly `k` and the used set only grows. */
  lemma {:induction false} ClaimLowestCount(used: set<nat>, n: nat, k: nat)
    requires k <= |FreeSlots(used, n)|
    ensures |FreeSlots(ClaimLowest(used, n, k), n)| == |FreeSlots(used, n)| - k
    ensures |ClaimLowest(used, n, k)| == |used| + k
  {
    if k > 0 {
      ClaimLowestCount(used, n, k - 1);
      var prev := ClaimLowest(used, n, k - 1);
      ClaimOneEffect(prev, n);
      assert FreeSlots(prev, n) != {};
      var x := LowestFree(prev, n).value;
      assert ClaimLowest(used, n, k) == prev + {x};
    }
  }

  /** Claims only ever add slots. */
  lemma {:induction false} ClaimLowestGrows(used: set<nat>, n: nat, k: nat)
    ensures used <= ClaimLowest(used, n, k)
  {
    if k > 0 {
      ClaimLowestGrows(used, n, k - 1);
    }
  }

  /** Claims only ever take slots below the capacity. */
  lemma {:induction false} ClaimLowestBelow(used: set<nat>, n: nat, k: nat)
    ensures forall s :: s in ClaimLowest(used, n, k) ==> s in used || s < n
  {
    if k > 0 {
      ClaimLowestBelow(used, n, k - 1);
    }
  }

  /** First fit: every slot claimed by `k` claims is below every slot left free. */
  lemma {:induction false} ClaimLowestFirstFit(used: set<nat>, n: nat, k: nat)
    ensures forall a, b :: a in ClaimLowest(used, n, k) && a !in used && b in FreeSlots(ClaimLowest(used, n, k), n) ==> a < b
  {
    if k > 0 {
      ClaimLowestFirstFit(used, n, k - 1);
      var prev := ClaimLowest(used, n, k - 1);
      ClaimOneEffect(prev, n);
      forall a, b | a in ClaimLowest(used, n, k) && a !in used && b in FreeSlots(ClaimLowest(used, n, k), n)
        ensures a < b
      {
        assert b in FreeSlots(prev, n);
        if a !in prev {
          assert a == LowestFree(prev, n).value;
        }
      }
    }
  }

  /** The first claim of a batch takes the lowest free slot, which is the
      lowest slot the batch claims. */
  lemma {:induction false} ClaimLowestFirst(used: set<nat>, n: nat, k: nat)
    requires 1 <= k && LowestFree(used, n).Some?
    ensures LowestFree(used, n).value in ClaimLowest(used, n, k)
    ensures forall a :: a in ClaimLowest(used, n, k) && a !in used ==> LowestFree(used, n).value <= a
  {
    if k == 1 {
      assert ClaimLowest(used, n, 0) == used;
    } else {
      ClaimLowestFirst(used, n, k - 1);
      var prev := ClaimLowest(used, n, k - 1);
      ClaimOneEffect(prev, n);
      forall a | a in ClaimLowest(used, n, k) && a !in used
        ensures LowestFree(used, n).value <= a
      {
        if a !in prev {
          var first := LowestFree(used, n).value;
          assert first !in used && first < n;
        }
      }
    }
  }

  /** The intended batch allocation: it either claims `count` fresh slots and
      returns the lowest of them, or fails and changes nothing. */
  lemma AllocateBatchAtomic(used: set<nat>, n: nat, count: nat)
    ensures var (after, r) := AllocateBatch(used, n, count);
      (r.None? ==> after == used) &&
      (r.Some? <==> 0 < count <= |FreeSlots(used, n)|) &&
      (r.Some? ==> (used <= after && |after| == |used| + count && r.value in after - used &&
                    forall a :: a in after - used ==> r.value <= a && a < n))
  {
    if 0 < count <= |FreeSlots(used, n)| {
      ClaimLowestCount(used, n, count);
      ClaimLowestGrows(used, n, count);
      ClaimLowestBelow(used, n, count);
      ClaimOneEffect(used, n);
      ClaimLowestFirst(used, n, count);
    }
  }

  /** A single allocation followed by the release of the slot it returned
      restores the used set. */
  lemma AllocateOneRoundTrip(used: set<nat>, n: nat)
    ensures var (after, r) := AllocateBatch(used, n, 1);
      r.Some? ==> after - {r.value} == used
  {
    ClaimOneEffect(used, n);
    assert ClaimLowest(used, n, 1) == ClaimOne(used, n);
  }

  /** The search result is pinned down by the slot it must return: when no
      slot in `from .. s-1` below `n` has the sought membership, the result
      is `s` if `s < n` has it, and there is none if `s >= n`. */
  lemma LowestFromExact(used: set<nat>, n: nat, from: nat, inUsed: bool, s: nat)
    requires from <= s
    requires forall t: nat :: from <= t < n && t < s ==> (t in used) != inUsed
    requires s < n ==> (s in used) == inUsed
    ensures LowestFrom(used, n, from, inUsed) == if s < n then Some(s) else None
  {
    var r := LowestFrom(used, n, from, inUsed);
    if r.Some? && s < n {
      assert !(r.value < s);
      assert !(s < r.value);
    }
  }

  /** One more claim of a batch that has not yet exhausted the free slots:
      the slot the search finds is new, and it is the batch's first slot when
      nothing has been claimed yet. */
  lemma ClaimAdvance(used: set<nat>, n: nat, c: nat, slot: nat)
    requires c <= |FreeSlots(used, n)|
    requires LowestFree(ClaimLowest(used, n, c), n) == Some(slot)
    ensures slot !in ClaimLowest(used, n, c) && slot < n
    ensures ClaimLowest(used, n, c + 1) == ClaimLowest(used, n, c) + {slot}
    ensures c + 1 <= |FreeSlots(used, n)|
    ensures c == 0 ==> LowestFree(used, n) == Some(slot)
  {
    var cur := ClaimLowest(used, n, c);
    ClaimLowestCount(used, n, c);
    ClaimOneEffect(cur, n);
    assert slot in FreeSlots(cur, n);
  }

  /** A batch whose search finds no free slot after `c` claims had exactly
      `c` free slots to begin with. */
  lemma ClaimExhausted(used: set<nat>, n: nat, c: nat)
    requires c <= |FreeSlots(used, n)|
    requires LowestFree(ClaimLowest(used, n, c), n).None?
    ensures |FreeSlots(used, n)| == c
  {
    ClaimLowestCount(used, n, c);
    ClaimOneEffect(ClaimLowest(used, n, c), n);
  }

  lemma {:induction false} InOrderMembers(used: set<nat>, hi: nat)
    ensures forall x :: x in InOrder(used, hi) <==> x in used && x < hi
  {
    if hi > 0 {
      InOrderMembers(used, hi - 1);
    }
  }

  /** Iteration order: the visited slots are strictly ascending. */
  lemma {:induction false} InOrderAscending(used: set<nat>, hi: nat)
    ensures forall i, j :: 0 <= i < j < |InOrder(used, hi)| ==> InOrder(used, hi)[i] < InOrder(used, hi)[j]
  {
    if hi > 0 {
      InOrderAscending(used, hi - 1);
      InOrderMembers(used, hi - 1);
      var prev := InOrder(used, hi - 1);
      if hi - 1 in used {
        assert forall i :: 0 <= i < |prev| ==> prev[i] in prev;
      }
    }
  }

  /** Stretching the bound over a used slot appends it. */
  lemma InOrderStep(used: set<nat>, s: nat)
    requires s in used
    ensures InOrder(used, s + 1) == InOrder(used, s) + [s]
  {
  }

  /** Stretching the bound over slots that are not used adds nothing. */
  lemma {:induction false} InOrderSkip(used: set<nat>, lo: nat, hi: nat)
    requires lo <= hi
    requires forall s :: lo <= s < hi ==> s !in used
    ensures InOrder(used, hi) == InOrder(used, lo)
    decreases hi - lo
  {
    if lo < hi {
      InOrderSkip(used, lo, hi - 1);
    }
  }

  /** Iteration completeness: every used slot is visited exactly once. */
  lemma InOrderExactlyOnce(used: set<nat>, n: nat)
    requires Bounded(used, n)
    ensures forall s :: s in used <==> s in InOrder(used, n)
    ensures forall i, j :: 0 <= i < j < |InOrder(used, n)| ==> InOrder(used, n)[i] != InOrder(used, n)[j]
  {
    InOrderMembers(used, n);
    InOrderAscending(used, n);
  }
}
