/**
  `llist<type>` as its code is written, where that differs from the note at
  the head of the class and from what the names promise. The intended
  behaviour is the one module LListModel implements and proves.
*/
module LListFindings {
  import opened LListModel

  /** What `privDealloc(from, to)` unlinks as written: it decrements both
      bounds, so it unlinks the nodes `lo .. hi - 1`, one fewer than the
      inclusive range `lo ..= hi`. */
  function RemovedAsWritten<T>(xs: seq<T>, from: nat, to: nat): (r: seq<T>)
    requires 1 <= from <= |xs| && 1 <= to <= |xs|
    ensures var lo, hi := Min(from, to), if from < to then to else from;
            |r| == |xs| - (hi - lo)
            && (forall i :: 0 <= i < lo - 1 ==> r[i] == xs[i])
            && (forall i :: hi - 1 <= i < |xs| ==> r[i - (hi - lo)] == xs[i])
  {
    var lo, hi := Min(from, to), if from < to then to else from;
    xs[..lo - 1] + xs[hi - 1..]
  }

  /** `dealloc(slot)` calls `privDealloc(slot + 1, slot + 1)`, which as
      written unlinks nothing; the intended call removes element `slot`. */
  lemma {:induction false} DeallocAsWrittenRemovesNothing<T>(xs: seq<T>, slot: nat)
    requires slot < |xs|
    ensures RemovedAsWritten(xs, slot + 1, slot + 1) == xs
    ensures |Removed(xs, slot + 1, slot + 1)| == |xs| - 1
  {
    var r := RemovedAsWritten(xs, slot + 1, slot + 1);
    assert forall i :: 0 <= i < |xs| ==> r[i] == xs[i];
  }

  /** The list after `swap(nodeA, nodeB)` as written, for two distinct
      indices in range: the cursor goes to the larger index `hi` first, so
      the loop meant to reach `lo` never moves, and the two links it
      exchanges are the same link. */
  function SwapAsWritten<T>(xs: seq<T>, nodeA: nat, nodeB: nat): (r: seq<T>)
    requires nodeA < |xs| && nodeB < |xs| && nodeA != nodeB
    ensures |r| == |xs|
  {
    var hi := if nodeA < nodeB then nodeB else nodeA;
    var temp := hi;
    var current := hi;
    Exchanged(xs, temp, current)
  }

  /** As written `swap` never changes the list. */
  lemma SwapAsWrittenChangesNothing<T>(xs: seq<T>, nodeA: nat, nodeB: nat)
    requires nodeA < |xs| && nodeB < |xs| && nodeA != nodeB
    ensures SwapAsWritten(xs, nodeA, nodeB) == xs
  {
    var hi := if nodeA < nodeB then nodeB else nodeA;
    assert xs[hi := xs[hi]] == xs;
  }

  /** On the list `[1, 2]`, `swap(0, 1)` as written leaves `[1, 2]`; the
      intended result is `[2, 1]`. */
  lemma SwapAsWrittenExample()
    ensures SwapAsWritten([1, 2], 0, 1) == [1, 2]
    ensures Exchanged([1, 2], 0, 1) == [2, 1]
  {
    SwapAsWrittenChangesNothing([1, 2], 0, 1);
  }
}
