/**
  The sentinel-headed singly linked list `llist<type>`, as the sequence of its
  elements plus the traversal cursor. Node 0 is the sentinel, node `i >= 1`
  holds element `i - 1`; `currentSlot` is the node the cursor `current`
  points at. `nNodes` counts the nodes including the sentinel and `nUsable`,
  the size reported to the user, is one less.
*/
module LListModel {
  import opened Wrappers

  /** `k` fresh nodes' data, each `blank`. */
  function Blanks<T>(k: nat, blank: T): (r: seq<T>)
    ensures |r| == k && forall i :: 0 <= i < k ==> r[i] == blank
  {
    seq(k, _ => blank)
  }

  /** `xs` with `k` fresh elements inserted at element index `at`, i.e. after
      node `at`. */
  function Inserted<T>(xs: seq<T>, at: nat, k: nat, blank: T): (r: seq<T>)
    requires at <= |xs|
    ensures |r| == |xs| + k
    ensures forall i :: 0 <= i < at ==> r[i] == xs[i]
    ensures forall i :: at <= i < at + k ==> r[i] == blank
    ensures forall i :: at <= i < |xs| ==> r[i + k] == xs[i]
  {
    xs[..at] + Blanks(k, blank) + xs[at..]
  }

  /** `xs` without the nodes `lo ..= hi` (elements `lo - 1 .. hi - 1`). */
  function Removed<T>(xs: seq<T>, lo: nat, hi: nat): (r: seq<T>)
    requires 1 <= lo <= hi <= |xs|
    ensures |r| == |xs| - (hi - lo + 1)
    ensures forall i :: 0 <= i < lo - 1 ==> r[i] == xs[i]
    ensures forall i :: hi <= i < |xs| ==> r[i - (hi - lo + 1)] == xs[i]
  {
    xs[..lo - 1] + xs[hi..]
  }

  /** `xs` with elements `a` and `b` exchanged. */
  function Exchanged<T>(xs: seq<T>, a: nat, b: nat): (r: seq<T>)
    requires a < |xs| && b < |xs|
    ensures |r| == |xs| && r[a] == xs[b] && r[b] == xs[a]
    ensures forall i :: 0 <= i < |xs| && i != a && i != b ==> r[i] == xs[i]
  {
    xs[a := xs[b]][b := xs[a]]
  }

  function Min(a: nat, b: nat): nat { if a < b then a else b }

  /** Nodes inserted into an empty list are all fresh. */
  lemma InsertedIntoEmpty<T>(k: nat, blank: T)
    ensures Inserted([], 0, k, blank) == Blanks(k, blank)
  {
  }

  /** Deallocating the nodes just allocated gives back the list. */
  lemma RemoveInserted<T>(xs: seq<T>, at: nat, k: nat, blank: T)
    requires at <= |xs| && k > 0
    ensures Removed(Inserted(xs, at, k, blank), at + 1, at + k) == xs
  {
    var ys := Inserted(xs, at, k, blank);
    assert ys[..at] == xs[..at];
    assert ys[at + k..] == xs[at..];
    assert xs == xs[..at] + xs[at..];
  }

  /** Exchanging the same two elements twice gives back the list. */
  lemma ExchangeTwice<T>(xs: seq<T>, a: nat, b: nat)
    requires a < |xs| && b < |xs|
    ensures Exchanged(Exchanged(xs, a, b), a, b) == xs
  {
    var ys := Exchanged(Exchanged(xs, a, b), a, b);
    assert forall i :: 0 <= i < |xs| ==> ys[i] == xs[i];
  }

  /** One more fresh element right behind `k` fresh ones. */
  lemma InsertOneMore<T>(xs: seq<T>, at: nat, k: nat, blank: T)
    requires at <= |xs|
    ensures Inserted(xs, at, k + 1, blank)
         == Inserted(xs, at, k, blank)[..at + k] + [blank] + Inserted(xs, at, k, blank)[at + k..]
  {
    var ys := Inserted(xs, at, k, blank);
    var zs := ys[..at + k] + [blank] + ys[at + k..];
    assert |zs| == |xs| + k + 1;
    forall i | 0 <= i < |zs|
      ensures zs[i] == Inserted(xs, at, k + 1, blank)[i]
    {
      if i >= at + k + 1 {
        assert zs[i] == ys[i - 1] == xs[i - 1 - k];
      }
    }
  }

  /** Unlinking the node after node `lo` once more. */
  lemma RemoveOneMore<T>(xs: seq<T>, lo: nat, c: nat)
    requires lo + c < |xs|
    ensures (xs[..lo] + xs[lo + c..])[..lo] + (xs[..lo] + xs[lo + c..])[lo + 1..] == xs[..lo] + xs[lo + c + 1..]
  {
    var ys := xs[..lo] + xs[lo + c..];
    assert ys[..lo] == xs[..lo];
    assert ys[lo + 1..] == xs[lo + c + 1..];
  }

  class LList<T> {
    /** The data of nodes `1 .. nNodes - 1`. */
    var elems: seq<T>
    var nNodes: nat
    var nUsable: nat
    var currentSlot: nat

    ghost predicate Valid()
      reads this
    {
      nNodes == |elems| + 1 && nUsable == nNodes - 1 && currentSlot < nNodes
    }

    /** `llist()`: the sentinel alone, the cursor on it. */
    constructor ()
      ensures Valid() && elems == [] && nNodes == 1 && nUsable == 0 && currentSlot == 0
    {
      elems := [];
      nNodes, nUsable, currentSlot := 1, 0, 0;
    }

    /** `llist(newNodes)`: the sentinel, then `privAlloc(1, newNodes)`. The
        heap supplies `room` nodes before `new` throws. */
    constructor WithNodes(newNodes: nat, blank: T, room: nat)
      ensures Valid() && elems == Blanks(Min(newNodes, room), blank)
      ensures currentSlot == Min(newNodes, room)
    {
      elems := [];
      nNodes, nUsable, currentSlot := 1, 0, 0;
      new;
      assert Min(1, nNodes) == 1;
      var _ := PrivAlloc(1, newNodes, blank, room);
      assert elems == Inserted([], 0, Min(newNodes, room), blank);
      InsertedIntoEmpty(Min(newNodes, room), blank);
    }

    /** `TRAVERSE(slot)`: back to the sentinel if the cursor is past `slot`,
        then forward node by node. */
    method Traverse(slot: nat)
      requires slot < nNodes
      modifies `currentSlot
      ensures currentSlot == slot
    {
      if currentSlot > slot {
        currentSlot := 0;
      }
      while currentSlot < slot
        invariant currentSlot <= slot
        decreases slot - currentSlot
      {
        currentSlot := currentSlot + 1;
      }
    }

    /** `privAlloc(startSlot, newNodes)`: inserts fresh nodes after node
        `startSlot - 1`, padding first up to the end when `startSlot` lies
        past it, and returns the last node allocated (node `startSlot - 1`
        when none is). When `new` throws after `room` nodes, the nodes made
        so far stay linked in and the result is `None`. */
    method PrivAlloc(startSlot: nat, newNodes: nat, blank: T, room: nat) returns (r: Option<nat>)
      requires Valid() && startSlot >= 1
      modifies this
      ensures Valid()
      ensures var at := Min(startSlot, old(nNodes)) - 1;
              var k := newNodes + (startSlot - Min(startSlot, old(nNodes)));
              elems == Inserted(old(elems), at, Min(k, room), blank)
              && currentSlot == at + Min(k, room)
              && r == if k <= room then Some(at + k) else None
    {
      var start: nat, left: nat := startSlot, newNodes;
      if start > nNodes {
        left := left + (start - nNodes);
        start := nNodes;
      }
      start := start - 1;
      Traverse(start);
      ghost var xs := elems;
      var k := left;
      while left > 0
        invariant left <= k && k - left <= room
        invariant elems == Inserted(xs, start, k - left, blank)
        invariant currentSlot == start + (k - left) && nNodes == |xs| + 1 + (k - left)
      {
        if k - left == room {
          nUsable := nNodes - 1;
          return None;
        }
        InsertOneMore(xs, start, k - left, blank);
        elems := elems[..currentSlot] + [blank] + elems[currentSlot..];
        currentSlot := currentSlot + 1;
        nNodes := nNodes + 1;
        left := left - 1;
      }
      nUsable := nNodes - 1;
      return Some(currentSlot);
    }

    /** `privDealloc(from, to)`: unlinks the nodes `from ..= to`, either bound
        first, and leaves the cursor on the node before them; with either
        bound past the end it does nothing. The source unlinks one node fewer
        (see README). */
    method PrivDealloc(from: nat, to: nat)
      requires Valid() && from >= 1 && to >= 1
      modifies this
      ensures Valid()
      ensures from >= old(nNodes) || to >= old(nNodes) ==>
        elems == old(elems) && currentSlot == old(currentSlot)
      ensures from < old(nNodes) && to < old(nNodes) ==>
        var lo, hi := Min(from, to), if from < to then to else from;
        elems == Removed(old(elems), lo, hi) && currentSlot == lo - 1
    {
      if from >= nNodes || to >= nNodes {
        return;
      }
      var lo: nat, hi: nat := from, to;
      if hi < lo {
        lo, hi := hi, lo;
      }
      lo := lo - 1;
      Traverse(lo);
      ghost var xs := elems;
      while currentSlot < hi
        invariant lo <= currentSlot <= hi
        invariant elems == xs[..lo] + xs[currentSlot..]
        invariant nNodes == |xs| + 1 - (currentSlot - lo)
      {
        RemoveOneMore(xs, lo, currentSlot - lo);
        elems := elems[..lo] + elems[lo + 1..];
        currentSlot := currentSlot + 1;
        nNodes := nNodes - 1;
      }
      assert elems == Removed(xs, lo + 1, hi);
      currentSlot := lo;
      nUsable := nNodes - 1;
    }

    /** `alloc(startSlot, newNodes)`: inserts before element `startSlot` and
        returns the index of the last new element. */
    method AllocAt(startSlot: nat, newNodes: nat, blank: T, room: nat) returns (r: Option<nat>)
      requires Valid() && (startSlot > 0 || newNodes > 0)
      modifies this
      ensures Valid()
      ensures var at := Min(startSlot, |old(elems)|);
              var k := newNodes + (startSlot - at);
              elems == Inserted(old(elems), at, Min(k, room), blank)
              && (r.Some? <==> k <= room)
              && (r.Some? ==> r.value == at + k - 1 && r.value < |elems|)
    {
      var node := PrivAlloc(startSlot + 1, newNodes, blank, room);
      r := if node.Some? then Some(node.value - 1) else None;
    }

    /** `alloc(newNodes)`: appends `newNodes` elements and returns the index of
        the last element. */
    method Alloc(newNodes: nat, blank: T, room: nat) returns (r: Option<nat>)
      requires Valid() && (newNodes > 0 || |elems| > 0)
      modifies this
      ensures Valid()
      ensures elems == old(elems) + Blanks(Min(newNodes, room), blank)
      ensures r.Some? <==> newNodes <= room
      ensures r.Some? ==> r.value == |elems| - 1
    {
      ghost var xs := elems;
      var node := PrivAlloc(nNodes, newNodes, blank, room);
      assert xs[..|xs|] == xs;
      r := if node.Some? then Some(node.value - 1) else None;
    }

    /** `dealloc(from, to)`: removes elements `from ..= to`. */
    method DeallocRange(from: nat, to: nat)
      requires Valid()
      modifies this
      ensures Valid()
      ensures from >= |old(elems)| || to >= |old(elems)| ==> elems == old(elems)
      ensures from < |old(elems)| && to < |old(elems)| ==>
        elems == Removed(old(elems), Min(from, to) + 1, if from < to then to + 1 else from + 1)
    {
      PrivDealloc(from + 1, to + 1);
    }

    /** `dealloc(slot)`: removes element `slot`. */
    method Dealloc(slot: nat)
      requires Valid()
      modifies this
      ensures Valid()
      ensures slot >= |old(elems)| ==> elems == old(elems)
      ensures slot < |old(elems)| ==> elems == old(elems)[..slot] + old(elems)[slot + 1..]
    {
      PrivDealloc(slot + 1, slot + 1);
    }

    /** `operator[](slot)`: element `slot`, whatever node the cursor was on;
        the cursor moves to its node and the list is unchanged. */
    method Index(slot: nat) returns (r: T)
      requires Valid() && slot < |elems|
      modifies `currentSlot
      ensures Valid() && r == elems[slot] && currentSlot == slot + 1
    {
      var node := slot + 1;
      if currentSlot == node {
        return elems[currentSlot - 1];
      }
      Traverse(node);
      return elems[currentSlot - 1];
    }

    /** `swap(nodeA, nodeB)`: exchanges elements `nodeA` and `nodeB`; an index
        past the end or two equal indices leave the list alone. The source
        leaves it alone in every case (see README). */
    method Swap(nodeA: nat, nodeB: nat)
      requires Valid()
      modifies `currentSlot, `elems
      ensures Valid()
      ensures nodeA >= nUsable || nodeB >= nUsable || nodeA == nodeB ==>
        elems == old(elems) && currentSlot == old(currentSlot)
      ensures nodeA < nUsable && nodeB < nUsable && nodeA != nodeB ==>
        elems == Exchanged(old(elems), nodeA, nodeB)
        && currentSlot == if nodeA < nodeB then nodeB else nodeA
    {
      if nodeA >= nUsable || nodeB >= nUsable {
        return;
      }
      var hi, lo := nodeA, nodeB;
      if lo > hi {
        hi, lo := lo, hi;
      } else if hi == lo {
        return;
      }
      Traverse(lo);
      var temp := currentSlot;
      while currentSlot < hi
        invariant lo <= currentSlot <= hi && elems == old(elems)
      {
        currentSlot := currentSlot + 1;
      }
      elems := Exchanged(elems, temp, currentSlot);
    }

    /** `size()`: the number of elements. */
    function Size(): (r: nat)
      requires Valid()
      reads this
      ensures r == |elems|
    {
      nUsable
    }

    /** `operator->()`: the first element, `start->next->data`, the data of
        node 1. The body indexes it as the node after the `nNodes - nUsable`
        nodes that are not elements (only the sentinel, as `Valid` keeps
        `nNodes == nUsable + 1`), and the ensures shows that this is `elems[0]`. */
    function First(): (r: T)
      requires Valid() && |elems| > 0
      reads this
      ensures r == elems[0]
    {
      elems[nNodes - 1 - nUsable]
    }
  }
}
