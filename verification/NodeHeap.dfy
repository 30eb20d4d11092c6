/** The min-heap of tentative distances behind the path search: the slice-backed
    binary heap of container/heap, ordered by `dist` alone. */
module NodeHeaps {
  import opened Graphs

  datatype HeapItem = HeapItem(key: Key, dist: int)

  /** Item `p` is not above the children of slot `j` among the first `n` items. */
  predicate Below(h: seq<HeapItem>, p: nat, j: nat, n: nat)
    requires p < n <= |h|
  {
    && (2 * j + 1 < n ==> h[p].dist <= h[2 * j + 1].dist)
    && (2 * j + 2 < n ==> h[p].dist <= h[2 * j + 2].dist)
  }

  ghost predicate OrderedUpTo(h: seq<HeapItem>, n: nat) {
    n <= |h| && forall p :: 0 <= p < n ==> Below(h, p, p, n)
  }

  ghost predicate HeapOrdered(h: seq<HeapItem>) {
    OrderedUpTo(h, |h|)
  }

  predicate IsChild(i: nat, p: nat) {
    i == 2 * p + 1 || i == 2 * p + 2
  }

  function Parent(i: nat): (p: nat)
    requires 0 < i
    ensures IsChild(i, p)
  {
    (i - 1) / 2
  }

  lemma {:induction false} RootIsLeast(h: seq<HeapItem>, i: nat)
    requires HeapOrdered(h) && i < |h|
    ensures h[0].dist <= h[i].dist
    decreases i
  {
    if i > 0 {
      assert Below(h, Parent(i), Parent(i), |h|);
      RootIsLeast(h, Parent(i));
    }
  }

  function Swapped(h: seq<HeapItem>, i: nat, j: nat): (r: seq<HeapItem>)
    requires i < |h| && j < |h|
    ensures |r| == |h| && multiset(r) == multiset(h)
    ensures r[i] == h[j] && r[j] == h[i]
    ensures forall k :: 0 <= k < |h| && k != i && k != j ==> r[k] == h[k]
  {
    h[i := h[j]][j := h[i]]
  }

  /** The first `n` items are ordered except possibly between `j` and its parent. */
  ghost predicate OrderedExceptUp(h: seq<HeapItem>, j: nat) {
    && j < |h|
    && (forall p :: 0 <= p < |h| && (0 < j ==> p != Parent(j)) ==> Below(h, p, p, |h|))
    && (0 < j ==>
          && Below(h, Parent(j), j, |h|)
          && (forall k :: 0 < k < |h| && k != j && IsChild(k, Parent(j)) ==> h[Parent(j)].dist <= h[k].dist))
  }

  /** The first `n` items are ordered except possibly between `j` and its children. */
  ghost predicate OrderedExceptDown(h: seq<HeapItem>, j: nat, n: nat) {
    && n <= |h|
    && (forall p :: 0 <= p < n && p != j ==> Below(h, p, p, n))
    && (0 < j < n ==> Below(h, Parent(j), j, n))
  }

  function LeastChild(h: seq<HeapItem>, j: nat, n: nat): (c: nat)
    requires 2 * j + 1 < n <= |h|
    ensures c < n && IsChild(c, j) && Below(h, c, j, n)
  {
    if 2 * j + 2 < n && h[2 * j + 2].dist < h[2 * j + 1].dist then 2 * j + 2 else 2 * j + 1
  }

  lemma SwapUp(h: seq<HeapItem>, j: nat)
    requires 0 < j && OrderedExceptUp(h, j) && h[j].dist < h[Parent(j)].dist
    ensures OrderedExceptUp(Swapped(h, Parent(j), j), Parent(j))
  {
    var p := Parent(j);
    var r := Swapped(h, p, j);
    if 0 < p { assert Below(h, Parent(p), Parent(p), |h|); }
    forall q | 0 <= q < |r| && (0 < p ==> q != Parent(p)) ensures Below(r, q, q, |r|) {
      if q != p { assert Below(h, q, q, |h|); }
    }
  }

  lemma AppendedExceptUp(h: seq<HeapItem>, item: HeapItem)
    requires HeapOrdered(h)
    ensures OrderedExceptUp(h + [item], |h|)
  {
    var r := h + [item];
    forall p | 0 <= p < |h| ensures Below(h, p, p, |h|) {}
    forall p | 0 <= p < |r| && (0 < |h| ==> p != Parent(|h|)) ensures Below(r, p, p, |r|) {
      if p < |h| { assert Below(h, p, p, |h|); }
    }
    if 0 < |h| { assert Below(h, Parent(|h|), Parent(|h|), |h|); }
  }

  lemma SwapDown(h: seq<HeapItem>, j: nat, c: nat, n: nat)
    requires OrderedExceptDown(h, j, n) && j < c < n && IsChild(c, j)
    requires Below(h, c, j, n) && h[c].dist < h[j].dist
    ensures OrderedExceptDown(Swapped(h, j, c), c, n)
  {
    var r := Swapped(h, j, c);
    assert Below(h, c, c, n);
    forall p | 0 <= p < n && p != c ensures Below(r, p, p, n) {
      if p != j { assert Below(h, p, p, n); }
    }
  }

  /** Putting the last item at the root breaks the order only below the root. */
  lemma LastForRoot(h: seq<HeapItem>)
    requires HeapOrdered(h) && h != []
    ensures OrderedExceptDown(Swapped(h, 0, |h| - 1), 0, |h| - 1)
    ensures forall x :: x in multiset(h) ==> h[0].dist <= x.dist
  {
    var r := Swapped(h, 0, |h| - 1);
    var n := |h| - 1;
    forall p | 0 < p < n ensures Below(r, p, p, n) {
      assert Below(h, p, p, |h|);
    }
    forall x | x in h ensures h[0].dist <= x.dist {
      var i :| 0 <= i < |h| && h[i] == x;
      RootIsLeast(h, i);
    }
  }

  lemma DropLast(h: seq<HeapItem>, n: nat)
    requires |h| == n + 1 && OrderedUpTo(h, n)
    ensures HeapOrdered(h[..n])
    ensures multiset(h) == multiset(h[..n]) + multiset{h[n]}
  {
    forall p | 0 <= p < n ensures Below(h[..n], p, p, n) {
      assert Below(h, p, p, n);
    }
    assert h == h[..n] + [h[n]];
  }

  class NodeHeap {
    var items: seq<HeapItem>

    constructor ()
      ensures items == []
    {
      items := [];
    }

    /** heap.Push: append, then sift up. */
    method Push(item: HeapItem)
      requires HeapOrdered(items)
      modifies this
      ensures HeapOrdered(items)
      ensures multiset(items) == old(multiset(items)) + multiset{item}
    {
      AppendedExceptUp(items, item);
      items := items + [item];
      var j: nat := |items| - 1;
      while j > 0 && items[j].dist < items[Parent(j)].dist
        invariant OrderedExceptUp(items, j)
        invariant multiset(items) == old(multiset(items)) + multiset{item}
      {
        SwapUp(items, j);
        items := Swapped(items, Parent(j), j);
        j := Parent(j);
      }
      if j > 0 { assert Below(items, Parent(j), Parent(j), |items|); }
    }

    /** The `down` step: restores the order of the first `n` items below the root. */
    method SiftDown(n: nat)
      requires OrderedExceptDown(items, 0, n)
      modifies this
      ensures |items| == |old(items)| && multiset(items) == old(multiset(items))
      ensures OrderedUpTo(items, n)
      ensures forall k :: n <= k < |items| ==> items[k] == old(items)[k]
    {
      var j, h := 0, items;
      while 2 * j + 1 < n
        invariant |h| == |old(items)|
        invariant OrderedExceptDown(h, j, n)
        invariant multiset(h) == old(multiset(items))
        invariant forall k :: n <= k < |h| ==> h[k] == old(items)[k]
        decreases n - j
      {
        var c := LeastChild(h, j, n);
        if !(h[c].dist < h[j].dist) {
          break;
        }
        SwapDown(h, j, c, n);
        h, j := Swapped(h, j, c), c;
      }
      items := h;
    }

    /** heap.Pop: swap the root with the last item, sift down, drop the last item. */
    method Pop() returns (item: HeapItem)
      requires HeapOrdered(items) && items != []
      modifies this
      ensures HeapOrdered(items) && |items| == |old(items)| - 1
      ensures old(multiset(items)) == multiset(items) + multiset{item}
      ensures forall x :: x in items ==> item.dist <= x.dist
    {
      var n := |items| - 1;
      LastForRoot(items);
      items := Swapped(items, 0, n);
      SiftDown(n);
      item := items[n];
      DropLast(items, n);
      items := items[..n];
      assert forall x :: x in items ==> x in old(multiset(items));
    }
  }
}
