/** The label-setting search behind QueryPath: Dijkstra's algorithm with lazy
    deletion and a cap on the number of hops a node may have and still be expanded. */
module PathSearch {
  import opened Collections
  import opened Graphs
  import opened NodeHeaps

  const MAX_HOPS: nat := 4

  /** The search's working maps. A missing hop count reads as 0. */
  datatype Search = Search(dist: map<Key, int>, prev: map<Key, Key>, hops: map<Key, nat>, visited: set<Key>)

  function HopsOf(hops: map<Key, nat>, k: Key): nat {
    if k in hops then hops[k] else 0
  }

  /** Nodes that were settled with so many hops that their edges were not followed. */
  ghost function Capped(st: Search): set<Key> {
    set v | v in st.visited && HopsOf(st.hops, v) >= MAX_HOPS
  }

  ghost predicate Avoids(w: seq<Key>, capped: set<Key>) {
    forall i :: 0 <= i < |w| - 1 ==> w[i] !in capped
  }

  /** `path` is no dearer than any walk from `s` to `v` that leaves no capped node. */
  ghost predicate CheapestAvoiding(g: Entries, path: seq<Key>, s: Key, v: Key, capped: set<Key>)
    requires IsWalk(g, path)
  {
    NonNegative(g) ==>
      forall w :: WalkBetween(g, w, s, v) && Avoids(w, capped) ==> Cost(g, path) <= Cost(g, w)
  }

  /** A capped node was settled by a four-edge path that misses the target. */
  ghost predicate CappedBy(g: Entries, s: Key, t: Key, c: Key, capped: set<Key>, p: seq<Key>) {
    && WalkBetween(g, p, s, c) && Distinct(p) && |p| == MAX_HOPS + 1 && t !in p
    && CheapestAvoiding(g, p, s, c, capped)
  }

  /** What a finished query promises about its answer; `[]` stands for "no path". */
  ghost predicate Answers(g: Entries, s: Key, t: Key, path: seq<Key>, capped: set<Key>) {
    && s !in capped && t !in capped
    && (forall c :: c in capped ==> exists p :: CappedBy(g, s, t, c, capped, p))
    && if path == [] then
         forall w :: WalkBetween(g, w, s, t) ==> !Avoids(w, capped)
       else
         && WalkBetween(g, path, s, t) && Distinct(path) && |path| <= MAX_HOPS + 1
         && CheapestAvoiding(g, path, s, t, capped)
  }

  // ----- The search invariant -----

  /** `tree[v]` is the walk that the chain of `prev` links spells out for `v`. */
  ghost predicate Labelled(g: Entries, s: Key, st: Search, tree: map<Key, seq<Key>>, v: Key) {
    && v in st.dist && v in tree
    && WalkBetween(g, tree[v], s, v) && Cost(g, tree[v]) == st.dist[v]
    && |tree[v]| == HopsOf(st.hops, v) + 1 <= MAX_HOPS + 1
    && Distinct(tree[v])
    && (forall i :: 0 <= i < |tree[v]| - 1 ==> tree[v][i] in st.visited)
    && (v == s ==> v !in st.prev && tree[v] == [s])
    && (v != s ==> v in st.prev && st.prev[v] in st.visited && st.prev[v] in tree
                   && tree[v] == tree[st.prev[v]] + [v])
  }

  ghost predicate LabelsOk(g: Entries, s: Key, st: Search, tree: map<Key, seq<Key>>) {
    && s in st.dist
    && st.visited <= st.dist.Keys <= Nodes(g) + {s}
    && (forall v :: v in st.dist ==> Labelled(g, s, st, tree, v))
  }

  ghost predicate QueueOk(st: Search, items: multiset<HeapItem>) {
    && (forall x :: x in items ==> x.key in st.dist && st.dist[x.key] <= x.dist)
    && (forall k :: k in st.dist && k !in st.visited ==> HeapItem(k, st.dist[k]) in items)
  }

  /** The label of `v` is no larger than through `u`; at a tie its parent is as near as `u`. */
  ghost predicate EdgeRelaxed(g: Entries, st: Search, u: Key, v: Key)
    requires u in st.dist && HasEdge(g, u, v)
  {
    && v in st.dist
    && (NonNegative(g) ==>
          && st.dist[v] <= st.dist[u] + Rtt(g, u, v)
          && (st.dist[v] == st.dist[u] + Rtt(g, u, v) && v in st.prev && st.prev[v] in st.dist ==>
                st.dist[st.prev[v]] <= st.dist[u]))
  }

  /** Every edge out of an expanded node is relaxed, except those from `cur` to `pending`. */
  ghost predicate Relaxed(g: Entries, st: Search, cur: Key, pending: set<Key>)
    requires st.visited <= st.dist.Keys
  {
    forall u, v :: u in st.visited && HasEdge(g, u, v) && HopsOf(st.hops, u) < MAX_HOPS && !(u == cur && v in pending)
      ==> EdgeRelaxed(g, st, u, v)
  }

  /** Settled nodes are no farther than tentative ones. */
  ghost predicate SettledFirst(g: Entries, st: Search)
    requires st.visited <= st.dist.Keys
  {
    NonNegative(g) ==>
      forall u, v :: u in st.visited && v in st.dist && v !in st.visited ==> st.dist[u] <= st.dist[v]
  }

  ghost predicate SearchInv(g: Entries, s: Key, st: Search, tree: map<Key, seq<Key>>, items: multiset<HeapItem>,
                            cur: Key, pending: set<Key>)
  {
    && LabelsOk(g, s, st, tree)
    && QueueOk(st, items)
    && Relaxed(g, st, cur, pending)
    && SettledFirst(g, st)
  }

  /** `cur` is the farthest settled node. */
  ghost predicate SettledWithin(g: Entries, st: Search, cur: Key)
    requires st.visited <= st.dist.Keys
  {
    cur in st.visited && (NonNegative(g) ==> forall u :: u in st.visited ==> st.dist[u] <= st.dist[cur])
  }

  lemma SearchStarts(g: Entries, s: Key, cur: Key)
    ensures SearchInv(g, s, Search(map[s := 0], map[], map[], {}), map[s := [s]], multiset{HeapItem(s, 0)}, cur, {})
  {
  }

  // ----- Settling a node -----

  /** `k` is as near as any node that is not settled yet. */
  ghost predicate Nearest(st: Search, k: Key) {
    && k in st.dist
    && forall v :: v in st.dist && v !in st.visited ==> st.dist[k] <= st.dist[v]
  }

  lemma PoppedIsNearest(st: Search, items: multiset<HeapItem>, x: HeapItem)
    requires QueueOk(st, items + multiset{x}) && x.key !in st.visited
    requires forall y :: y in items ==> x.dist <= y.dist
    ensures Nearest(st, x.key)
  {
    assert x in items + multiset{x};
    forall v | v in st.dist && v !in st.visited ensures st.dist[x.key] <= st.dist[v] {
      var y := HeapItem(v, st.dist[v]);
      assert y in items + multiset{x};
      assert y == x || y in items;
    }
  }

  function Settle(st: Search, k: Key): Search {
    st.(visited := st.visited + {k})
  }

  lemma SettleKeepsLabels(g: Entries, s: Key, st: Search, tree: map<Key, seq<Key>>, k: Key)
    requires LabelsOk(g, s, st, tree) && k in st.dist
    ensures st.visited <= st.dist.Keys
    ensures LabelsOk(g, s, Settle(st, k), tree)
  {
    var st' := Settle(st, k);
    forall v | v in st'.dist ensures Labelled(g, s, st', tree, v) {
      assert Labelled(g, s, st, tree, v);
    }
  }

  lemma SettleKeepsQueue(st: Search, items: multiset<HeapItem>, x: HeapItem)
    requires QueueOk(st, items + multiset{x})
    ensures QueueOk(Settle(st, x.key), items)
  {
    forall k | k in st.dist && k !in Settle(st, x.key).visited ensures HeapItem(k, st.dist[k]) in items {
      assert HeapItem(k, st.dist[k]) in items + multiset{x};
    }
    forall y | y in items ensures y.key in st.dist && st.dist[y.key] <= y.dist {
      assert y in items + multiset{x};
    }
  }

  lemma SettleKeepsRelaxed(g: Entries, st: Search, k: Key, c: Key)
    requires st.visited <= st.dist.Keys && k in st.dist && Relaxed(g, st, c, {})
    ensures Relaxed(g, Settle(st, k), k, if k in g then g[k].Keys else {})
  {
    var st' := Settle(st, k);
    var pending := if k in g then g[k].Keys else {};
    forall u, v | u in st'.visited && HasEdge(g, u, v) && HopsOf(st'.hops, u) < MAX_HOPS && !(u == k && v in pending)
      ensures EdgeRelaxed(g, st', u, v)
    {
      assert EdgeRelaxed(g, st, u, v);
    }
  }

  lemma SettleKeepsInv(g: Entries, s: Key, st: Search, tree: map<Key, seq<Key>>, items: multiset<HeapItem>,
                       x: HeapItem, c: Key)
    requires SearchInv(g, s, st, tree, items + multiset{x}, c, {})
    requires x.key !in st.visited && Nearest(st, x.key)
    ensures SearchInv(g, s, Settle(st, x.key), tree, items, x.key, if x.key in g then g[x.key].Keys else {})
    ensures SettledWithin(g, Settle(st, x.key), x.key)
    ensures Settle(st, x.key).visited <= st.dist.Keys && x.key in Nodes(g) + {s}
  {
    assert x.key in Nodes(g) + {s};
    hide LabelsOk, QueueOk, Relaxed;
    SettleKeepsLabels(g, s, st, tree, x.key);
    SettleKeepsQueue(st, items, x);
    SettleKeepsRelaxed(g, st, x.key, c);
  }

  // ----- Relaxing one edge -----

  function Improve(st: Search, cur: Key, v: Key, d: int): Search {
    st.(dist := st.dist[v := d], prev := st.prev[v := cur], hops := st.hops[v := HopsOf(st.hops, cur) + 1])
  }

  /** The edge from `cur` to the unsettled `v` gives a label that is new or smaller. */
  ghost predicate Improves(g: Entries, s: Key, st: Search, tree: map<Key, seq<Key>>, cur: Key, v: Key) {
    && LabelsOk(g, s, st, tree)
    && cur in st.visited && v !in st.visited && HasEdge(g, cur, v) && HopsOf(st.hops, cur) < MAX_HOPS
    && s in st.visited
    && (v in st.dist ==> st.dist[cur] + Rtt(g, cur, v) < st.dist[v])
  }

  lemma ImproveNewLabel(g: Entries, s: Key, st: Search, tree: map<Key, seq<Key>>, cur: Key, v: Key)
    requires Improves(g, s, st, tree, cur, v)
    ensures var w := tree[cur] + [v];
            && WalkBetween(g, w, s, v) && Cost(g, w) == st.dist[cur] + Rtt(g, cur, v) && Distinct(w)
            && |w| == HopsOf(st.hops, cur) + 2
            && (forall i :: 0 <= i < |w| - 1 ==> w[i] in st.visited)
  {
    assert Labelled(g, s, st, tree, cur);
    WalkExtend(g, tree[cur], v);
  }

  lemma ImproveKeepsLabels(g: Entries, s: Key, st: Search, tree: map<Key, seq<Key>>, cur: Key, v: Key)
    requires Improves(g, s, st, tree, cur, v)
    ensures cur in tree && st.visited <= st.dist.Keys
    ensures LabelsOk(g, s, Improve(st, cur, v, st.dist[cur] + Rtt(g, cur, v)), tree[v := tree[cur] + [v]])
  {
    assert Labelled(g, s, st, tree, cur);
    var st' := Improve(st, cur, v, st.dist[cur] + Rtt(g, cur, v));
    var tree' := tree[v := tree[cur] + [v]];
    ImproveNewLabel(g, s, st, tree, cur, v);
    forall x | x in st'.dist ensures Labelled(g, s, st', tree', x) {
      if x != v { assert Labelled(g, s, st, tree, x); }
    }
  }

  lemma ImproveKeepsQueue(st: Search, items: multiset<HeapItem>, cur: Key, v: Key, d: int)
    requires QueueOk(st, items) && (v in st.dist ==> d < st.dist[v])
    ensures QueueOk(Improve(st, cur, v, d), items + multiset{HeapItem(v, d)})
  {
  }

  lemma ImproveKeepsOrder(g: Entries, st: Search, cur: Key, v: Key)
    requires st.visited <= st.dist.Keys && SettledFirst(g, st) && SettledWithin(g, st, cur)
    requires v !in st.visited && HasEdge(g, cur, v)
    ensures SettledFirst(g, Improve(st, cur, v, st.dist[cur] + Rtt(g, cur, v)))
    ensures SettledWithin(g, Improve(st, cur, v, st.dist[cur] + Rtt(g, cur, v)), cur)
  {
  }

  lemma ImproveKeepsRelaxed(g: Entries, s: Key, st: Search, tree: map<Key, seq<Key>>, cur: Key, pending: set<Key>,
                            v: Key)
    requires Improves(g, s, st, tree, cur, v) && Relaxed(g, st, cur, pending)
    ensures Relaxed(g, Improve(st, cur, v, st.dist[cur] + Rtt(g, cur, v)), cur, pending - {v})
  {
    var st' := Improve(st, cur, v, st.dist[cur] + Rtt(g, cur, v));
    forall a, b | a in st'.visited && HasEdge(g, a, b) && HopsOf(st'.hops, a) < MAX_HOPS &&
      !(a == cur && b in pending - {v})
      ensures EdgeRelaxed(g, st', a, b)
    {
      if !(a == cur && b == v) {
        assert EdgeRelaxed(g, st, a, b);
        assert Labelled(g, s, st, tree, b);
      }
    }
  }

  lemma ImproveKeepsInv(g: Entries, s: Key, st: Search, tree: map<Key, seq<Key>>, items: multiset<HeapItem>,
                        cur: Key, pending: set<Key>, v: Key)
    requires SearchInv(g, s, st, tree, items, cur, pending) && Improves(g, s, st, tree, cur, v)
    requires SettledWithin(g, st, cur)
    ensures cur in tree
    ensures var d := st.dist[cur] + Rtt(g, cur, v);
            && SearchInv(g, s, Improve(st, cur, v, d), tree[v := tree[cur] + [v]], items + multiset{HeapItem(v, d)},
                         cur, pending - {v})
            && SettledWithin(g, Improve(st, cur, v, d), cur)
  {
    hide LabelsOk, QueueOk, Relaxed, SettledFirst;
    ImproveKeepsLabels(g, s, st, tree, cur, v);
    ImproveKeepsQueue(st, items, cur, v, st.dist[cur] + Rtt(g, cur, v));
    ImproveKeepsOrder(g, st, cur, v);
    ImproveKeepsRelaxed(g, s, st, tree, cur, pending, v);
  }

  lemma SkippedIsRelaxed(g: Entries, s: Key, st: Search, tree: map<Key, seq<Key>>, cur: Key, v: Key)
    requires LabelsOk(g, s, st, tree) && SettledWithin(g, st, cur) && HasEdge(g, cur, v)
    requires v in st.visited || (v in st.dist && st.dist[v] <= st.dist[cur] + Rtt(g, cur, v))
    ensures EdgeRelaxed(g, st, cur, v)
  {
    assert Labelled(g, s, st, tree, v);
    hide Labelled;
  }

  /** Passing over an edge whose target is settled, or that gives no smaller label, is safe. */
  lemma SkipKeepsInv(g: Entries, s: Key, st: Search, tree: map<Key, seq<Key>>, items: multiset<HeapItem>,
                     cur: Key, pending: set<Key>, v: Key)
    requires SearchInv(g, s, st, tree, items, cur, pending) && SettledWithin(g, st, cur) && HasEdge(g, cur, v)
    requires v in st.visited || HopsOf(st.hops, cur) >= MAX_HOPS
             || (v in st.dist && st.dist[v] <= st.dist[cur] + Rtt(g, cur, v))
    ensures SearchInv(g, s, st, tree, items, cur, pending - {v})
  {
    forall a, b | a in st.visited && HasEdge(g, a, b) && HopsOf(st.hops, a) < MAX_HOPS &&
      !(a == cur && b in pending - {v})
      ensures EdgeRelaxed(g, st, a, b)
    {
      if a == cur && b == v { SkippedIsRelaxed(g, s, st, tree, cur, v); }
      else { assert EdgeRelaxed(g, st, a, b); }
    }
  }

  // ----- Reading off the answer -----

  /** Along a walk that leaves no capped node, either every node so far is settled with
      a label no larger than the walk's cost, or `t` is already at least as near. */
  lemma {:induction false} AlongWalk(g: Entries, s: Key, st: Search, tree: map<Key, seq<Key>>, t: Key, c: Key,
                                     w: seq<Key>, i: nat)
    requires LabelsOk(g, s, st, tree) && Relaxed(g, st, c, {}) && Nearest(st, t)
    requires IsWalk(g, w) && w[0] == s && Avoids(w, Capped(st)) && NonNegative(g) && i < |w|
    ensures IsWalk(g, w[..i + 1])
    ensures st.dist[t] <= Cost(g, w[..i + 1]) || (w[i] in st.visited && st.dist[w[i]] <= Cost(g, w[..i + 1]))
    decreases i
  {
    WalkPrefix(g, w, i + 1);
    if i == 0 {
      assert Labelled(g, s, st, tree, s);
    } else {
      AlongWalk(g, s, st, tree, t, c, w, i - 1);
      assert EdgeAt(g, w, i - 1);
      assert w[..i + 1] == w[..i] + [w[i]];
      WalkExtend(g, w[..i], w[i]);
      if w[i - 1] in st.visited && st.dist[w[i - 1]] <= Cost(g, w[..i]) {
        assert w[i - 1] !in Capped(st);
        assert EdgeRelaxed(g, st, w[i - 1], w[i]);
      }
    }
  }

  lemma NearestIsCheapest(g: Entries, s: Key, st: Search, tree: map<Key, seq<Key>>, t: Key, c: Key)
    requires LabelsOk(g, s, st, tree) && Relaxed(g, st, c, {}) && Nearest(st, t)
    ensures t in tree && IsWalk(g, tree[t]) && CheapestAvoiding(g, tree[t], s, t, Capped(st))
  {
    assert Labelled(g, s, st, tree, t);
    if NonNegative(g) {
      forall w | WalkBetween(g, w, s, t) && Avoids(w, Capped(st)) ensures Cost(g, tree[t]) <= Cost(g, w) {
        AlongWalk(g, s, st, tree, t, c, w, |w| - 1);
        assert w[..|w|] == w;
      }
    }
  }

  /** Once nothing is tentative, a walk that leaves no capped node stays within the settled nodes. */
  lemma {:induction false} ExhaustedWalk(g: Entries, s: Key, st: Search, tree: map<Key, seq<Key>>, c: Key,
                                         w: seq<Key>, i: nat)
    requires LabelsOk(g, s, st, tree) && Relaxed(g, st, c, {}) && st.dist.Keys <= st.visited
    requires IsWalk(g, w) && w[0] == s && Avoids(w, Capped(st)) && i < |w|
    ensures w[i] in st.visited
    decreases i
  {
    if i > 0 {
      ExhaustedWalk(g, s, st, tree, c, w, i - 1);
      assert EdgeAt(g, w, i - 1);
      assert w[i - 1] !in Capped(st);
      assert EdgeRelaxed(g, st, w[i - 1], w[i]);
    }
  }

  lemma CappedWitness(g: Entries, s: Key, st: Search, tree: map<Key, seq<Key>>, t: Key, cur: Key, c: Key)
    requires LabelsOk(g, s, st, tree) && Relaxed(g, st, cur, {}) && SettledFirst(g, st)
    requires t !in st.visited && c in Capped(st)
    ensures exists p :: CappedBy(g, s, t, c, Capped(st), p)
  {
    assert Labelled(g, s, st, tree, c);
    var p := tree[c];
    if NonNegative(g) {
      NearestIsCheapest(g, s, st, tree, c, cur);
    }
    assert CappedBy(g, s, t, c, Capped(st), p);
  }

  /** What the search leaves behind: a shortest-path tree over the settled nodes, cut at the hop cap. */
  ghost predicate Finished(g: Entries, s: Key, t: Key, path: seq<Key>, st: Search, tree: map<Key, seq<Key>>) {
    && LabelsOk(g, s, st, tree) && Relaxed(g, st, s, {}) && SettledFirst(g, st) && t !in st.visited
    && if path == [] then st.dist.Keys <= st.visited else t in st.dist && path == tree[t] && Nearest(st, t)
  }

  lemma FoundAnswers(g: Entries, s: Key, st: Search, tree: map<Key, seq<Key>>, t: Key, cur: Key)
    requires LabelsOk(g, s, st, tree) && Relaxed(g, st, cur, {}) && SettledFirst(g, st)
    requires t !in st.visited && Nearest(st, t)
    ensures t in tree && Answers(g, s, t, tree[t], Capped(st)) && Finished(g, s, t, tree[t], st, tree)
  {
    assert Labelled(g, s, st, tree, s);
    assert Labelled(g, s, st, tree, t);
    NearestIsCheapest(g, s, st, tree, t, cur);
    forall c | c in Capped(st) ensures exists p :: CappedBy(g, s, t, c, Capped(st), p) {
      CappedWitness(g, s, st, tree, t, cur, c);
    }
  }

  lemma ExhaustedAnswers(g: Entries, s: Key, st: Search, tree: map<Key, seq<Key>>, t: Key, cur: Key)
    requires LabelsOk(g, s, st, tree) && Relaxed(g, st, cur, {}) && SettledFirst(g, st)
    requires t !in st.visited && QueueOk(st, multiset{})
    ensures Answers(g, s, t, [], Capped(st)) && Finished(g, s, t, [], st, tree)
  {
    assert Labelled(g, s, st, tree, s);
    forall w | WalkBetween(g, w, s, t) ensures !Avoids(w, Capped(st)) {
      if Avoids(w, Capped(st)) { ExhaustedWalk(g, s, st, tree, cur, w, |w| - 1); }
    }
    forall c | c in Capped(st) ensures exists p :: CappedBy(g, s, t, c, Capped(st), p) {
      CappedWitness(g, s, st, tree, t, cur, c);
    }
  }

  /** Each label extends the label of its parent by one edge. */
  lemma ParentEdge(g: Entries, s: Key, st: Search, tree: map<Key, seq<Key>>, v: Key)
    requires LabelsOk(g, s, st, tree) && v in st.dist && v != s
    ensures v in st.prev && st.prev[v] in st.visited && st.prev[v] in st.dist && HasEdge(g, st.prev[v], v)
    ensures st.dist[v] == st.dist[st.prev[v]] + Rtt(g, st.prev[v], v)
    ensures HopsOf(st.hops, v) == HopsOf(st.hops, st.prev[v]) + 1 <= MAX_HOPS
  {
    assert Labelled(g, s, st, tree, v);
    var u := st.prev[v];
    assert Labelled(g, s, st, tree, u);
    assert EdgeAt(g, tree[v], |tree[v]| - 2);
    WalkExtend(g, tree[u], v);
  }
}
