/** What callers may conclude from a QueryPath answer about the whole graph. */
module PathGuarantees {
  import opened Collections
  import opened Graphs
  import opened PathSearch

  /** `w` is a lowest-total-RTT walk from `s` to `t` over the whole graph. */
  ghost predicate IsShortest(g: Entries, w: seq<Key>, s: Key, t: Key) {
    WalkBetween(g, w, s, t) && forall w' :: WalkBetween(g, w', s, t) ==> Cost(g, w) <= Cost(g, w')
  }

  lemma WalkWithinNodes(g: Entries, w: seq<Key>, s: Key)
    requires IsWalk(g, w) && w[0] == s
    ensures (set x | x in w) <= Nodes(g) + {s}
  {
    forall i | 0 <= i < |w| ensures w[i] in Nodes(g) + {s} {
      if i > 0 { assert EdgeAt(g, w, i - 1); }
    }
  }

  /** A capped node needs six different keys: its own path of five, and the target. */
  lemma CapNeedsSixNodes(g: Entries, s: Key, t: Key, path: seq<Key>, capped: set<Key>, c: Key)
    requires Answers(g, s, t, path, capped) && c in capped
    ensures |Nodes(g) + {s, t}| >= 6
  {
    var p :| CappedBy(g, s, t, c, capped, p);
    var onPath := set x | x in p;
    DistinctCount(p);
    WalkWithinNodes(g, p, s);
    assert |onPath + {t}| == 6;
    SubsetSize(onPath + {t}, Nodes(g) + {s, t});
  }

  /** On at most five nodes the answer is a global optimum and "no path" means unreachable. */
  lemma SmallGraphOptimal(g: Entries, s: Key, t: Key, path: seq<Key>, capped: set<Key>)
    requires Answers(g, s, t, path, capped) && NonNegative(g) && |Nodes(g) + {s, t}| <= 5
    ensures path == [] <==> !exists w :: WalkBetween(g, w, s, t)
    ensures path != [] ==> IsShortest(g, path, s, t)
  {
    assert capped == {} by {
      if c :| c in capped { CapNeedsSixNodes(g, s, t, path, capped, c); }
    }
    assert forall w :: WalkBetween(g, w, s, t) ==> Avoids(w, capped);
  }

  /** A stored direct edge is always an upper bound, whatever the size of the graph. */
  lemma DirectEdgeBound(g: Entries, s: Key, t: Key, path: seq<Key>, capped: set<Key>)
    requires Answers(g, s, t, path, capped) && HasEdge(g, s, t)
    ensures path != []
    ensures NonNegative(g) ==> Cost(g, path) <= Rtt(g, s, t)
  {
    var w := [s, t];
    assert IsWalk(g, [s]);
    WalkExtend(g, [s], t);
    assert [s] + [t] == w;
    assert WalkBetween(g, w, s, t) && Avoids(w, capped);
  }

  lemma {:induction false} CostNonNegative(g: Entries, w: seq<Key>)
    requires IsWalk(g, w) && NonNegative(g)
    ensures Cost(g, w) >= 0
    decreases |w|
  {
    if |w| > 1 {
      WalkPrefix(g, w, |w| - 1);
      assert EdgeAt(g, w, |w| - 2);
      CostNonNegative(g, w[..|w| - 1]);
    }
  }

  /** With positive RTTs only the source is at distance zero. */
  lemma ZeroIsSource(g: Entries, s: Key, st: Search, tree: map<Key, seq<Key>>, u: Key)
    requires LabelsOk(g, s, st, tree) && Positive(g) && u in st.dist && st.dist[u] <= 0
    ensures u == s
  {
    if u != s {
      ParentEdge(g, s, st, tree, u);
      var v := st.prev[u];
      assert Labelled(g, s, st, tree, v);
      CostNonNegative(g, tree[v]);
    }
  }

  /** A direct edge is preferred: it is the answer unless a cheaper path exists. */
  lemma DirectEdgePreferred(g: Entries, s: Key, t: Key, path: seq<Key>, st: Search, tree: map<Key, seq<Key>>)
    requires Answers(g, s, t, path, Capped(st)) && Finished(g, s, t, path, st, tree)
    requires Positive(g) && HasEdge(g, s, t) && s != t
    ensures path != [] && (path == [s, t] || Cost(g, path) < Rtt(g, s, t))
  {
    DirectEdgeBound(g, s, t, path, Capped(st));
    hide Answers;
    assert Labelled(g, s, st, tree, s) && Labelled(g, s, st, tree, t);
    ParentEdge(g, s, st, tree, t);
    var u := st.prev[t];
    if Cost(g, path) == Rtt(g, s, t) {
      if s in st.visited { assert EdgeRelaxed(g, st, s, t); }
      assert st.dist[u] <= st.dist[s] == 0;
      ZeroIsSource(g, s, st, tree, u);
    }
  }

  lemma {:induction false} FirstCapped(w: seq<Key>, capped: set<Key>, i: nat) returns (j: nat)
    requires i < |w| - 1 && w[i] in capped
    ensures j < |w| - 1 && w[j] in capped && Avoids(w[..j + 1], capped)
    decreases i
  {
    j := i;
    if k :| 0 <= k < i && w[k] in capped {
      j := FirstCapped(w, capped, k);
    }
  }

  /** Rerouting a walk's start through a capped node's own path costs no more and has at least five edges. */
  lemma DetourThroughCap(g: Entries, s: Key, t: Key, path: seq<Key>, capped: set<Key>, w: seq<Key>)
    returns (d: seq<Key>)
    requires Answers(g, s, t, path, capped) && NonNegative(g) && WalkBetween(g, w, s, t) && !Avoids(w, capped)
    ensures WalkBetween(g, d, s, t) && Cost(g, d) <= Cost(g, w) && |d| > MAX_HOPS + 1
  {
    var k :| 0 <= k < |w| - 1 && w[k] in capped;
    var i := FirstCapped(w, capped, k);
    var p :| CappedBy(g, s, t, w[i], capped, p);
    d := Spliced(g, s, t, w[i], capped, p, w, i);
  }

  lemma Spliced(g: Entries, s: Key, t: Key, c: Key, capped: set<Key>, p: seq<Key>, w: seq<Key>, i: nat)
    returns (d: seq<Key>)
    requires CappedBy(g, s, t, c, capped, p) && NonNegative(g)
    requires WalkBetween(g, w, s, t) && i < |w| - 1 && w[i] == c && Avoids(w[..i + 1], capped)
    ensures WalkBetween(g, d, s, t) && Cost(g, d) <= Cost(g, w) && |d| > MAX_HOPS + 1
  {
    SplitWalk(g, w, i);
    assert WalkBetween(g, w[..i + 1], s, c);
    JoinWalks(g, p, w[i..]);
    d := p + w[i..][1..];
  }

  /** A four-edge path to `c` that is as cheap as any walk to it. */
  ghost predicate CapsAt(g: Entries, s: Key, c: Key, p: seq<Key>) {
    IsShortest(g, p, s, c) && Distinct(p) && |p| == MAX_HOPS + 1
  }

  /** The answer is a lowest-RTT walk as soon as one such walk leaves only nodes that no lowest-RTT
      path reaches with exactly four edges. */
  lemma ClearRouteOptimal(g: Entries, s: Key, t: Key, path: seq<Key>, capped: set<Key>, best: seq<Key>)
    requires Answers(g, s, t, path, capped) && NonNegative(g) && IsShortest(g, best, s, t)
    requires forall i, p :: 0 <= i < |best| - 1 ==> !CapsAt(g, s, best[i], p)
    ensures path != [] && IsShortest(g, path, s, t)
  {
    if !Avoids(best, capped) {
      var k :| 0 <= k < |best| - 1 && best[k] in capped;
      var i := FirstCapped(best, capped, k);
      var p :| CappedBy(g, s, t, best[i], capped, p);
      CapOnRoute(g, s, t, capped, best, i, p);
    }
  }

  lemma CapOnRoute(g: Entries, s: Key, t: Key, capped: set<Key>, best: seq<Key>, i: nat, p: seq<Key>)
    requires NonNegative(g) && IsShortest(g, best, s, t) && i < |best| - 1
    requires CappedBy(g, s, t, best[i], capped, p) && Avoids(best[..i + 1], capped)
    ensures CapsAt(g, s, best[i], p)
  {
    PrefixIsShortest(g, s, t, best, i);
    assert Cost(g, p) <= Cost(g, best[..i + 1]);
  }

  lemma PrefixIsShortest(g: Entries, s: Key, t: Key, w: seq<Key>, i: nat)
    requires IsShortest(g, w, s, t) && i < |w|
    ensures IsShortest(g, w[..i + 1], s, w[i])
  {
    SplitWalk(g, w, i);
    forall x | WalkBetween(g, x, s, w[i]) ensures Cost(g, w[..i + 1]) <= Cost(g, x) {
      JoinWalks(g, x, w[i..]);
      assert WalkBetween(g, x + w[i..][1..], s, t) by {
        if i == |w| - 1 { assert x + w[i..][1..] == x; }
      }
    }
  }

  /** If every lowest-RTT walk has at most four edges, the query finds one. */
  lemma ShortRoutesOptimal(g: Entries, s: Key, t: Key, path: seq<Key>, capped: set<Key>, best: seq<Key>)
    requires Answers(g, s, t, path, capped) && NonNegative(g) && IsShortest(g, best, s, t)
    requires forall w :: IsShortest(g, w, s, t) ==> |w| <= MAX_HOPS + 1
    ensures path != [] && IsShortest(g, path, s, t)
  {
    if !Avoids(best, capped) {
      var d := DetourThroughCap(g, s, t, path, capped, best);
      assert IsShortest(g, d, s, t);
    }
  }

  /** Exactly when the answer is a global optimum, unless lowest-RTT walks of both kinds exist: if and
      only if a lowest-RTT walk is within the cap. */
  lemma OptimalIffWithinCap(g: Entries, s: Key, t: Key, path: seq<Key>, capped: set<Key>, best: seq<Key>)
    requires Answers(g, s, t, path, capped) && NonNegative(g) && IsShortest(g, best, s, t)
    requires || (forall w :: IsShortest(g, w, s, t) ==> |w| <= MAX_HOPS + 1)
             || (forall w :: IsShortest(g, w, s, t) ==> |w| > MAX_HOPS + 1)
    ensures (path != [] && IsShortest(g, path, s, t)) <==> |best| <= MAX_HOPS + 1
  {
    if |best| <= MAX_HOPS + 1 {
      ShortRoutesOptimal(g, s, t, path, capped, best);
    }
  }

  /** A target that is more than four edges away on every walk gets no answer. */
  lemma FarMeansNoPath(g: Entries, s: Key, t: Key, path: seq<Key>, capped: set<Key>)
    requires Answers(g, s, t, path, capped)
    requires forall w :: WalkBetween(g, w, s, t) ==> |w| > MAX_HOPS + 1
    ensures path == []
  {
  }

  /** No answer although `w` leads to the target: then `w` leaves a node that a repetition-free
      four-edge path reaches at no more cost, without passing the target. */
  lemma NoPathNeedsCap(g: Entries, s: Key, t: Key, capped: set<Key>, w: seq<Key>) returns (i: nat, p: seq<Key>)
    requires Answers(g, s, t, [], capped) && WalkBetween(g, w, s, t)
    ensures i < |w| - 1 && IsWalk(g, w[..i + 1])
    ensures WalkBetween(g, p, s, w[i]) && Distinct(p) && |p| == MAX_HOPS + 1 && t !in p
    ensures NonNegative(g) ==> Cost(g, p) <= Cost(g, w[..i + 1])
  {
    var k :| 0 <= k < |w| - 1 && w[k] in capped;
    i := FirstCapped(w, capped, k);
    p :| CappedBy(g, s, t, w[i], capped, p);
    WalkPrefix(g, w, i + 1);
    assert WalkBetween(g, w[..i + 1], s, w[i]);
  }

  /** Six peers in a row, one millisecond apart. */
  function Chain(): Entries {
    var e := RttEntry(1, 0, "");
    map["a" := map["b" := e], "b" := map["c" := e], "c" := map["d" := e], "d" := map["e" := e], "e" := map["f" := e]]
  }

  lemma {:induction false} ChainStep(w: seq<Key>, i: nat)
    requires IsWalk(Chain(), w) && w[0] == "a" && i < |w|
    ensures i < 6 && w[i] == ["abcdef"[i]]
    decreases i
  {
    if i > 0 {
      ChainStep(w, i - 1);
      assert EdgeAt(Chain(), w, i - 1);
    }
  }

  /** "No path" does not mean unreachable in general: the chain's far end is five hops away. */
  lemma ChainIsCutOff(path: seq<Key>, capped: set<Key>)
    requires Answers(Chain(), "a", "f", path, capped)
    ensures path == []
    ensures WalkBetween(Chain(), ["a", "b", "c", "d", "e", "f"], "a", "f")
  {
    if path != [] { ChainStep(path, |path| - 1); }
  }
}

/** Graphs with lowest-RTT walks of four and of five edges: their lengths alone decide nothing. */
module MixedRoutes {
  import opened Graphs
  import opened PathSearch
  import opened PathGuarantees

  /** No edge gains more than its RTT, so no walk costs less than what it gains. */
  lemma {:induction false} Potential(g: Entries, d: map<Key, int>, w: seq<Key>)
    requires IsWalk(g, w) && w[0] in d
    requires forall u, v :: HasEdge(g, u, v) ==> u in d && v in d && d[v] <= d[u] + Rtt(g, u, v)
    ensures w[|w| - 1] in d && Cost(g, w) >= d[w[|w| - 1]] - d[w[0]]
    decreases |w|
  {
    if |w| > 1 {
      WalkPrefix(g, w, |w| - 1);
      assert EdgeAt(g, w, |w| - 2);
      Potential(g, d, w[..|w| - 1]);
    }
  }

  lemma FourEdgeWalk(g: Entries, a: Key, b: Key, c: Key, d: Key, e: Key)
    requires HasEdge(g, a, b) && HasEdge(g, b, c) && HasEdge(g, c, d) && HasEdge(g, d, e)
    ensures IsWalk(g, [a, b, c, d, e])
    ensures Cost(g, [a, b, c, d, e]) == Rtt(g, a, b) + Rtt(g, b, c) + Rtt(g, c, d) + Rtt(g, d, e)
  {
    WalkExtend(g, [a], b);
    WalkExtend(g, [a] + [b], c);
    WalkExtend(g, [a] + [b] + [c], d);
    WalkExtend(g, [a] + [b] + [c] + [d], e);
    assert [a] + [b] + [c] + [d] + [e] == [a, b, c, d, e];
  }

  lemma FiveEdgeWalk(g: Entries, a: Key, b: Key, c: Key, d: Key, e: Key, f: Key)
    requires HasEdge(g, a, b) && HasEdge(g, b, c) && HasEdge(g, c, d) && HasEdge(g, d, e) && HasEdge(g, e, f)
    ensures IsWalk(g, [a, b, c, d, e, f])
    ensures Cost(g, [a, b, c, d, e, f]) == Rtt(g, a, b) + Rtt(g, b, c) + Rtt(g, c, d) + Rtt(g, d, e) + Rtt(g, e, f)
  {
    FourEdgeWalk(g, a, b, c, d, e);
    WalkExtend(g, [a, b, c, d, e], f);
    assert [a, b, c, d, e] + [f] == [a, b, c, d, e, f];
  }

  function To(rtt: int): RttEntry {
    RttEntry(rtt, 0, "")
  }

  // ----- Always cut off -----

  /** Both routes to "c" cost 6, but the longer one relaxes it first. */
  function Late(): Entries {
    map["s" := map["a" := To(1), "p" := To(1)], "a" := map["b" := To(1)], "b" := map["d" := To(1)],
        "d" := map["c" := To(3)], "p" := map["q" := To(4)], "q" := map["c" := To(1)], "c" := map["t" := To(1)]]
  }

  function LateDistances(): map<Key, int> {
    map["s" := 0, "a" := 1, "b" := 2, "d" := 3, "p" := 1, "q" := 5, "c" := 6, "t" := 7]
  }

  lemma LateSlack(u: Key, v: Key)
    requires HasEdge(Late(), u, v)
    ensures u in LateDistances() && v in LateDistances()
    ensures LateDistances()[v] <= LateDistances()[u] + Rtt(Late(), u, v)
  {
  }

  lemma LateShortest(w: seq<Key>)
    requires WalkBetween(Late(), w, "s", "t") && Cost(Late(), w) == 7
    ensures IsShortest(Late(), w, "s", "t")
  {
    var d := LateDistances();
    assert d["s"] == 0 && d["t"] == 7;
    hide Late, LateDistances;
    forall u, v | HasEdge(Late(), u, v) ensures u in d && v in d && d[v] <= d[u] + Rtt(Late(), u, v) {
      LateSlack(u, v);
    }
    forall x | WalkBetween(Late(), x, "s", "t") ensures Cost(Late(), x) >= 7 {
      Potential(Late(), d, x);
    }
  }

  lemma LateRoutes()
    ensures IsShortest(Late(), ["s", "p", "q", "c", "t"], "s", "t")
    ensures IsShortest(Late(), ["s", "a", "b", "d", "c", "t"], "s", "t")
  {
    FourEdgeWalk(Late(), "s", "p", "q", "c", "t");
    FiveEdgeWalk(Late(), "s", "a", "b", "d", "c", "t");
    LateShortest(["s", "p", "q", "c", "t"]);
    LateShortest(["s", "a", "b", "d", "c", "t"]);
  }

  lemma LateEdge(u: Key, v: Key)
    requires HasEdge(Late(), u, v)
    ensures Rtt(Late(), u, v) >= 0
    ensures v == "a" || v == "p" ==> u == "s" && Rtt(Late(), u, v) == 1
    ensures v == "b" ==> u == "a" && Rtt(Late(), u, v) == 1
    ensures v == "d" ==> u == "b" && Rtt(Late(), u, v) == 1
    ensures v == "q" ==> u == "p" && Rtt(Late(), u, v) == 4
    ensures v == "c" ==> (u == "d" && Rtt(Late(), u, v) == 3) || (u == "q" && Rtt(Late(), u, v) == 1)
    ensures v == "t" ==> u == "c" && Rtt(Late(), u, v) == 1
  {
  }

  /** A finished search, with the labels of the source. */
  ghost predicate Searched(g: Entries, s: Key, st: Search, tree: map<Key, seq<Key>>) {
    && LabelsOk(g, s, st, tree) && Relaxed(g, st, s, {}) && SettledFirst(g, st) && NonNegative(g)
    && s in st.dist && st.dist[s] == 0 && HopsOf(st.hops, s) == 0
  }

  /** A node with one way in, nearer than some settled node, is settled next on that way. */
  lemma OnlyWayIn(g: Entries, s: Key, st: Search, tree: map<Key, seq<Key>>, u: Key, v: Key, c: Key)
    requires Searched(g, s, st, tree) && u in st.visited && HasEdge(g, u, v) && HopsOf(st.hops, u) < MAX_HOPS && v != s
    requires forall x :: HasEdge(g, x, v) ==> x == u
    requires u in st.dist && c in st.visited && c in st.dist && st.dist[u] + Rtt(g, u, v) < st.dist[c]
    ensures v in st.visited && v in st.dist && st.dist[v] == st.dist[u] + Rtt(g, u, v)
    ensures HopsOf(st.hops, v) == HopsOf(st.hops, u) + 1
  {
    assert EdgeRelaxed(g, st, u, v);
    hide Relaxed;
    ParentEdge(g, s, st, tree, v);
    hide LabelsOk;
  }

  lemma LateEdges()
    ensures HasEdge(Late(), "s", "a") && HasEdge(Late(), "a", "b") && HasEdge(Late(), "b", "d") &&
            HasEdge(Late(), "d", "c")
  {
  }

  /** Along the long route each node has one way in. */
  lemma LateStep(st: Search, tree: map<Key, seq<Key>>, u: Key, v: Key)
    requires Searched(Late(), "s", st, tree) && HasEdge(Late(), u, v) && (v == "a" || v == "b" || v == "d")
    requires u in st.visited && u in st.dist && HopsOf(st.hops, u) < MAX_HOPS && st.dist[u] < 5
    requires "c" in st.visited && "c" in st.dist && st.dist["c"] == 6
    ensures v in st.visited && v in st.dist && st.dist[v] == st.dist[u] + 1
    ensures HopsOf(st.hops, v) == HopsOf(st.hops, u) + 1
  {
    hide Late, Searched, HasEdge;
    LateEdge(u, v);
    forall x | HasEdge(Late(), x, v) ensures x == u { LateEdge(x, v); }
    OnlyWayIn(Late(), "s", st, tree, u, v, "c");
  }

  /** With "c" settled at distance 6, the whole long route has been settled before. */
  lemma LongRouteFirst(st: Search, tree: map<Key, seq<Key>>)
    requires Searched(Late(), "s", st, tree)
    requires "s" in st.visited && "c" in st.visited && "c" in st.dist && st.dist["c"] == 6
    ensures "d" in st.visited && "d" in st.dist && st.dist["d"] == 3 && HopsOf(st.hops, "d") == 3
  {
    hide Late, HasEdge, LabelsOk, Relaxed, SettledFirst, NonNegative;
    LateEdges();
    LateStep(st, tree, "s", "a");
    LateStep(st, tree, "a", "b");
    LateStep(st, tree, "b", "d");
  }

  lemma TieParent(g: Entries, s: Key, st: Search, tree: map<Key, seq<Key>>, u: Key, v: Key)
    requires Searched(g, s, st, tree) && u in st.visited && u in st.dist && HasEdge(g, u, v) &&
             HopsOf(st.hops, u) < MAX_HOPS
    requires v in st.prev && st.prev[v] in st.dist && v in st.dist && st.dist[v] == st.dist[u] + Rtt(g, u, v)
    ensures st.dist[st.prev[v]] <= st.dist[u]
  {
    assert EdgeRelaxed(g, st, u, v);
  }

  lemma LateParent(st: Search, tree: map<Key, seq<Key>>, v: Key)
    requires Searched(Late(), "s", st, tree) && v in st.dist && v != "s"
    ensures v in st.prev && st.prev[v] in st.visited && st.prev[v] in st.dist
    ensures HasEdge(Late(), st.prev[v], v) && st.dist[v] == st.dist[st.prev[v]] + Rtt(Late(), st.prev[v], v)
    ensures HopsOf(st.hops, v) == HopsOf(st.hops, st.prev[v]) + 1 <= MAX_HOPS
  {
    hide LabelsOk, Relaxed, SettledFirst, NonNegative, Late;
    ParentEdge(Late(), "s", st, tree, v);
    LateEdge(st.prev[v], v);
  }

  /** "c" cannot be both near enough to be expanded and at distance 6. */
  lemma LateThroughC(st: Search, tree: map<Key, seq<Key>>)
    requires Searched(Late(), "s", st, tree) && "c" in st.visited && "c" in st.dist
    ensures HopsOf(st.hops, "c") >= MAX_HOPS
  {
    hide Late, HasEdge, LabelsOk, Relaxed, SettledFirst, NonNegative;
    LateParent(st, tree, "c");
    LateEdge(st.prev["c"], "c");
    if st.prev["c"] == "d" {
      LateParent(st, tree, "d");
      LateEdge(st.prev["d"], "d");
      LateParent(st, tree, "b");
      LateEdge(st.prev["b"], "b");
      LateParent(st, tree, "a");
      LateEdge(st.prev["a"], "a");
    } else {
      LateParent(st, tree, "q");
      LateEdge(st.prev["q"], "q");
      LateParent(st, tree, "p");
      LateEdge(st.prev["p"], "p");
      LongRouteFirst(st, tree);
      LateEdges();
      LateEdge("d", "c");
      TieParent(Late(), "s", st, tree, "d", "c");
    }
  }

  /** Whatever the order of iteration, the query finds no path, although one of the two lowest-RTT
      walks has only four edges. */
  lemma LateIsCutOff(path: seq<Key>, st: Search, tree: map<Key, seq<Key>>)
    requires Finished(Late(), "s", "t", path, st, tree)
    ensures path == []
    ensures IsShortest(Late(), ["s", "p", "q", "c", "t"], "s", "t")
    ensures IsShortest(Late(), ["s", "a", "b", "d", "c", "t"], "s", "t")
  {
    LateRoutes();
    hide IsShortest;
    LateSearched(path, st, tree);
    hide Late, Searched, Finished;
    if path != [] {
      LateParent(st, tree, "t");
      LateEdge(st.prev["t"], "t");
      LateThroughC(st, tree);
    }
  }

  lemma LateSearched(path: seq<Key>, st: Search, tree: map<Key, seq<Key>>)
    requires Finished(Late(), "s", "t", path, st, tree)
    ensures Searched(Late(), "s", st, tree) && (path != [] ==> "t" in st.dist)
  {
    assert Labelled(Late(), "s", st, tree, "s");
    forall u, v | HasEdge(Late(), u, v) ensures Rtt(Late(), u, v) >= 0 { LateEdge(u, v); }
    hide Late;
  }

  // ----- Always found -----

  /** Two routes with no inner node in common, of four and of five edges, both of cost 5. */
  function Apart(): Entries {
    map["s" := map["a" := To(1), "p" := To(1)], "a" := map["b" := To(1)], "b" := map["c" := To(1)],
        "c" := map["t" := To(2)], "p" := map["q" := To(1)], "q" := map["r" := To(1)], "r" := map["u" := To(1)],
        "u" := map["t" := To(1)]]
  }

  function ApartDistances(): map<Key, int> {
    map["s" := 0, "a" := 1, "b" := 2, "c" := 3, "p" := 1, "q" := 2, "r" := 3, "u" := 4, "t" := 5]
  }

  lemma ApartEdge(u: Key, v: Key)
    requires HasEdge(Apart(), u, v)
    ensures u in ApartDistances() && v in ApartDistances() && Rtt(Apart(), u, v) >= 0
    ensures ApartDistances()[v] <= ApartDistances()[u] + Rtt(Apart(), u, v)
  {
  }

  lemma ApartShortest(w: seq<Key>)
    requires WalkBetween(Apart(), w, "s", "t") && Cost(Apart(), w) == 5
    ensures IsShortest(Apart(), w, "s", "t")
  {
    var d := ApartDistances();
    assert d["s"] == 0 && d["t"] == 5;
    hide Apart, ApartDistances;
    forall u, v | HasEdge(Apart(), u, v) ensures u in d && v in d && d[v] <= d[u] + Rtt(Apart(), u, v) {
      ApartEdge(u, v);
    }
    forall x | WalkBetween(Apart(), x, "s", "t") ensures Cost(Apart(), x) >= 5 {
      Potential(Apart(), d, x);
    }
  }

  lemma ApartRoutes()
    ensures IsShortest(Apart(), ["s", "a", "b", "c", "t"], "s", "t")
    ensures IsShortest(Apart(), ["s", "p", "q", "r", "u", "t"], "s", "t")
  {
    FourEdgeWalk(Apart(), "s", "a", "b", "c", "t");
    FiveEdgeWalk(Apart(), "s", "p", "q", "r", "u", "t");
    ApartShortest(["s", "a", "b", "c", "t"]);
    ApartShortest(["s", "p", "q", "r", "u", "t"]);
  }

  lemma FourEdges(w: seq<Key>)
    requires IsWalk(Apart(), w) && w[0] == "s" && |w| == 5
    ensures w[4] == "t" || w[4] == "u"
  {
    assert EdgeAt(Apart(), w, 0);
    assert EdgeAt(Apart(), w, 1);
    assert EdgeAt(Apart(), w, 2);
    assert EdgeAt(Apart(), w, 3);
  }

  lemma NotCapped(x: Key, p: seq<Key>)
    requires x != "t" && x != "u"
    ensures !CapsAt(Apart(), "s", x, p)
  {
    if CapsAt(Apart(), "s", x, p) { FourEdges(p); }
  }

  /** Whatever the order of iteration, the query finds the four-edge one of the two lowest-RTT walks. */
  lemma ApartIsFound(path: seq<Key>, capped: set<Key>)
    requires Answers(Apart(), "s", "t", path, capped)
    ensures path != [] && IsShortest(Apart(), path, "s", "t")
    ensures IsShortest(Apart(), ["s", "p", "q", "r", "u", "t"], "s", "t")
  {
    var best: seq<Key> := ["s", "a", "b", "c", "t"];
    ApartRoutes();
    forall u, v | HasEdge(Apart(), u, v) ensures Rtt(Apart(), u, v) >= 0 { ApartEdge(u, v); }
    hide Apart, Answers, IsShortest;
    forall i, p | 0 <= i < |best| - 1 ensures !CapsAt(Apart(), "s", best[i], p) {
      NotCapped(best[i], p);
    }
    ClearRouteOptimal(Apart(), "s", "t", path, capped, best);
  }
}
