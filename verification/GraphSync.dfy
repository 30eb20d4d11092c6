/** What reports, sync merges and pruning do to the stored edges, and the laws
    that let shared nodes exchange graphs in any order. */
module GraphSync {
  import opened Graphs
  import opened Options

  function RowOf(g: Entries, src: Key): map<Key, RttEntry> {
    if src in g then g[src] else map[]
  }

  predicate Newer(a: RttEntry, b: RttEntry) {
    a.timestamp > b.timestamp
  }

  /** A remote entry replaces a local one only when strictly newer. */
  function MergeRow(a: map<Key, RttEntry>, b: map<Key, RttEntry>): map<Key, RttEntry> {
    map dst | dst in a.Keys + b.Keys ::
      if dst !in a || (dst in b && Newer(b[dst], a[dst])) then b[dst] else a[dst]
  }

  function Merge(a: Entries, b: Entries): Entries {
    map src | src in a.Keys + b.Keys :: MergeRow(RowOf(a, src), RowOf(b, src))
  }

  function PruneRow(r: map<Key, RttEntry>, cutoff: int): map<Key, RttEntry> {
    map dst | dst in r && r[dst].timestamp >= cutoff :: r[dst]
  }

  /** Drops stale edges, and every source left with no edge. */
  function Prune(g: Entries, cutoff: int): Entries {
    map src | src in g && PruneRow(g[src], cutoff) != map[] :: PruneRow(g[src], cutoff)
  }

  function ReportRow(now: int, latency: map<Key, int>, zone: string): map<Key, RttEntry> {
    map dst | dst in latency && latency[dst] > 0 :: RttEntry(latency[dst], now, zone)
  }

  /** A report replaces all edges out of its source; an empty one is ignored. */
  function Report(g: Entries, now: int, source: Key, latency: map<Key, int>, zone: string): Entries {
    if source == "" || latency == map[] then g else g[source := ReportRow(now, latency, zone)]
  }

  function MergeAll(base: Entries, remotes: seq<Entries>): Entries {
    if remotes == [] then base else Merge(MergeAll(base, remotes[..|remotes| - 1]), remotes[|remotes| - 1])
  }

  /** Measurements of one edge with the same timestamp are the same measurement. */
  ghost predicate Agree(a: Entries, b: Entries) {
    forall u, v :: HasEdge(a, u, v) && HasEdge(b, u, v) && a[u][v].timestamp == b[u][v].timestamp ==> a[u][v] == b[u][v]
  }

  /** The stored measurement of one edge, if any. */
  function Edge(g: Entries, u: Key, v: Key): Option<RttEntry> {
    if HasEdge(g, u, v) then Some(g[u][v]) else None
  }

  /** The one with the later timestamp, the first on a tie. */
  function NewestOf(a: Option<RttEntry>, b: Option<RttEntry>): Option<RttEntry> {
    if a.None? || (b.Some? && b.value.timestamp > a.value.timestamp) then b else a
  }

  lemma SameEdges(a: Entries, b: Entries)
    requires a.Keys == b.Keys && forall u, v :: Edge(a, u, v) == Edge(b, u, v)
    ensures a == b
  {
    forall u | u in a ensures a[u] == b[u] {
      forall v ensures v in a[u] <==> v in b[u] ensures v in a[u] ==> a[u][v] == b[u][v] {
        assert Edge(a, u, v) == Edge(b, u, v);
      }
    }
  }

  /** A merge keeps, edge by edge, the newest measurement, preferring the local one on a tie. */
  lemma MergeEdge(a: Entries, b: Entries, u: Key, v: Key)
    ensures Edge(Merge(a, b), u, v) == NewestOf(Edge(a, u, v), Edge(b, u, v))
  {
  }

  /** A report leaves its source exactly the edges it names with a positive RTT, measured now; no other
      edge changes. An empty report, or one without a source, changes nothing. */
  lemma ReportEdge(g: Entries, now: int, source: Key, latency: map<Key, int>, zone: string, u: Key, v: Key)
    ensures Edge(Report(g, now, source, latency, zone), u, v) ==
            if u != source || source == "" || latency == map[] then Edge(g, u, v)
            else if v in latency && latency[v] > 0 then Some(RttEntry(latency[v], now, zone))
            else None
  {
  }

  /** Merging the same graph again changes nothing. */
  lemma MergeIdempotent(a: Entries, b: Entries)
    ensures Merge(Merge(a, b), b) == Merge(a, b) && Merge(a, a) == a
  {
    var m := Merge(a, b);
    forall u, v ensures Edge(Merge(m, b), u, v) == Edge(m, u, v) && Edge(Merge(a, a), u, v) == Edge(a, u, v) {
      MergeEdge(a, b, u, v);
      MergeEdge(m, b, u, v);
      MergeEdge(a, a, u, v);
    }
    SameEdges(Merge(m, b), m);
    SameEdges(Merge(a, a), a);
  }

  lemma MergeAssociativeEdge(a: Entries, b: Entries, c: Entries, u: Key, v: Key)
    ensures Edge(Merge(Merge(a, b), c), u, v) == Edge(Merge(a, Merge(b, c)), u, v)
  {
    hide Edge, Merge;
    MergeEdge(a, b, u, v);
    MergeEdge(b, c, u, v);
    MergeEdge(Merge(a, b), c, u, v);
    MergeEdge(a, Merge(b, c), u, v);
  }

  /** The grouping of merges never matters. */
  lemma MergeAssociative(a: Entries, b: Entries, c: Entries)
    ensures Merge(Merge(a, b), c) == Merge(a, Merge(b, c))
  {
    var l, r := Merge(Merge(a, b), c), Merge(a, Merge(b, c));
    forall u, v ensures Edge(l, u, v) == Edge(r, u, v) {
      MergeAssociativeEdge(a, b, c, u, v);
    }
    MergeAssociativeKeys(a, b, c);
    hide Merge, Edge;
    SameEdges(l, r);
  }

  lemma MergeAssociativeKeys(a: Entries, b: Entries, c: Entries)
    ensures Merge(Merge(a, b), c).Keys == Merge(a, Merge(b, c)).Keys
  {
    hide MergeRow;
  }

  /** The order of two merges does not matter exactly when equal timestamps carry equal entries. */
  lemma MergeCommutesIff(a: Entries, b: Entries)
    ensures Merge(a, b) == Merge(b, a) <==> Agree(a, b)
  {
    var l, r := Merge(a, b), Merge(b, a);
    if Agree(a, b) {
      forall u, v ensures Edge(l, u, v) == Edge(r, u, v) {
        MergeEdge(a, b, u, v);
        MergeEdge(b, a, u, v);
      }
      SameEdges(l, r);
    }
    if l == r {
      forall u, v | HasEdge(a, u, v) && HasEdge(b, u, v) && a[u][v].timestamp == b[u][v].timestamp
        ensures a[u][v] == b[u][v]
      {
        MergeEdge(a, b, u, v);
        MergeEdge(b, a, u, v);
      }
    }
  }

  /** `r` is one of the newest of the measurements of one edge held by the graphs `gs`. */
  ghost predicate IsNewest(r: Option<RttEntry>, gs: seq<Entries>, u: Key, v: Key) {
    && (exists i :: 0 <= i < |gs| && Edge(gs[i], u, v) == r)
    && (forall i :: 0 <= i < |gs| && HasEdge(gs[i], u, v) ==> r.Some? && gs[i][u][v].timestamp <= r.value.timestamp)
  }

  lemma {:induction false} MergeAllIsNewest(base: Entries, remotes: seq<Entries>, u: Key, v: Key)
    ensures IsNewest(Edge(MergeAll(base, remotes), u, v), [base] + remotes, u, v)
    decreases |remotes|
  {
    hide Merge;
    var gs := [base] + remotes;
    if remotes == [] {
      assert gs[0] == base;
    } else {
      var n := |remotes| - 1;
      var before, last := MergeAll(base, remotes[..n]), remotes[n];
      var gs' := [base] + remotes[..n];
      MergeAllIsNewest(base, remotes[..n], u, v);
      MergeEdge(before, last, u, v);
      assert gs == gs' + [last];
      var i :| 0 <= i < |gs'| && Edge(gs'[i], u, v) == Edge(before, u, v);
      assert gs[i] == gs'[i] && gs[|gs'|] == last;
    }
  }

  lemma {:induction false} MergeAllSources(base: Entries, remotes: seq<Entries>, u: Key)
    ensures u in MergeAll(base, remotes) <==> exists x :: x in [base] + remotes && u in x
    decreases |remotes|
  {
    if remotes == [] {
      assert base in [base] + remotes;
    } else {
      var n := |remotes| - 1;
      MergeAllSources(base, remotes[..n], u);
      assert [base] + remotes == [base] + remotes[..n] + [remotes[n]];
    }
  }

  lemma NewestUnique(r: Option<RttEntry>, q: Option<RttEntry>, gs: seq<Entries>, hs: seq<Entries>, u: Key, v: Key)
    requires IsNewest(r, gs, u, v) && IsNewest(q, hs, u, v)
    requires forall x :: x in gs <==> x in hs
    requires forall x, y :: x in gs && y in gs ==> Agree(x, y)
    ensures r == q
  {
    var i :| 0 <= i < |gs| && Edge(gs[i], u, v) == r;
    var j :| 0 <= j < |hs| && Edge(hs[j], u, v) == q;
    assert gs[i] in hs && hs[j] in gs;
    var i' :| 0 <= i' < |hs| && hs[i'] == gs[i];
    var j' :| 0 <= j' < |gs| && gs[j'] == hs[j];
    assert Agree(gs[i], gs[j']);
  }

  /** Two shared nodes that have seen the same graphs, in any order and any number of
      times, hold the same edges. */
  lemma SyncConverges(a: Entries, b: Entries, toA: seq<Entries>, toB: seq<Entries>)
    requires forall x :: x in [a] + toA <==> x in [b] + toB
    requires forall x, y :: x in [a] + toA && y in [a] + toA ==> Agree(x, y)
    ensures MergeAll(a, toA) == MergeAll(b, toB)
  {
    var l, r := MergeAll(a, toA), MergeAll(b, toB);
    forall u ensures u in l <==> u in r {
      MergeAllSources(a, toA, u);
      MergeAllSources(b, toB, u);
    }
    forall u, v ensures Edge(l, u, v) == Edge(r, u, v) {
      MergeAllIsNewest(a, toA, u, v);
      MergeAllIsNewest(b, toB, u, v);
      NewestUnique(Edge(l, u, v), Edge(r, u, v), [a] + toA, [b] + toB, u, v);
    }
    SameEdges(l, r);
  }

  function NotStale(e: Option<RttEntry>, cutoff: int): Option<RttEntry> {
    if e.Some? && e.value.timestamp >= cutoff then e else None
  }

  /** Pruning keeps exactly the edges measured at the cutoff or later. */
  lemma PruneEdge(g: Entries, cutoff: int, u: Key, v: Key)
    ensures Edge(Prune(g, cutoff), u, v) == NotStale(Edge(g, u, v), cutoff)
  {
    if HasEdge(g, u, v) && g[u][v].timestamp >= cutoff {
      assert v in PruneRow(g[u], cutoff);
    }
  }

  /** A source survives pruning exactly when one of its edges does. */
  lemma PruneSource(g: Entries, cutoff: int, u: Key)
    ensures u in Prune(g, cutoff) <==> exists v :: NotStale(Edge(g, u, v), cutoff).Some?
  {
    if u in Prune(g, cutoff) {
      var v :| v in Prune(g, cutoff)[u].Keys;
      assert NotStale(Edge(g, u, v), cutoff).Some?;
    }
    if v :| NotStale(Edge(g, u, v), cutoff).Some? {
      assert v in PruneRow(g[u], cutoff);
    }
  }

  lemma PruneMergeSource(a: Entries, b: Entries, cutoff: int, u: Key)
    ensures u in Prune(Merge(a, b), cutoff) <==> u in Prune(a, cutoff) || u in Prune(b, cutoff)
  {
    hide Merge, Prune, Edge;
    PruneSource(Merge(a, b), cutoff, u);
    PruneSource(a, cutoff, u);
    PruneSource(b, cutoff, u);
    forall v ensures Edge(Merge(a, b), u, v) == NewestOf(Edge(a, u, v), Edge(b, u, v)) {
      MergeEdge(a, b, u, v);
    }
  }

  lemma PruneMergeEdge(a: Entries, b: Entries, cutoff: int, u: Key, v: Key)
    ensures Edge(Prune(Merge(a, b), cutoff), u, v) == Edge(Merge(Prune(a, cutoff), Prune(b, cutoff)), u, v)
  {
    hide Merge, Prune, Edge;
    MergeEdge(a, b, u, v);
    PruneEdge(a, cutoff, u, v);
    PruneEdge(b, cutoff, u, v);
    PruneEdge(Merge(a, b), cutoff, u, v);
    MergeEdge(Prune(a, cutoff), Prune(b, cutoff), u, v);
  }

  /** Pruning before or after a merge gives the same graph. */
  lemma PruneCommutesWithMerge(a: Entries, b: Entries, cutoff: int)
    ensures Prune(Merge(a, b), cutoff) == Merge(Prune(a, cutoff), Prune(b, cutoff))
  {
    hide Prune, Edge;
    var l, r := Prune(Merge(a, b), cutoff), Merge(Prune(a, cutoff), Prune(b, cutoff));
    forall u ensures u in l <==> u in r {
      PruneMergeSource(a, b, cutoff, u);
    }
    forall u, v ensures Edge(l, u, v) == Edge(r, u, v) {
      PruneMergeEdge(a, b, cutoff, u, v);
    }
    SameEdges(l, r);
  }

  /** Every operation keeps stored RTTs positive, provided remote graphs have positive RTTs. */
  lemma OperationsKeepPositive(g: Entries, remote: Entries, cutoff: int, now: int, source: Key,
                               latency: map<Key, int>, zone: string)
    requires Positive(g) && Positive(remote)
    ensures Positive(Merge(g, remote)) && Positive(Prune(g, cutoff)) && Positive(Report(g, now, source, latency, zone))
  {
    var m, p, r := Merge(g, remote), Prune(g, cutoff), Report(g, now, source, latency, zone);
    forall u, v | HasEdge(m, u, v) ensures 0 < Rtt(m, u, v) {
      MergeEdge(g, remote, u, v);
      assert HasEdge(g, u, v) || HasEdge(remote, u, v);
    }
    forall u, v | HasEdge(p, u, v) ensures 0 < Rtt(p, u, v) {
      PruneEdge(g, cutoff, u, v);
    }
    forall u, v | HasEdge(r, u, v) ensures 0 < Rtt(r, u, v) {
      assert u == source || HasEdge(g, u, v);
    }
  }
}
