/** The path server's graph object. Maps are ranged over in an arbitrary order, as Go does;
    the clock is read by the caller and passed in as `now`. */
module LatencyGraphs {
  import opened Graphs
  import opened GraphSync
  import opened NodeHeaps
  import opened Options
  import opened PathSearch

  class LatencyGraph {
    var entries: Entries

    constructor ()
      ensures entries == map[]
    {
      entries := map[];
    }

    method UpdateFromReport(now: int, sourceKey: Key, latency: map<Key, int>, zone: string)
      modifies this
      ensures entries == Report(old(entries), now, sourceKey, latency, zone)
      ensures forall u, v :: Edge(entries, u, v) ==
                if u != sourceKey || sourceKey == "" || latency == map[] then Edge(old(entries), u, v)
                else if v in latency && latency[v] > 0 then Some(RttEntry(latency[v], now, zone))
                else None
    {
      forall u, v { ReportEdge(entries, now, sourceKey, latency, zone, u, v); }
      hide Edge;
      if sourceKey == "" || |latency| == 0 {
        return;
      }
      var row := ReportTargets(now, latency, zone);
      entries := entries[sourceKey := row];
    }

    static method ReportTargets(now: int, latency: map<Key, int>, zone: string) returns (row: map<Key, RttEntry>)
      ensures row == ReportRow(now, latency, zone)
    {
      row := map[];
      var pending := latency.Keys;
      while pending != {}
        invariant pending <= latency.Keys
        invariant row.Keys == ReportRow(now, latency, zone).Keys - pending
        invariant forall dst :: dst in row ==> row[dst] == RttEntry(latency[dst], now, zone)
      {
        var target :| target in pending;
        pending := pending - {target};
        if latency[target] > 0 {
          row := row[target := RttEntry(latency[target], now, zone)];
        }
      }
    }

    method MergeFromSync(remote: Entries)
      modifies this
      ensures entries == Merge(old(entries), remote)
    {
      var pending := remote.Keys;
      assert remote - pending == map[];
      assert entries == Merge(entries, map[]) by { MergeNothing(entries); }
      while pending != {}
        invariant pending <= remote.Keys
        invariant entries == Merge(old(entries), remote - pending)
      {
        var src :| src in pending;
        MergeOneSource(old(entries), remote, pending, src);
        var row := MergeTargets(RowOf(entries, src), remote[src]);
        entries := entries[src := row];
        pending := pending - {src};
      }
      assert remote - pending == remote;
    }

    static method MergeTargets(local: map<Key, RttEntry>, targets: map<Key, RttEntry>) returns (row: map<Key, RttEntry>)
      ensures row == MergeRow(local, targets)
    {
      row := local;
      var pending := targets.Keys;
      assert targets - pending == map[];
      while pending != {}
        invariant pending <= targets.Keys
        invariant row == MergeRow(local, targets - pending)
      {
        var dst :| dst in pending;
        pending := pending - {dst};
        if dst !in row || Newer(targets[dst], row[dst]) {
          row := row[dst := targets[dst]];
        }
        assert row == MergeRow(local, targets - pending);
      }
      assert targets - pending == targets;
    }

    method PruneStaleEdges(now: int, maxAge: int)
      modifies this
      ensures entries == Prune(old(entries), now - maxAge)
    {
      hide PruneRow;
      var cutoff := now - maxAge;
      var pending := entries.Keys;
      while pending != {}
        invariant pending <= old(entries).Keys
        invariant forall src :: src in pending ==> src in entries && entries[src] == old(entries)[src]
        invariant forall src :: src in entries && src !in pending ==> src in old(entries)
        invariant forall src :: src in old(entries) && src !in pending ==>
                    var kept := PruneRow(old(entries)[src], cutoff);
                    if kept == map[] then src !in entries else src in entries && entries[src] == kept
      {
        var src :| src in pending;
        pending := pending - {src};
        var targets := PruneTargets(entries[src], cutoff);
        entries := if |targets| == 0 then entries - {src} else entries[src := targets];
      }
      assert entries == Prune(old(entries), cutoff);
    }

    static method PruneTargets(row: map<Key, RttEntry>, cutoff: int) returns (kept: map<Key, RttEntry>)
      ensures kept == PruneRow(row, cutoff)
    {
      kept := row;
      var pending := row.Keys;
      while pending != {}
        invariant pending <= row.Keys
        invariant kept.Keys == pending + PruneRow(row, cutoff).Keys
        invariant forall dst :: dst in kept ==> kept[dst] == row[dst]
      {
        var dst :| dst in pending;
        pending := pending - {dst};
        if row[dst].timestamp < cutoff {
          kept := kept - {dst};
        }
      }
    }

    /** The stored edges, handed over as a value of their own. */
    method ExportForSync() returns (out: Entries)
      ensures out == entries
    {
      out := map[];
      var pending := entries.Keys;
      while pending != {}
        invariant pending <= entries.Keys
        invariant out == entries - pending
      {
        var src :| src in pending;
        pending := pending - {src};
        out := out[src := entries[src]];
      }
    }

    /** Dijkstra from `source` until `target` is settled. `[]` is the source's nil. */
    method QueryPath(source: Key, target: Key)
      returns (path: seq<Key>, ghost st: Search, ghost tree: map<Key, seq<Key>>)
      ensures source == "" || target == "" || source == target ==> path == []
      ensures source != "" && target != "" && source != target ==>
                && Answers(entries, source, target, path, Capped(st))
                && Finished(entries, source, target, path, st, tree)
    {
      st, tree := Search(map[], map[], map[], {}), map[source := [source]];
      if source == "" || target == "" || source == target {
        return [], st, tree;
      }
      var dist: map<Key, int> := map[source := 0];
      var prev: map<Key, Key> := map[];
      var visited: set<Key> := {};
      var hopCount: map<Key, nat> := map[];
      var pq := new NodeHeap();
      pq.Push(HeapItem(source, 0));
      ghost var cur0: Key := "";
      SearchStarts(entries, source, cur0);
      hide LabelsOk, QueueOk, Relaxed, SettledFirst, Answers, Finished, Capped;

      while |pq.items| > 0
        invariant fresh(pq) && HeapOrdered(pq.items) && unchanged(this)
        invariant SearchInv(entries, source, Search(dist, prev, hopCount, visited), tree, multiset(pq.items), cur0, {})
        invariant target !in visited
        invariant visited == {} ==> multiset(pq.items) == multiset{HeapItem(source, 0)}
        invariant visited != {} ==> source in visited
        decreases Nodes(entries) + {source} - visited, |pq.items|
      {
        var cur := pq.Pop();
        st := Search(dist, prev, hopCount, visited);
        if cur.key in visited {
          StalePop(st, multiset(pq.items), cur);
          continue;
        }
        PoppedIsNearest(st, multiset(pq.items), cur);
        if cur.key == target {
          FoundAnswers(entries, source, st, tree, target, cur0);
          path := Reconstruct(source, target, prev, st, tree, entries);
          return path, st, tree;
        }
        SettleKeepsInv(entries, source, st, tree, multiset(pq.items), cur, cur0);
        visited := visited + {cur.key};
        dist, prev, hopCount, tree := RelaxNeighbours(source, cur.key, dist, prev, hopCount, visited, pq, tree);
        cur0 := cur.key;
      }
      st := Search(dist, prev, hopCount, visited);
      ExhaustedAnswers(entries, source, st, tree, target, cur0);
      return [], st, tree;
    }

    /** The loop over the edges out of a node that was just settled. */
    method RelaxNeighbours(ghost source: Key, cur: Key, dist0: map<Key, int>, prev0: map<Key, Key>,
                           hopCount0: map<Key, nat>, visited: set<Key>, pq: NodeHeap, ghost tree0: map<Key, seq<Key>>)
      returns (dist: map<Key, int>, prev: map<Key, Key>, hopCount: map<Key, nat>, ghost tree: map<Key, seq<Key>>)
      requires HeapOrdered(pq.items) && source in visited
      requires var st := Search(dist0, prev0, hopCount0, visited);
               && visited <= dist0.Keys
               && SearchInv(entries, source, st, tree0, multiset(pq.items), cur, RowOf(entries, cur).Keys)
               && SettledWithin(entries, st, cur)
      modifies pq
      ensures HeapOrdered(pq.items)
      ensures SearchInv(entries, source, Search(dist, prev, hopCount, visited), tree, multiset(pq.items), cur, {})
    {
      hide LabelsOk, QueueOk, Relaxed, SettledFirst;
      dist, prev, hopCount, tree := dist0, prev0, hopCount0, tree0;
      var neighbours := RowOf(entries, cur);
      var pending := neighbours.Keys;
      while pending != {}
        invariant HeapOrdered(pq.items)
        invariant pending <= neighbours.Keys
        invariant SearchInv(entries, source, Search(dist, prev, hopCount, visited), tree, multiset(pq.items), cur,
                            pending)
        invariant visited <= dist.Keys && SettledWithin(entries, Search(dist, prev, hopCount, visited), cur)
      {
        var neighbour :| neighbour in pending;
        ghost var st := Search(dist, prev, hopCount, visited);
        if neighbour in visited || HopsOf(hopCount, cur) >= MAX_HOPS {
          SkipKeepsInv(entries, source, st, tree, multiset(pq.items), cur, pending, neighbour);
        } else {
          var newDist := dist[cur] + neighbours[neighbour].rtt;
          if neighbour !in dist || newDist < dist[neighbour] {
            ImproveKeepsInv(entries, source, st, tree, multiset(pq.items), cur, pending, neighbour);
            dist := dist[neighbour := newDist];
            prev := prev[neighbour := cur];
            hopCount := hopCount[neighbour := HopsOf(hopCount, cur) + 1];
            tree := tree[neighbour := tree[cur] + [neighbour]];
            pq.Push(HeapItem(neighbour, newDist));
          } else {
            SkipKeepsInv(entries, source, st, tree, multiset(pq.items), cur, pending, neighbour);
          }
        }
        pending := pending - {neighbour};
      }
    }

    /** Follows the `prev` links back from the target. */
    static method Reconstruct(ghost source: Key, target: Key, prev: map<Key, Key>, ghost st: Search,
                              ghost tree: map<Key, seq<Key>>, ghost g: Entries) returns (path: seq<Key>)
      requires LabelsOk(g, source, st, tree) && target in st.dist && prev == st.prev
      ensures target in tree && path == tree[target]
    {
      hide LabelsOk, Labelled;
      path := [target];
      var p := target;
      StepBack(g, source, st, tree, target);
      while p in prev
        invariant p in st.dist && p in tree
        invariant path != [] && path[0] == p && tree[p] + path[1..] == tree[target]
        decreases |tree[p]|
      {
        StepBack(g, source, st, tree, p);
        p := prev[p];
        path := [p] + path;
      }
      StepBack(g, source, st, tree, p);
      assert path == [p] + path[1..];
    }
  }

  /** One `prev` link shortens the labelled walk by its last node. */
  lemma StepBack(g: Entries, source: Key, st: Search, tree: map<Key, seq<Key>>, p: Key)
    requires LabelsOk(g, source, st, tree) && p in st.dist
    ensures p in tree && tree[p] != []
    ensures p in st.prev ==> st.prev[p] in st.dist && st.prev[p] in tree && tree[p] == tree[st.prev[p]] + [p]
    ensures p !in st.prev ==> tree[p] == [p]
  {
    assert Labelled(g, source, st, tree, p);
  }

  lemma MergeOneSource(g: Entries, remote: Entries, pending: set<Key>, src: Key)
    requires src in pending && src in remote
    ensures RowOf(Merge(g, remote - pending), src) == RowOf(g, src)
    ensures Merge(g, remote - pending)[src := MergeRow(RowOf(g, src), remote[src])] ==
            Merge(g, remote - (pending - {src}))
  {
    MergeEmptyRow(RowOf(g, src));
    hide MergeRow;
    var before, after := remote - pending, remote - (pending - {src});
    assert RowOf(before, src) == map[] && RowOf(after, src) == remote[src];
    var l, r := Merge(g, before)[src := MergeRow(RowOf(g, src), remote[src])], Merge(g, after);
    assert l.Keys == r.Keys;
    forall x | x in r ensures l[x] == r[x] {
      assert x != src ==> RowOf(before, x) == RowOf(after, x);
    }
  }

  lemma MergeEmptyRow(r: map<Key, RttEntry>)
    ensures MergeRow(r, map[]) == r
  {
  }

  lemma MergeNothing(g: Entries)
    ensures Merge(g, map[]) == g
  {
    forall u, v ensures Edge(Merge(g, map[]), u, v) == Edge(g, u, v) {
      MergeEdge(g, map[], u, v);
    }
    SameEdges(Merge(g, map[]), g);
  }

  /** Discarding a stale queue entry loses no tentative label. */
  lemma StalePop(st: Search, items: multiset<HeapItem>, x: HeapItem)
    requires QueueOk(st, items + multiset{x}) && x.key in st.visited
    ensures QueueOk(st, items)
  {
    assert Settle(st, x.key) == st;
    SettleKeepsQueue(st, items, x);
  }
}
