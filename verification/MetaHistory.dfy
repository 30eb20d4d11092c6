/** Which of the META messages that reach a node are applied, said of the arrivals alone. */
module MetaHistory {
  import opened Arithmetic
  import opened Bytes
  import opened Collections
  import opened MetaNodes
  import opened MetaFlood
  import opened Options

  type Arrivals = seq<(Key, Message)>

  const EMPTY: Node := Node(map[], map[])

  /** Every earlier META message from the same neighbour has a smaller sequence number. */
  ghost predicate Fresh(arrivals: Arrivals, i: nat)
    requires i < |arrivals|
  {
    arrivals[i].1.isMeta && forall j :: 0 <= j < i ==> Below(arrivals, j, i)
  }

  ghost predicate Below(arrivals: Arrivals, j: nat, i: nat)
    requires j < |arrivals| && i < |arrivals|
  {
    arrivals[j].1.isMeta && arrivals[j].0 == arrivals[i].0 ==> arrivals[j].1.seqNo < arrivals[i].1.seqNo
  }

  predicate SameMessage(a: Message, b: Message) {
    a.origin == b.origin && a.seqNo == b.seqNo
  }

  ghost function Neighbours(arrivals: Arrivals): set<Key> {
    set i | 0 <= i < |arrivals| :: arrivals[i].0
  }

  ghost function DedupKeys(arrivals: Arrivals): set<seq<byte>> {
    set i | 0 <= i < |arrivals| :: DedupKey(arrivals[i].1)
  }

  /** Too few neighbours and messages to fill a cache. */
  ghost predicate Uncrowded(arrivals: Arrivals) {
    |Neighbours(arrivals)| <= 512 && |DedupKeys(arrivals)| <= 4096
  }

  lemma UncrowdedPrefix(arrivals: Arrivals, k: nat)
    requires Uncrowded(arrivals) && k <= |arrivals|
    ensures Uncrowded(arrivals[..k])
  {
    SubsetSize(Neighbours(arrivals[..k]), Neighbours(arrivals));
    SubsetSize(DedupKeys(arrivals[..k]), DedupKeys(arrivals));
  }

  /** The largest sequence number of a META message from the neighbour. */
  function Latest(arrivals: Arrivals, from: Key): Option<nat> {
    if arrivals == [] then None
    else
      var k := |arrivals| - 1;
      var before, m := Latest(arrivals[..k], from), arrivals[k].1;
      if arrivals[k].0 == from && m.isMeta && (before.None? || before.value < m.seqNo) then Some(m.seqNo) else before
  }

  lemma {:induction false} LatestIsLargest(arrivals: Arrivals, from: Key, bound: nat)
    ensures (Latest(arrivals, from).None? || Latest(arrivals, from).value < bound) <==>
            forall j :: 0 <= j < |arrivals| && arrivals[j].0 == from && arrivals[j].1.isMeta ==>
              arrivals[j].1.seqNo < bound
    decreases |arrivals|
  {
    if arrivals != [] {
      var k := |arrivals| - 1;
      LatestIsLargest(arrivals[..k], from, bound);
      assert forall j :: 0 <= j < k ==> arrivals[..k][j] == arrivals[j];
    }
  }

  function Lookup<K, V>(m: map<K, V>, k: K): Option<V> {
    if k in m then Some(m[k]) else None
  }

  lemma ReceivedKeys(n: Node, from: Key, m: Message)
    ensures Received(n, from, m).peerSeq.Keys <= n.peerSeq.Keys + {from}
    ensures Received(n, from, m).seen.Keys <= n.seen.Keys + {DedupKey(m)}
  {
  }

  lemma {:induction false} CacheKeys(arrivals: Arrivals)
    ensures After(EMPTY, arrivals).peerSeq.Keys <= Neighbours(arrivals)
    ensures After(EMPTY, arrivals).seen.Keys <= DedupKeys(arrivals)
    decreases |arrivals|
  {
    if arrivals != [] {
      var k := |arrivals| - 1;
      hide DedupKey, Received;
      CacheKeys(arrivals[..k]);
      ReceivedKeys(After(EMPTY, arrivals[..k]), arrivals[k].0, arrivals[k].1);
      assert Neighbours(arrivals) == Neighbours(arrivals[..k]) + {arrivals[k].0};
      assert DedupKeys(arrivals) == DedupKeys(arrivals[..k]) + {DedupKey(arrivals[k].1)};
    }
  }

  /** Caches that stay within their bounds are not dropped. */
  lemma NothingDropped(n: Node, from: Key, m: Message)
    requires |n.peerSeq.Keys + {from}| <= 512 && |n.seen.Keys + {DedupKey(m)}| <= 4096
    ensures Received(n, from, m).peerSeq ==
            if m.isMeta && !Stale(n, from, m) then n.peerSeq[from := m.seqNo] else n.peerSeq
    ensures Received(n, from, m).seen == if Accepts(n, from, m) then n.seen[DedupKey(m) := m.seqNo] else n.seen
  {
    hide DedupKey, Stale, Duplicate;
    var peerSeq, seen := n.peerSeq[from := m.seqNo], n.seen[DedupKey(m) := m.seqNo];
    assert peerSeq.Keys == n.peerSeq.Keys + {from} && seen.Keys == n.seen.Keys + {DedupKey(m)};
    assert |peerSeq| == |peerSeq.Keys| && |seen| == |seen.Keys|;
    assert Bounded(Node(peerSeq, seen)) == Node(peerSeq, seen);
    hide Bounded;
  }

  lemma LastArrival(arrivals: Arrivals)
    requires Uncrowded(arrivals) && arrivals != []
    ensures var k := |arrivals| - 1;
            var n, from, m := After(EMPTY, arrivals[..k]), arrivals[k].0, arrivals[k].1;
            && After(EMPTY, arrivals) == Received(n, from, m)
            && |n.peerSeq.Keys + {from}| <= 512 && |n.seen.Keys + {DedupKey(m)}| <= 4096
  {
    hide DedupKey, Received;
    var k := |arrivals| - 1;
    var n, from, m := After(EMPTY, arrivals[..k]), arrivals[k].0, arrivals[k].1;
    CacheKeys(arrivals[..k]);
    SubsetSize(n.peerSeq.Keys + {from}, Neighbours(arrivals));
    SubsetSize(n.seen.Keys + {DedupKey(m)}, DedupKeys(arrivals));
  }

  lemma {:induction false} PeerSeqExact(arrivals: Arrivals, from: Key)
    requires Uncrowded(arrivals)
    ensures Lookup(After(EMPTY, arrivals).peerSeq, from) == Latest(arrivals, from)
    decreases |arrivals|
  {
    if arrivals != [] {
      var k := |arrivals| - 1;
      UncrowdedPrefix(arrivals, k);
      PeerSeqExact(arrivals[..k], from);
      LastArrival(arrivals);
      hide After, Uncrowded, Accepts, DedupKey, Received;
      NothingDropped(After(EMPTY, arrivals[..k]), arrivals[k].0, arrivals[k].1);
    }
  }

  lemma StaleIff(arrivals: Arrivals, i: nat)
    requires Uncrowded(arrivals) && i < |arrivals|
    ensures var n := After(EMPTY, arrivals[..i]);
            Fresh(arrivals, i) <==> arrivals[i].1.isMeta && !Stale(n, arrivals[i].0, arrivals[i].1)
  {
    UncrowdedPrefix(arrivals, i);
    PeerSeqExact(arrivals[..i], arrivals[i].0);
    LatestIsLargest(arrivals[..i], arrivals[i].0, arrivals[i].1.seqNo);
    hide After, Uncrowded, Latest;
    forall j | 0 <= j < i
      ensures Below(arrivals, j, i) <==>
              (arrivals[..i][j].0 == arrivals[i].0 && arrivals[..i][j].1.isMeta ==>
                 arrivals[..i][j].1.seqNo < arrivals[i].1.seqNo)
    {
      assert arrivals[..i][j] == arrivals[j];
    }
  }

  /** A fresh message with this dedup key is among the first `n` arrivals. */
  ghost predicate CameFresh(arrivals: Arrivals, n: nat, d: seq<byte>) {
    n <= |arrivals| && exists j :: 0 <= j < n && Fresh(arrivals, j) && DedupKey(arrivals[j].1) == d
  }

  lemma CameFreshStep(arrivals: Arrivals, n: nat, d: seq<byte>)
    requires n < |arrivals|
    ensures CameFresh(arrivals, n + 1, d) <==>
            CameFresh(arrivals, n, d) || (Fresh(arrivals, n) && DedupKey(arrivals[n].1) == d)
  {
    hide DedupKey, Fresh;
  }

  /** One of the first `n` arrivals has this dedup key and sequence number. */
  ghost predicate SentAs(arrivals: Arrivals, n: nat, d: seq<byte>, seqNo: nat) {
    n <= |arrivals| && exists j :: 0 <= j < n && DedupKey(arrivals[j].1) == d && arrivals[j].1.seqNo == seqNo
  }

  lemma {:induction false} SeenExact(arrivals: Arrivals, n: nat, d: seq<byte>)
    requires Uncrowded(arrivals) && n <= |arrivals|
    ensures var seen := After(EMPTY, arrivals[..n]).seen;
            (d in seen <==> CameFresh(arrivals, n, d)) && (d in seen ==> SentAs(arrivals, n, d, seen[d]))
    decreases n
  {
    hide Uncrowded, Fresh, Stale, DedupKey, Received, CameFresh, After;
    if n == 0 {
      NothingSeen(arrivals, d);
    } else {
      var k := n - 1;
      var m := arrivals[k].1;
      SeenExact(arrivals, k, d);
      StaleIff(arrivals, k);
      CameFreshStep(arrivals, k, d);
      SeenStep(arrivals, k);
      assert arrivals[..k + 1] == arrivals[..n];
    }
  }

  lemma NothingSeen(arrivals: Arrivals, d: seq<byte>)
    ensures After(EMPTY, arrivals[..0]).seen == map[] && !CameFresh(arrivals, 0, d)
  {
  }

  lemma SeenStep(arrivals: Arrivals, k: nat)
    requires Uncrowded(arrivals) && k < |arrivals|
    ensures var s, from, m := After(EMPTY, arrivals[..k]), arrivals[k].0, arrivals[k].1;
            After(EMPTY, arrivals[..k + 1]).seen ==
            if Accepts(s, from, m) then s.seen[DedupKey(m) := m.seqNo] else s.seen
  {
    hide Uncrowded, Stale, DedupKey, Received, After;
    UncrowdedPrefix(arrivals, k + 1);
    LastArrival(arrivals[..k + 1]);
    assert arrivals[..k + 1][..k] == arrivals[..k] && arrivals[..k + 1][k] == arrivals[k];
    NothingDropped(After(EMPTY, arrivals[..k]), arrivals[k].0, arrivals[k].1);
  }

  /** While the caches are not full, a META message is applied if and only if it is newer than everything its
      neighbour sent before, and no such message with the same originator and sequence number came earlier. */
  lemma AppliedExactly(arrivals: Arrivals, i: nat)
    requires Uncrowded(arrivals) && i < |arrivals|
    requires forall j :: 0 <= j < |arrivals| ==> arrivals[j].1.seqNo < TWO64
    ensures AppliedAt(EMPTY, arrivals, i) <==>
            Fresh(arrivals, i) &&
            forall j :: 0 <= j < i && Fresh(arrivals, j) ==> !SameMessage(arrivals[j].1, arrivals[i].1)
  {
    var m := arrivals[i].1;
    StaleIff(arrivals, i);
    SeenExact(arrivals, i, DedupKey(m));
    hide After, Uncrowded, Fresh, Stale;
    forall j | 0 <= j < i ensures DedupKey(arrivals[j].1) == DedupKey(m) <==> SameMessage(arrivals[j].1, m) {
      if DedupKey(arrivals[j].1) == DedupKey(m) { DedupInjective(arrivals[j].1, m); }
    }
    hide DedupKey;
  }
}
