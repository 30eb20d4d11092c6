/** The session-based metadata flood: per-node duplicate suppression and the hop limit. */
module MetaNodes {
  import opened Arithmetic
  import opened Bytes

  type Key = seq<byte>

  const MAX_META_TTL: nat := 4
  const MAX_SEEN: nat := 4096
  const MAX_PEER_SEQ: nat := 512

  /** The parts of a META message that decide its fate; `origin` is Self.Key. */
  datatype Message = Message(isMeta: bool, origin: Key, seqNo: nat, ttl: nat)

  datatype Node = Node(peerSeq: map<Key, nat>, seen: map<seq<byte>, nat>)

  /** Self.Key, a bar, and the sequence number in eight bytes. */
  function DedupKey(m: Message): seq<byte> {
    m.origin + [124] + Encode(m.seqNo, 8)
  }

  /** Different messages have different dedup keys. */
  lemma DedupInjective(a: Message, b: Message)
    requires a.seqNo < TWO64 && b.seqNo < TWO64 && DedupKey(a) == DedupKey(b)
    ensures a.origin == b.origin && a.seqNo == b.seqNo
  {
    var k := DedupKey(a);
    assert |a.origin| == |b.origin|;
    assert a.origin == k[..|a.origin|] == b.origin;
    assert Encode(a.seqNo, 8) == k[|a.origin| + 1..] == Encode(b.seqNo, 8);
    assert Pow(256, 8) == TWO64 by { assert Pow(256, 4) == 0x1_0000_0000; PowAdd(256, 4, 4); }
    EncodeInjective(a.seqNo, b.seqNo, 8);
  }

  predicate Stale(n: Node, from: Key, m: Message) {
    from in n.peerSeq && m.seqNo <= n.peerSeq[from]
  }

  predicate Duplicate(n: Node, m: Message) {
    DedupKey(m) in n.seen && n.seen[DedupKey(m)] >= m.seqNo
  }

  /** The message gets past both checks, is learned from and possibly forwarded. */
  predicate Accepts(n: Node, from: Key, m: Message) {
    m.isMeta && !Stale(n, from, m) && !Duplicate(n, m)
  }

  /** Overfull caches are dropped whole. */
  function Bounded(n: Node): Node {
    Node(if |n.peerSeq| > MAX_PEER_SEQ then map[] else n.peerSeq, if |n.seen| > MAX_SEEN then map[] else n.seen)
  }

  function Received(n: Node, from: Key, m: Message): Node {
    if !m.isMeta || Stale(n, from, m) then n
    else
      var noted := n.(peerSeq := n.peerSeq[from := m.seqNo]);
      if Duplicate(n, m) then noted
      else Bounded(noted.(seen := n.seen[DedupKey(m) := m.seqNo]))
  }

  /** Session peers other than the forwarder and the originator. */
  function Targets(peers: seq<Key>, from: Key, m: Message): seq<Key> {
    if peers == [] then []
    else
      var n := |peers| - 1;
      Targets(peers[..n], from, m) + if peers[n] == from || peers[n] == m.origin then [] else [peers[n]]
  }

  /** Every session peer gets the message as often as it is listed, except the forwarder and the originator. */
  lemma {:induction false} TargetsExact(peers: seq<Key>, from: Key, m: Message, k: Key)
    ensures multiset(Targets(peers, from, m))[k] == if k == from || k == m.origin then 0 else multiset(peers)[k]
    decreases |peers|
  {
    if peers != [] {
      var n := |peers| - 1;
      var before, one, none: seq<Key> := Targets(peers[..n], from, m), [peers[n]], [];
      TargetsExact(peers[..n], from, m, k);
      assert peers == peers[..n] + one;
      assert multiset(peers) == multiset(peers[..n]) + multiset(one);
      assert multiset(Targets(peers, from, m)) ==
             multiset(before) + multiset(if peers[n] == from || peers[n] == m.origin then none else one);
    }
  }

  lemma TargetsMembers(peers: seq<Key>, from: Key, m: Message, k: Key)
    ensures k in Targets(peers, from, m) <==> k in peers && k != from && k != m.origin
  {
    TargetsExact(peers, from, m, k);
    hide Targets;
    assert k in Targets(peers, from, m) <==> k in multiset(Targets(peers, from, m));
    assert k in peers <==> k in multiset(peers);
  }

  function ForwardsTo(n: Node, from: Key, m: Message, peers: seq<Key>): seq<Key> {
    if Accepts(n, from, m) && m.ttl < MAX_META_TTL then Targets(peers, from, m) else []
  }

  class MetaExchanger {
    var peerSeq: map<Key, nat>
    var seen: map<seq<byte>, nat>

    ghost function View(): Node
      reads this
    {
      Node(peerSeq, seen)
    }

    constructor ()
      ensures View() == Node(map[], map[])
    {
      peerSeq, seen := map[], map[];
    }

    /** Returns the peers to forward to and the message with its TTL raised once. */
    method Apply(from: Key, m: Message, peers: seq<Key>) returns (to: seq<Key>, out: Message)
      modifies this
      ensures View() == Received(old(View()), from, m)
      ensures to == ForwardsTo(old(View()), from, m, peers)
      ensures out == m.(ttl := m.ttl + 1) || to == []
      ensures forall k :: k in to <==>
                && k in peers && k != from && k != m.origin && m.ttl < 4 && m.isMeta
                && (from in old(peerSeq) ==> old(peerSeq)[from] < m.seqNo)
                && (DedupKey(m) in old(seen) ==> old(seen)[DedupKey(m)] < m.seqNo)
      ensures to != [] ==> forall k ::
                multiset(to)[k] == if k == from || k == m.origin then 0 else multiset(peers)[k]
    {
      forall k { TargetsExact(peers, from, m, k); }
      forall k { TargetsMembers(peers, from, m, k); }
      to, out := [], m;
      if !m.isMeta {
        return;
      }
      if from in peerSeq && m.seqNo <= peerSeq[from] {
        return;
      }
      peerSeq := peerSeq[from := m.seqNo];
      var dedup := DedupKey(m);
      if dedup in seen && seen[dedup] >= m.seqNo {
        return;
      }
      seen := seen[dedup := m.seqNo];
      BoundMaps();
      if m.ttl >= MAX_META_TTL {
        return;
      }
      out := m.(ttl := m.ttl + 1);
      for i := 0 to |peers|
        invariant View() == Received(old(View()), from, m)
        invariant to == Targets(peers[..i], from, m)
      {
        assert peers[..i + 1][..i] == peers[..i];
        if peers[i] == from || peers[i] == m.origin {
          continue;
        }
        to := to + [peers[i]];
      }
      assert peers[..|peers|] == peers;
    }

    method BoundMaps()
      modifies this
      ensures View() == Bounded(old(View()))
      ensures |seen| <= MAX_SEEN && |peerSeq| <= MAX_PEER_SEQ
    {
      if |seen| > MAX_SEEN {
        seen := map[];
      }
      if |peerSeq| > MAX_PEER_SEQ {
        peerSeq := map[];
      }
    }
  }
}

/** Floods across the whole network, message by message. */
module MetaFlood {
  import opened Arithmetic
  import opened Bytes
  import opened MetaNodes

  /** A message on its way. */
  datatype Packet = Packet(to: Key, from: Key, m: Message)

  datatype Net = Net(nodes: map<Key, Node>, flight: seq<Packet>)

  function NodeAt(net: Net, k: Key): Node {
    if k in net.nodes then net.nodes[k] else Node(map[], map[])
  }

  /** Packet `i` of those in flight arrives at a node that currently has sessions with `peers`;
      a lost packet is one that arrives nowhere. */
  datatype Event = Deliver(i: nat, peers: seq<Key>) | Lose(i: nat)

  function Packets(to: seq<Key>, from: Key, m: Message): seq<Packet> {
    if to == [] then [] else Packets(to[..|to| - 1], from, m) + [Packet(to[|to| - 1], from, m)]
  }

  function Without(ps: seq<Packet>, i: nat): seq<Packet>
    requires i < |ps|
  {
    ps[..i] + ps[i + 1..]
  }

  predicate Enabled(net: Net, e: Event, degree: nat) {
    e.i < |net.flight| && (e.Deliver? ==> |e.peers| <= degree)
  }

  function Step(net: Net, e: Event): Net
    requires e.i < |net.flight|
  {
    var rest := Without(net.flight, e.i);
    match e
    case Lose(_) => net.(flight := rest)
    case Deliver(i, peers) =>
      var p := net.flight[i];
      var n := NodeAt(net, p.to);
      Net(net.nodes[p.to := Received(n, p.from, p.m)],
          rest + Packets(ForwardsTo(n, p.from, p.m, peers), p.to, p.m.(ttl := p.m.ttl + 1)))
  }

  /** The most deliveries a packet can cause, itself included, when no node has more than `degree` sessions. */
  function Weight(degree: nat, ttl: nat): nat
    decreases MAX_META_TTL - ttl
  {
    if ttl >= MAX_META_TTL then 1 else 1 + degree * Weight(degree, ttl + 1)
  }

  function Total(degree: nat, ps: seq<Packet>): nat {
    if ps == [] then 0 else Total(degree, ps[..|ps| - 1]) + Weight(degree, ps[|ps| - 1].m.ttl)
  }

  lemma {:induction false} TotalAppend(degree: nat, a: seq<Packet>, b: seq<Packet>)
    ensures Total(degree, a + b) == Total(degree, a) + Total(degree, b)
    decreases |b|
  {
    if b == [] {
      assert a + b == a;
    } else {
      TotalAppend(degree, a, b[..|b| - 1]);
      assert (a + b)[..|a + b| - 1] == a + b[..|b| - 1];
    }
  }

  lemma TotalWithout(degree: nat, ps: seq<Packet>, i: nat)
    requires i < |ps|
    ensures Total(degree, ps) == Total(degree, Without(ps, i)) + Weight(degree, ps[i].m.ttl)
  {
    assert ps == ps[..i] + [ps[i]] + ps[i + 1..];
    TotalAppend(degree, ps[..i] + [ps[i]], ps[i + 1..]);
    TotalAppend(degree, ps[..i], [ps[i]]);
    TotalAppend(degree, ps[..i], ps[i + 1..]);
    assert [ps[i]][..0] == [];
  }

  lemma {:induction false} TotalPackets(degree: nat, to: seq<Key>, from: Key, m: Message)
    ensures Total(degree, Packets(to, from, m)) == |to| * Weight(degree, m.ttl)
    decreases |to|
  {
    if to != [] {
      hide Weight;
      TotalPackets(degree, to[..|to| - 1], from, m);
      var ps := Packets(to, from, m);
      assert ps[..|ps| - 1] == Packets(to[..|to| - 1], from, m);
      MulStep(|to|, Weight(degree, m.ttl));
    }
  }

  lemma {:induction false} PacketCount(to: seq<Key>, from: Key, m: Message, q: Packet)
    ensures multiset(Packets(to, from, m))[q] == if q.from == from && q.m == m then multiset(to)[q.to] else 0
    decreases |to|
  {
    if to != [] {
      var n := |to| - 1;
      PacketCount(to[..n], from, m, q);
      assert to == to[..n] + [to[n]];
    }
  }

  lemma ForwardCount(n: Node, from: Key, m: Message, peers: seq<Key>, k: Key)
    ensures multiset(ForwardsTo(n, from, m, peers))[k] ==
            if Accepts(n, from, m) && m.ttl < 4 && k != from && k != m.origin then multiset(peers)[k] else 0
  {
    TargetsExact(peers, from, m, k);
    hide Targets, Accepts;
  }

  lemma WithoutCount(ps: seq<Packet>, i: nat, q: Packet)
    requires i < |ps|
    ensures multiset(Without(ps, i))[q] == multiset(ps)[q] - if q == ps[i] then 1 else 0
  {
    assert ps == ps[..i] + [ps[i]] + ps[i + 1..];
  }

  /** A delivery takes its packet out of flight. If the message is accepted with a TTL below 4, it puts in
      exactly one packet with the TTL raised by one per session peer that is neither the forwarder nor the
      originator; otherwise nothing. */
  lemma DeliveryFloods(net: Net, i: nat, peers: seq<Key>, q: Packet)
    requires i < |net.flight|
    ensures var p, after := net.flight[i], Step(net, Deliver(i, peers)).flight;
            var forwarded := Accepts(NodeAt(net, p.to), p.from, p.m) && p.m.ttl < 4 && q.from == p.to &&
                             q.m == p.m.(ttl := p.m.ttl + 1) && q.to != p.from && q.to != p.m.origin;
            multiset(after)[q] ==
            multiset(net.flight)[q] - (if q == p then 1 else 0) + (if forwarded then multiset(peers)[q.to] else 0)
  {
    hide Packets, Accepts, Without, Received, ForwardsTo;
    var p, n := net.flight[i], NodeAt(net, net.flight[i].to);
    var to := ForwardsTo(n, p.from, p.m, peers);
    var rest, sent := Without(net.flight, i), Packets(to, p.to, p.m.(ttl := p.m.ttl + 1));
    assert Step(net, Deliver(i, peers)).flight == rest + sent;
    hide Step;
    WithoutCount(net.flight, i, q);
    PacketCount(to, p.to, p.m.(ttl := p.m.ttl + 1), q);
    ForwardCount(n, p.from, p.m, peers, q.to);
    assert multiset(rest + sent) == multiset(rest) + multiset(sent);
  }

  lemma {:induction false} FewTargets(peers: seq<Key>, from: Key, m: Message)
    ensures |Targets(peers, from, m)| <= |peers|
  {
    if peers != [] { FewTargets(peers[..|peers| - 1], from, m); }
  }

  lemma MulStep(n: nat, w: nat)
    requires n > 0
    ensures (n - 1) * w + w == n * w
  {
  }

  /** What a delivered packet sets off weighs less than the packet itself. */
  lemma ForwardsWeighLess(degree: nat, n: Node, p: Packet, peers: seq<Key>)
    requires |peers| <= degree
    ensures var to := ForwardsTo(n, p.from, p.m, peers);
            Total(degree, Packets(to, p.to, p.m.(ttl := p.m.ttl + 1))) < Weight(degree, p.m.ttl)
  {
    var to := ForwardsTo(n, p.from, p.m, peers);
    FewTargets(peers, p.from, p.m);
    hide Targets, Accepts;
    TotalPackets(degree, to, p.to, p.m.(ttl := p.m.ttl + 1));
    hide Packets, Total;
    MulOrder(|to|, degree, Weight(degree, p.m.ttl + 1));
    if p.m.ttl >= MAX_META_TTL { assert to == []; }
  }

  /** Every delivery or loss strictly decreases the weight of the messages in flight. */
  lemma StepDecreases(degree: nat, net: Net, e: Event)
    requires Enabled(net, e, degree)
    ensures Total(degree, Step(net, e).flight) < Total(degree, net.flight)
  {
    hide Total, Packets, ForwardsTo, Received;
    TotalWithout(degree, net.flight, e.i);
    var p := net.flight[e.i];
    match e {
      case Lose(_) => assert Weight(degree, p.m.ttl) >= 1;
      case Deliver(_, peers) =>
        var to := ForwardsTo(NodeAt(net, p.to), p.from, p.m, peers);
        ForwardsWeighLess(degree, NodeAt(net, p.to), p, peers);
        TotalAppend(degree, Without(net.flight, e.i), Packets(to, p.to, p.m.(ttl := p.m.ttl + 1)));
    }
  }

  ghost predicate Feasible(degree: nat, net: Net, evs: seq<Event>)
    decreases |evs|
  {
    evs == [] || (Enabled(net, evs[0], degree) && Feasible(degree, Step(net, evs[0]), evs[1..]))
  }

  /** No flood outlives the weight it starts with, whatever is delivered in whatever order. */
  lemma {:induction false} FloodDiesOut(degree: nat, net: Net, evs: seq<Event>)
    requires Feasible(degree, net, evs)
    ensures |evs| <= Total(degree, net.flight)
    decreases |evs|
  {
    if evs != [] {
      StepDecreases(degree, net, evs[0]);
      FloodDiesOut(degree, Step(net, evs[0]), evs[1..]);
    }
  }

  /** One broadcast to at most `d` session peers causes at most d + d^2 + d^3 + d^4 + d^5 deliveries. */
  lemma BroadcastBound(d: nat, nodes: map<Key, Node>, peers: seq<Key>, self: Key, m: Message, evs: seq<Event>)
    requires |peers| <= d && m.ttl == 0 && Feasible(d, Net(nodes, Packets(peers, self, m)), evs)
    ensures |evs| <= d * (1 + d * (1 + d * (1 + d * (1 + d))))
  {
    FloodDiesOut(d, Net(nodes, Packets(peers, self, m)), evs);
    TotalPackets(d, peers, self, m);
    assert Weight(d, 4) == 1;
    assert Weight(d, 3) == 1 + d;
    assert Weight(d, 2) == 1 + d * (1 + d);
    assert Weight(d, 1) == 1 + d * (1 + d * (1 + d));
    assert Weight(d, 0) == 1 + d * (1 + d * (1 + d * (1 + d)));
    MulOrder(|peers|, d, Weight(d, 0));
  }

  // ----- One node's view of a run -----

  /** The node after the arrivals, oldest first. */
  function After(n: Node, arrivals: seq<(Key, Message)>): Node {
    if arrivals == [] then n
    else
      var k := |arrivals| - 1;
      Received(After(n, arrivals[..k]), arrivals[k].0, arrivals[k].1)
  }

  /** Arrival `i` was applied. */
  predicate AppliedAt(n: Node, arrivals: seq<(Key, Message)>, i: nat)
    requires i < |arrivals|
  {
    Accepts(After(n, arrivals[..i]), arrivals[i].0, arrivals[i].1)
  }

  /** No arrival from `i` up to but not including `j` made the dedup cache overflow. */
  ghost predicate NoReset(n: Node, arrivals: seq<(Key, Message)>, i: nat, j: nat) {
    forall k :: i <= k < j < |arrivals| && AppliedAt(n, arrivals, k) ==>
      |After(n, arrivals[..k]).seen[DedupKey(arrivals[k].1) := arrivals[k].1.seqNo]| <= MAX_SEEN
  }

  lemma ReceivedKeepsSeen(n: Node, from: Key, m: Message, d: seq<byte>)
    requires Accepts(n, from, m) ==> |n.seen[DedupKey(m) := m.seqNo]| <= MAX_SEEN
    ensures d in n.seen && d != DedupKey(m) ==>
              d in Received(n, from, m).seen && Received(n, from, m).seen[d] == n.seen[d]
    ensures d in n.seen && d == DedupKey(m) ==>
              d in Received(n, from, m).seen && Received(n, from, m).seen[d] >= n.seen[d]
    ensures Accepts(n, from, m) ==>
              DedupKey(m) in Received(n, from, m).seen && Received(n, from, m).seen[DedupKey(m)] == m.seqNo
  {
  }

  lemma AfterStep(n: Node, arrivals: seq<(Key, Message)>, k: nat)
    requires k < |arrivals|
    ensures After(n, arrivals[..k + 1]) == Received(After(n, arrivals[..k]), arrivals[k].0, arrivals[k].1)
  {
    assert arrivals[..k + 1][..k] == arrivals[..k];
  }

  lemma {:induction false} SeenStays(n: Node, arrivals: seq<(Key, Message)>, i: nat, j: nat)
    requires i < j < |arrivals| && AppliedAt(n, arrivals, i) && NoReset(n, arrivals, i, j)
    ensures var d, s := DedupKey(arrivals[i].1), After(n, arrivals[..j]).seen;
            d in s && s[d] >= arrivals[i].1.seqNo
    decreases j
  {
    hide After, Received, DedupKey;
    var k := j - 1;
    AfterStep(n, arrivals, k);
    if i < k {
      SeenStays(n, arrivals, i, k);
    }
    var before, m := After(n, arrivals[..k]), arrivals[k].1;
    assert AppliedAt(n, arrivals, k) ==> |before.seen[DedupKey(m) := m.seqNo]| <= MAX_SEEN;
    ReceivedKeepsSeen(before, arrivals[k].0, m, DedupKey(arrivals[i].1));
  }

  /** Between resets of the dedup cache a node applies, and so forwards, a given message at most once. */
  lemma AppliedOnce(n: Node, arrivals: seq<(Key, Message)>, i: nat, j: nat)
    requires i < j < |arrivals| && NoReset(n, arrivals, i, j)
    requires AppliedAt(n, arrivals, i) && AppliedAt(n, arrivals, j)
    ensures arrivals[i].1.origin != arrivals[j].1.origin || arrivals[i].1.seqNo != arrivals[j].1.seqNo
  {
    SeenStays(n, arrivals, i, j);
  }

  /** Nothing but an earlier application of the very same message makes one count as a duplicate. */
  lemma {:induction false} DuplicateMeansApplied(n: Node, arrivals: seq<(Key, Message)>, m: Message) returns (i: nat)
    requires n.seen == map[] && m.seqNo < TWO64 && Duplicate(After(n, arrivals), m)
    requires forall k :: 0 <= k < |arrivals| ==> arrivals[k].1.seqNo < TWO64
    ensures i < |arrivals| && AppliedAt(n, arrivals, i)
    ensures arrivals[i].1.origin == m.origin && arrivals[i].1.seqNo == m.seqNo
  {
    i := SeenMeansApplied(n, arrivals, DedupKey(m));
    DedupInjective(arrivals[i].1, m);
  }

  lemma {:induction false} SeenMeansApplied(n: Node, arrivals: seq<(Key, Message)>, d: seq<byte>) returns (i: nat)
    requires n.seen == map[] && d in After(n, arrivals).seen
    ensures i < |arrivals| && AppliedAt(n, arrivals, i) && DedupKey(arrivals[i].1) == d
    decreases |arrivals|
  {
    var k := |arrivals| - 1;
    if d in After(n, arrivals[..k]).seen {
      i := SeenMeansApplied(n, arrivals[..k], d);
      assert arrivals[..k][..i] == arrivals[..i];
    } else {
      i := k;
    }
  }

  // ----- How large the caches get -----

  /** How many arrivals there have been since a message was last applied. */
  function SinceApplied(n: Node, arrivals: seq<(Key, Message)>): nat {
    if arrivals == [] then 0
    else
      var k := |arrivals| - 1;
      if AppliedAt(n, arrivals, k) then 0 else SinceApplied(n, arrivals[..k]) + 1
  }

  lemma ReceivedSizes(n: Node, from: Key, m: Message)
    ensures Accepts(n, from, m) ==>
              |Received(n, from, m).seen| <= MAX_SEEN && |Received(n, from, m).peerSeq| <= MAX_PEER_SEQ
    ensures !Accepts(n, from, m) ==>
              Received(n, from, m).seen == n.seen && |Received(n, from, m).peerSeq| <= |n.peerSeq| + 1
  {
  }

  /** The dedup cache never exceeds its bound. The sequence cache is only bounded when a message is
      applied: it can exceed its bound by as many entries as duplicates arrived since. */
  lemma {:induction false} CachesBounded(n: Node, arrivals: seq<(Key, Message)>)
    requires |n.seen| <= MAX_SEEN && |n.peerSeq| <= MAX_PEER_SEQ
    ensures |After(n, arrivals).seen| <= 4096
    ensures |After(n, arrivals).peerSeq| <= 512 + SinceApplied(n, arrivals)
    decreases |arrivals|
  {
    hide Received, Accepts;
    if arrivals != [] {
      var k := |arrivals| - 1;
      CachesBounded(n, arrivals[..k]);
      ReceivedSizes(After(n, arrivals[..k]), arrivals[k].0, arrivals[k].1);
    }
  }

  /** One arrival keeps the sequence cache within its bound if and only if it is not a duplicate from a
      new neighbour at a full cache. */
  lemma PeerSeqKeptIff(n: Node, from: Key, m: Message)
    requires |n.peerSeq| <= 512
    ensures |Received(n, from, m).peerSeq| <= 512 <==>
              !(m.isMeta && Duplicate(n, m) && from !in n.peerSeq && |n.peerSeq| == 512)
  {
  }

  /** The same message from `n` neighbours. */
  function Echoes(m: Message, n: nat): seq<(Key, Message)> {
    if n == 0 then [] else Echoes(m, n - 1) + [(Encode(n - 1, 2), m)]
  }

  lemma {:induction false} EchoesFill(m: Message, n: nat)
    requires m.isMeta && n <= MAX_PEER_SEQ + 1
    ensures var s := After(Node(map[], map[]), Echoes(m, n));
            && |s.peerSeq| == n && (forall k :: k in s.peerSeq ==> Value(k) < n)
            && s.seen == if n == 0 then map[] else map[DedupKey(m) := m.seqNo]
    decreases n
  {
    hide Encode, Value, DedupKey, Received;
    if n > 0 {
      hide After, Echoes;
      EchoesFill(m, n - 1);
      EchoesAfter(m, n);
      EchoKey(n - 1);
      EchoStep(After(Node(map[], map[]), Echoes(m, n - 1)), Encode(n - 1, 2), m);
    }
  }

  lemma EchoesAfter(m: Message, n: nat)
    requires n > 0
    ensures var empty := Node(map[], map[]);
            After(empty, Echoes(m, n)) == Received(After(empty, Echoes(m, n - 1)), Encode(n - 1, 2), m)
  {
    var es := Echoes(m, n);
    assert es[..|es| - 1] == Echoes(m, n - 1);
    hide Received;
  }

  lemma EchoKey(n: nat)
    requires n <= MAX_PEER_SEQ
    ensures Value(Encode(n, 2)) == n
  {
    EncodeValue(n, 2);
  }

  lemma EchoStep(s: Node, k: Key, m: Message)
    requires m.isMeta && k !in s.peerSeq
    requires if s.peerSeq == map[] then s.seen == map[] else s.seen == map[DedupKey(m) := m.seqNo]
    ensures Received(s, k, m) == Node(s.peerSeq[k := m.seqNo], map[DedupKey(m) := m.seqNo])
  {
    hide DedupKey;
  }

  /** The sequence cache does outgrow its bound: one message echoed by 513 neighbours. */
  lemma PeerSeqCanOverflow(m: Message)
    requires m.isMeta
    ensures |After(Node(map[], map[]), Echoes(m, MAX_PEER_SEQ + 1)).peerSeq| > MAX_PEER_SEQ
  {
    EchoesFill(m, MAX_PEER_SEQ + 1);
  }
}
