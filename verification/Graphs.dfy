/** The latency graph as a value: measured RTT edges between peers, the walks
    they allow and the total RTT of a walk. */
module Graphs {

  type Key = string

  datatype RttEntry = RttEntry(rtt: int, timestamp: int, zone: string)

  /** Source key, then target key, then the measurement. */
  type Entries = map<Key, map<Key, RttEntry>>

  predicate HasEdge(g: Entries, u: Key, v: Key) {
    u in g && v in g[u]
  }

  function Rtt(g: Entries, u: Key, v: Key): int
    requires HasEdge(g, u, v)
  {
    g[u][v].rtt
  }

  ghost predicate NonNegative(g: Entries) {
    forall u, v :: HasEdge(g, u, v) ==> 0 <= Rtt(g, u, v)
  }

  ghost predicate Positive(g: Entries) {
    forall u, v :: HasEdge(g, u, v) ==> 0 < Rtt(g, u, v)
  }

  /** Every key that is the source or the target of some stored edge. */
  ghost function Nodes(g: Entries): set<Key> {
    g.Keys + set u, v | u in g && v in g[u] :: v
  }

  predicate EdgeAt(g: Entries, w: seq<Key>, i: nat)
    requires i + 1 < |w|
  {
    HasEdge(g, w[i], w[i + 1])
  }

  ghost predicate IsWalk(g: Entries, w: seq<Key>) {
    && |w| > 0
    && forall i :: 0 <= i < |w| - 1 ==> EdgeAt(g, w, i)
  }

  ghost predicate WalkBetween(g: Entries, w: seq<Key>, s: Key, t: Key) {
    IsWalk(g, w) && w[0] == s && w[|w| - 1] == t
  }

  lemma WalkPrefix(g: Entries, w: seq<Key>, n: nat)
    requires IsWalk(g, w) && 0 < n <= |w|
    ensures IsWalk(g, w[..n])
  {
    forall i | 0 <= i < n - 1 ensures EdgeAt(g, w[..n], i) {
      assert EdgeAt(g, w, i);
    }
  }

  ghost function Cost(g: Entries, w: seq<Key>): int
    requires IsWalk(g, w)
    decreases |w|
  {
    if |w| == 1 then 0
    else
      WalkPrefix(g, w, |w| - 1); assert EdgeAt(g, w, |w| - 2);
      Cost(g, w[..|w| - 1]) + Rtt(g, w[|w| - 2], w[|w| - 1])
  }

  lemma WalkExtend(g: Entries, w: seq<Key>, v: Key)
    requires IsWalk(g, w) && HasEdge(g, w[|w| - 1], v)
    ensures IsWalk(g, w + [v])
    ensures Cost(g, w + [v]) == Cost(g, w) + Rtt(g, w[|w| - 1], v)
  {
    var w' := w + [v];
    forall i | 0 <= i < |w'| - 1 ensures EdgeAt(g, w', i) {
      if i < |w| - 1 { assert EdgeAt(g, w, i); }
    }
    assert w'[..|w|] == w;
  }

  /** Two walks that meet can be joined, and their costs add up. */
  lemma {:induction false} JoinWalks(g: Entries, a: seq<Key>, b: seq<Key>)
    requires IsWalk(g, a) && IsWalk(g, b) && a[|a| - 1] == b[0]
    ensures IsWalk(g, a + b[1..])
    ensures Cost(g, a + b[1..]) == Cost(g, a) + Cost(g, b)
    decreases |b|
  {
    var j := a + b[1..];
    if |b| == 1 {
      assert j == a;
    } else {
      var b' := b[..|b| - 1];
      WalkPrefix(g, b, |b| - 1);
      assert EdgeAt(g, b, |b| - 2);
      JoinWalks(g, a, b');
      var j' := a + b'[1..];
      var v := b[|b| - 1];
      assert j == j' + [v];
      assert j'[|j'| - 1] == b'[|b'| - 1] by {
        if |b'| == 1 { assert j' == a; }
      }
      WalkExtend(g, j', v);
    }
  }

  lemma WalkSuffix(g: Entries, w: seq<Key>, i: nat)
    requires IsWalk(g, w) && i < |w|
    ensures IsWalk(g, w[i..])
  {
    var b := w[i..];
    forall k | 0 <= k < |b| - 1 ensures EdgeAt(g, b, k) {
      assert EdgeAt(g, w, i + k);
    }
  }

  /** Cutting a walk at one of its nodes splits its cost. */
  lemma {:induction false} SplitWalk(g: Entries, w: seq<Key>, i: nat)
    requires IsWalk(g, w) && i < |w|
    ensures IsWalk(g, w[..i + 1]) && IsWalk(g, w[i..])
    ensures Cost(g, w) == Cost(g, w[..i + 1]) + Cost(g, w[i..])
  {
    WalkSuffix(g, w, i);
    WalkPrefix(g, w, i + 1);
    JoinWalks(g, w[..i + 1], w[i..]);
    assert w[..i + 1] + w[i..][1..] == w;
  }
}
