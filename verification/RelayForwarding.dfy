/** Multi-hop relaying towards one target: a relay with no session to it forwards the request to another
    relay. Sessions, cooldowns, candidate lists and answers are arbitrary, and may change at every step. */
module RelayForwarding {
  import opened Collections
  import opened Options

  type Key = string

  const MAX_RELAY_HOPS: nat := 2

  /** A relay request as it arrives: the relay, and the Path field it carries. */
  datatype Request = Request(relay: Key, path: seq<Key>)

  /** What the nodes meet at each moment; every candidate considered and every request handled is a moment.
      `last` is the relay that worked last, `allowed` the cooldown table's verdict, and `reached` says that
      the request gets to the relay. */
  datatype World = World(
    rejects: (nat, Request) -> bool,
    session: (nat, Key) -> bool,
    bridges: (nat, Key) -> bool,
    guided: nat -> seq<Key>,
    last: (nat, Key) -> Option<Key>,
    candidates: (nat, Key) -> seq<Key>,
    allowed: (nat, Key, Key) -> bool,
    reached: (nat, Key, Key) -> bool)

  /** The relays that serve, if any, the requests sent, and the moment after. */
  datatype Outcome = Outcome(chain: Option<seq<Key>>, sent: seq<Request>, now: nat)

  // ----- What a dial does -----

  function Then(a: Outcome, b: Outcome): Outcome {
    Outcome(b.chain, a.sent + b.sent, b.now)
  }

  function Answer(w: World, now: nat, self: Key, path: seq<Key>): Outcome
    decreases MAX_RELAY_HOPS + 1 - |path|, 0, 0
  {
    var me := Request(self, path);
    if w.rejects(now, me) then Outcome(None, [me], now + 1)
    else if w.session(now, self) then Outcome(if w.bridges(now, self) then Some([self]) else None, [me], now + 1)
    else if |path| + 1 > MAX_RELAY_HOPS then Outcome(None, [me], now + 1)
    else
      var o := Fallback(w, now + 1, self, path + [self]);
      Outcome(if o.chain.Some? then Some([self] + o.chain.value) else None, [me] + o.sent, o.now)
  }

  function Guided(w: World, now: nat, self: Key, path: seq<Key>): Outcome
    requires |path| <= MAX_RELAY_HOPS
    decreases MAX_RELAY_HOPS + 1 - |path|, 3, 0
  {
    if path == [] then Via(w, now, self, w.guided(now), path) else Outcome(None, [], now)
  }

  function Reused(w: World, now: nat, self: Key, path: seq<Key>): Outcome
    requires |path| <= MAX_RELAY_HOPS
    decreases MAX_RELAY_HOPS + 1 - |path|, 3, 0
  {
    match w.last(now, self)
    case None => Outcome(None, [], now)
    case Some(last) => Via(w, now, self, [last], path)
  }

  /** The path-guided relays, the last working relay and the candidates, in this order. */
  function Fallback(w: World, now: nat, self: Key, path: seq<Key>): Outcome
    requires |path| <= MAX_RELAY_HOPS
    decreases MAX_RELAY_HOPS + 1 - |path|, 4, 0
  {
    var a := Guided(w, now, self, path);
    if a.chain.Some? then a
    else
      var b := Then(a, Reused(w, a.now, self, path));
      if b.chain.Some? then b else Then(b, Via(w, b.now, self, w.candidates(b.now, self), path))
  }

  /** The candidates one after the other, up to the first that serves. */
  function Via(w: World, now: nat, self: Key, candidates: seq<Key>, path: seq<Key>): Outcome
    requires |path| <= MAX_RELAY_HOPS
    decreases MAX_RELAY_HOPS + 1 - |path|, 2, |candidates|
  {
    if candidates == [] then Outcome(None, [], now)
    else
      var n := |candidates| - 1;
      var a := Via(w, now, self, candidates[..n], path);
      if a.chain.Some? then a else Then(a, Try(w, a.now, self, candidates[n], path))
  }

  function Try(w: World, now: nat, self: Key, relay: Key, path: seq<Key>): Outcome
    requires |path| <= MAX_RELAY_HOPS
    decreases MAX_RELAY_HOPS + 1 - |path|, 1, 0
  {
    if relay == self || relay in path || !w.allowed(now, self, relay) || !w.reached(now, self, relay)
    then Outcome(None, [], now + 1)
    else Answer(w, now, relay, path)
  }

  // ----- Loop-free routes -----

  /** The path is loop-free, short enough, and does not contain the relay it is sent to. */
  ghost predicate WellRouted(r: Request) {
    Distinct(r.path + [r.relay]) && |r.path| <= MAX_RELAY_HOPS
  }

  /** Every request sent below `path` extends it and is loop-free. */
  ghost predicate AllRouted(sent: seq<Request>, path: seq<Key>) {
    forall r :: r in sent ==> WellRouted(r) && path <= r.path
  }

  /** The relays of `chain` serve the dial one after another, each told exactly the relays before it. */
  ghost predicate Serves(chain: seq<Key>, path: seq<Key>, sent: seq<Request>) {
    && Distinct(path + chain) && |path + chain| <= MAX_RELAY_HOPS + 1
    && forall i :: 0 <= i < |chain| ==> Request(chain[i], path + chain[..i]) in sent
  }

  lemma RoutedBelow(sent: seq<Request>, path: seq<Key>, self: Key)
    requires AllRouted(sent, path + [self])
    ensures AllRouted(sent, path)
  {
    forall r | r in sent ensures path <= r.path {
      assert path + [self] <= r.path;
    }
  }

  lemma ServesFrom(chain: seq<Key>, path: seq<Key>, self: Key, sent: seq<Request>)
    requires Serves(chain, path + [self], sent)
    ensures Serves([self] + chain, path, [Request(self, path)] + sent)
  {
    var c, all := [self] + chain, [Request(self, path)] + sent;
    assert path + c == (path + [self]) + chain;
    forall i | 0 <= i < |c| ensures Request(c[i], path + c[..i]) in all {
      if i == 0 {
        assert path + c[..0] == path;
        assert all[0] == Request(self, path);
      } else {
        assert path + c[..i] == (path + [self]) + chain[..i - 1];
        assert Request(chain[i - 1], (path + [self]) + chain[..i - 1]) in sent;
      }
    }
  }

  /** A relay receives a request, with whatever path. It rejects, bridges to the target itself, or
      forwards. The recursion across the network ends because only short paths are extended. */
  method HandleRequest(w: World, now: nat, self: Key, path: seq<Key>) returns (o: Outcome)
    ensures o == Answer(w, now, self, path)
    ensures Request(self, path) in o.sent && (o.chain.Some? ==> o.chain.value != [] && o.chain.value[0] == self)
    ensures WellRouted(Request(self, path)) ==>
              AllRouted(o.sent, path) && (o.chain.Some? ==> Serves(o.chain.value, path, o.sent))
    decreases MAX_RELAY_HOPS + 1 - |path|, 0
  {
    var me := Request(self, path);
    if w.rejects(now, me) {
      return Outcome(None, [me], now + 1);
    }
    if w.session(now, self) {
      var chain := [self];
      assert path + chain[..0] == path;
      return Outcome(if w.bridges(now, self) then Some(chain) else None, [me], now + 1);
    }
    var path' := path + [self];
    if |path'| > MAX_RELAY_HOPS {
      return Outcome(None, [me], now + 1);
    }

    var next := TryRelayFallback(w, now + 1, self, path');
    if Distinct(path') {
      RoutedBelow(next.sent, path, self);
      if next.chain.Some? { ServesFrom(next.chain.value, path, self, next.sent); }
    }
    o := Outcome(if next.chain.Some? then Some([self] + next.chain.value) else None, [me] + next.sent, next.now);
  }

  /** `path` is empty only at the initiator. */
  method TryRelayFallback(w: World, now: nat, self: Key, path: seq<Key>) returns (o: Outcome)
    requires |path| <= MAX_RELAY_HOPS
    ensures o == Fallback(w, now, self, path)
    ensures o.chain.Some? ==> o.chain.value != [] && o.chain.value[0] != self
    ensures Distinct(path) ==> AllRouted(o.sent, path) && (o.chain.Some? ==> Serves(o.chain.value, path, o.sent))
    decreases MAX_RELAY_HOPS + 1 - |path|, 2
  {
    o := Outcome(None, [], now);
    if path == [] {
      o := DialViaRelay(w, now, self, w.guided(now), path);
      if o.chain.Some? {
        return;
      }
    }

    var last := w.last(o.now, self);
    if last.Some? {
      var next := DialViaRelay(w, o.now, self, [last.value], path);
      if next.chain.Some? && Distinct(path) { ServesMore(next.chain.value, path, next.sent, o.sent + next.sent); }
      o := Then(o, next);
      if o.chain.Some? {
        return;
      }
    } else {
      assert Then(o, Outcome(None, [], o.now)) == o;
    }
    var next := DialViaRelay(w, o.now, self, w.candidates(o.now, self), path);
    if next.chain.Some? && Distinct(path) { ServesMore(next.chain.value, path, next.sent, o.sent + next.sent); }
    o := Then(o, next);
  }

  lemma ServesMore(chain: seq<Key>, path: seq<Key>, some: seq<Request>, all: seq<Request>)
    requires Serves(chain, path, some) && forall r :: r in some ==> r in all
    ensures Serves(chain, path, all)
  {
  }

  /** Tries the candidates in order, skipping this node, relays already on the path and paths on cooldown. */
  method DialViaRelay(w: World, now: nat, self: Key, candidates: seq<Key>, path: seq<Key>) returns (o: Outcome)
    requires |path| <= MAX_RELAY_HOPS
    ensures o == Via(w, now, self, candidates, path)
    ensures o.chain.Some? ==>
              var chain := o.chain.value;
              chain != [] && chain[0] in candidates && chain[0] != self && chain[0] !in path
    ensures Distinct(path) ==> AllRouted(o.sent, path) && (o.chain.Some? ==> Serves(o.chain.value, path, o.sent))
    decreases MAX_RELAY_HOPS + 1 - |path|, 1
  {
    o := Outcome(None, [], now);
    for i := 0 to |candidates|
      invariant o.chain.None? && o == Via(w, now, self, candidates[..i], path)
      invariant Distinct(path) ==> AllRouted(o.sent, path)
    {
      var relay := candidates[i];
      assert candidates[..i + 1][..i] == candidates[..i];
      var next := Outcome(None, [], o.now + 1);
      if relay != self && relay !in path && w.allowed(o.now, self, relay) && w.reached(o.now, self, relay) {
        next := HandleRequest(w, o.now, relay, path);
        if next.chain.Some? && Distinct(path) { ServesMore(next.chain.value, path, next.sent, o.sent + next.sent); }
      }
      o := Then(o, next);
      if o.chain.Some? {
        ViaStops(w, now, self, candidates, path, i + 1);
        return;
      }
    }
    assert candidates[..|candidates|] == candidates;
  }

  /** A candidate that serves ends the search. */
  lemma {:induction false} ViaStops(w: World, now: nat, self: Key, candidates: seq<Key>, path: seq<Key>, n: nat)
    requires |path| <= MAX_RELAY_HOPS && n <= |candidates| && Via(w, now, self, candidates[..n], path).chain.Some?
    ensures Via(w, now, self, candidates, path) == Via(w, now, self, candidates[..n], path)
    decreases |candidates|
  {
    if n == |candidates| {
      assert candidates[..n] == candidates;
    } else {
      var k := |candidates| - 1;
      assert candidates[..k][..n] == candidates[..n];
      ViaStops(w, now, self, candidates[..k], path, n);
    }
  }

  lemma ServesAlone(chain: seq<Key>, sent: seq<Request>)
    requires Serves(chain, [], sent)
    ensures Distinct(chain) && |chain| <= MAX_RELAY_HOPS + 1
    ensures forall i :: 0 <= i < |chain| ==> Request(chain[i], chain[..i]) in sent
  {
    assert [] + chain == chain;
    hide Distinct;
    forall i | 0 <= i < |chain| ensures Request(chain[i], chain[..i]) in sent {
      assert [] + chain[..i] == chain[..i];
    }
  }

  /** A whole dial: the relays that end up serving it are at most three, pairwise distinct, and
      the Path each of them received is exactly the relays before it. */
  method DialTarget(w: World, initiator: Key) returns (o: Outcome)
    ensures o == Fallback(w, 0, initiator, [])
    ensures forall r :: r in o.sent ==> WellRouted(r)
    ensures o.chain.Some? ==>
              var chain := o.chain.value;
              && 1 <= |chain| <= 3 && Distinct(chain) && chain[0] != initiator
              && forall i :: 0 <= i < |chain| ==> Request(chain[i], chain[..i]) in o.sent
  {
    var none: seq<Key> := [];
    assert Distinct(none);
    o := TryRelayFallback(w, 0, initiator, none);
    if o.chain.Some? { ServesAlone(o.chain.value, o.sent); }
    hide Distinct, Serves;
  }

  // ----- When a dial succeeds -----

  /** Candidate `i` comes to be tried at this moment: it is not the dialler, not on the path, allowed and
      reached, and it serves the request. */
  ghost predicate ServesAt(w: World, now: nat, self: Key, relay: Key, path: seq<Key>, chain: seq<Key>) {
    && relay != self && relay !in path && w.allowed(now, self, relay) && w.reached(now, self, relay)
    && Answer(w, now, relay, path).chain == Some(chain)
  }

  /** The candidates before the `i`-th are tried in vain, and then the `i`-th serves. */
  ghost predicate DecidedBy(w: World, now: nat, self: Key, candidates: seq<Key>, path: seq<Key>,
                            chain: seq<Key>, i: nat)
    requires |path| <= MAX_RELAY_HOPS
  {
    i < |candidates| &&
    var before := Via(w, now, self, candidates[..i], path);
    before.chain.None? && ServesAt(w, before.now, self, candidates[i], path, chain)
  }

  lemma DecidedPrefix(w: World, now: nat, self: Key, candidates: seq<Key>, path: seq<Key>,
                      chain: seq<Key>, n: nat, i: nat)
    requires |path| <= MAX_RELAY_HOPS && i < n <= |candidates|
    ensures DecidedBy(w, now, self, candidates[..n], path, chain, i) <==>
            DecidedBy(w, now, self, candidates, path, chain, i)
  {
    assert candidates[..n][..i] == candidates[..i] && candidates[..n][i] == candidates[i];
  }

  /** The first candidate that serves decides: a chain is found if and only if it is that of the first
      candidate that serves when its turn comes. */
  lemma {:induction false} FirstServes(w: World, now: nat, self: Key, candidates: seq<Key>, path: seq<Key>,
                                       chain: seq<Key>)
    requires |path| <= MAX_RELAY_HOPS
    ensures Via(w, now, self, candidates, path).chain == Some(chain) <==>
            exists i: nat :: DecidedBy(w, now, self, candidates, path, chain, i)
    decreases |candidates|
  {
    hide Answer;
    if candidates != [] {
      var n := |candidates| - 1;
      var before := Via(w, now, self, candidates[..n], path);
      FirstServes(w, now, self, candidates[..n], path, chain);
      if i: nat :| DecidedBy(w, now, self, candidates[..n], path, chain, i) {
        DecidedPrefix(w, now, self, candidates, path, chain, n, i);
      }
      if i: nat :| DecidedBy(w, now, self, candidates, path, chain, i) {
        if i < n { DecidedPrefix(w, now, self, candidates, path, chain, n, i); }
      }
      if before.chain.None? {
        assert DecidedBy(w, now, self, candidates, path, chain, n) <==>
               ServesAt(w, before.now, self, candidates[n], path, chain);
      }
    }
  }

  /** A guided relay that serves is preferred to all others, and then the last working relay to the candidates. */
  lemma StagesInOrder(w: World, now: nat, self: Key, path: seq<Key>)
    requires |path| <= MAX_RELAY_HOPS
    ensures var guided := Via(w, now, self, w.guided(now), path);
            path == [] && guided.chain.Some? ==> Fallback(w, now, self, path).chain == guided.chain
    ensures forall chain, last ::
              && path != [] && w.last(now, self) == Some(last) && ServesAt(w, now, self, last, path, chain)
              ==> Fallback(w, now, self, path).chain == Some(chain)
  {
    hide Answer;
    var last := w.last(now, self);
    if last.Some? {
      var one, none: seq<Key> := [last.value], [];
      assert one[..0] == none && Via(w, now, self, none, path) == Outcome(None, [], now);
      assert Via(w, now, self, one, path).chain == Try(w, now, self, last.value, path).chain;
    }
  }

  /** At every moment, `chain` is a loop-free route of at most three relays from `self`: each is a candidate of
      the one before, allowed, reached and not rejecting; the last one bridges to the target, and no other has
      a session with it. */
  ghost predicate Route(w: World, self: Key, path: seq<Key>, chain: seq<Key>)
    decreases |chain|
  {
    && chain != [] && |path| + |chain| <= 3
    && var r := chain[0];
       && r != self && r !in path
       && (forall t: nat :: r in w.candidates(t, self) && w.allowed(t, self, r) && w.reached(t, self, r) &&
                       !w.rejects(t, Request(r, path)))
       && (if |chain| == 1 then forall t: nat :: w.session(t, r) && w.bridges(t, r)
           else (forall t: nat :: !w.session(t, r)) && Route(w, r, path + [r], chain[1..]))
  }

  lemma {:induction false} ViaFinds(w: World, now: nat, self: Key, candidates: seq<Key>, path: seq<Key>, r: Key)
    requires |path| <= MAX_RELAY_HOPS && r in candidates
    requires forall t: nat :: Try(w, t, self, r, path).chain.Some?
    ensures Via(w, now, self, candidates, path).chain.Some?
    decreases |candidates|
  {
    hide Try;
    var n := |candidates| - 1;
    if candidates[n] != r {
      assert candidates == candidates[..n] + [candidates[n]];
      ViaFinds(w, now, self, candidates[..n], path, r);
    }
  }

  /** Whenever such a route exists the dial succeeds, by this route or another. */
  lemma {:induction false} RouteFound(w: World, now: nat, self: Key, path: seq<Key>, chain: seq<Key>)
    requires Route(w, self, path, chain)
    ensures |path| <= MAX_RELAY_HOPS && Fallback(w, now, self, path).chain.Some?
    decreases |chain|
  {
    var r := chain[0];
    forall t: nat ensures Try(w, t, self, r, path).chain.Some? {
      if |chain| > 1 { RouteFound(w, t + 1, r, path + [r], chain[1..]); }
    }
    hide Try, Via, Route;
    var a := Guided(w, now, self, path);
    var b := Then(a, Reused(w, a.now, self, path));
    ViaFinds(w, b.now, self, w.candidates(b.now, self), path, r);
  }
}
