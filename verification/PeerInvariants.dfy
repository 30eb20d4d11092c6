/** What every event of the management loop keeps, under every interleaving. */
module PeerInvariants {
  import opened Options
  import opened PeerState

  ghost predicate NamesOk(names: seq<Name>, ts: map<Name, Transport>) {
    names != [] && "" !in names && forall n :: n in names <==> n in ts
  }

  ghost predicate DialsOk(started: seq<Dial>, pending: set<nat>, gen: nat, ts: map<Name, Transport>) {
    && (forall i :: i in pending ==> i < |started|)
    && (forall i :: 0 <= i < |started| ==> started[i].gen <= gen && started[i].name in ts)
  }

  ghost predicate WellFormed(p: Peer) {
    NamesOk(p.names, p.transports) && DialsOk(p.started, p.pending, p.gen, p.transports)
  }

  /** Connected exactly when there is a current transport; it holds a connection and no other does. */
  ghost predicate OneConnection(p: Peer) {
    && (p.phase == Connected <==> p.current != "")
    && (p.current != "" ==> p.current in p.transports && p.transports[p.current].conn.Some?)
    && (forall n :: n in p.transports && n != p.current ==> p.transports[n].conn.None?)
  }

  ghost predicate Inv(p: Peer) {
    WellFormed(p) && OneConnection(p)
  }

  // ----- Candidate selection -----

  /** Candidates are exactly the configured transports that are neither quarantined nor failed. */
  lemma {:induction false} CandidatesExact(names: seq<Name>, ts: map<Name, Transport>, n: Name)
    ensures n in Candidates(names, ts) <==>
            n in names && (n !in ts || (ts[n].sub != Quarantined && ts[n].sub != Failed))
    decreases |names|
  {
    if names != [] {
      CandidatesExact(names[..|names| - 1], ts, n);
      assert names == names[..|names| - 1] + [names[|names| - 1]];
    }
  }

  /** When every transport is known, the escape picks the longest-quarantined one. */
  lemma {:induction false} EscapeIsOldest(names: seq<Name>, ts: map<Name, Transport>, best: Option<Name>)
    requires forall n :: n in names ==> n in ts
    requires best.Some? ==> best.value in ts && ts[best.value].sub == Quarantined
    ensures var e := EscapeScan(names, ts, best);
            && (e.Some? ==> e.value in ts && ts[e.value].sub == Quarantined && (e == best || e.value in names))
            && (e.None? <==> best.None? && forall n :: n in names ==> ts[n].sub != Quarantined)
            && (e.Some? && best.Some? ==> ts[e.value].quarantinedAt <= ts[best.value].quarantinedAt)
            && (e.Some? ==>
                  forall n :: n in names && ts[n].sub == Quarantined ==>
                    ts[e.value].quarantinedAt <= ts[n].quarantinedAt)
    decreases |names|
  {
    if names != [] {
      var t := ts[names[0]];
      var better := t.sub == Quarantined && (best.None? || t.quarantinedAt < ts[best.value].quarantinedAt);
      var next := if better then Some(names[0]) else best;
      EscapeIsOldest(names[1..], ts, next);
      assert names == [names[0]] + names[1..];
    }
  }

  /** A cycle starts with an available transport, else with a quarantined one, and starts
      nothing exactly when every transport is failed. */
  lemma PrimaryChoice(names: seq<Name>, ts: map<Name, Transport>)
    requires forall n :: n in names ==> n in ts
    ensures var c := Primary(names, ts);
            && (c.Some? ==> c.value.0 in names && ts[c.value.0].sub != Failed)
            && (c.None? <==> forall n :: n in names ==> ts[n].sub == Failed)
  {
    var cs := Candidates(names, ts);
    forall n ensures n in cs <==> n in names && Available(ts, n) {
      CandidatesExact(names, ts, n);
    }
    EscapeIsOldest(names, ts, None);
    if cs != [] { assert cs[0] in cs; }
    else {
      forall n | n in names ensures ts[n].sub == Quarantined || ts[n].sub == Failed {
        assert n !in cs;
      }
    }
  }

  lemma {:induction false} FirstIdleChoice(cs: seq<Name>, inFlight: set<Name>)
    ensures var f := FirstIdle(cs, inFlight); f.Some? ==> f.value in cs && f.value !in inFlight
    decreases |cs|
  {
    if cs != [] && cs[0] in inFlight { FirstIdleChoice(cs[1..], inFlight); }
  }

  // ----- Dialling keeps the invariant -----

  lemma StartDialKeeps(p: Peer, name: Name)
    requires Inv(p) && name in p.transports
    ensures Inv(StartDial(p, name))
  {
    var q := StartDial(p, name);
    forall i | 0 <= i < |q.started| ensures q.started[i].gen <= q.gen && q.started[i].name in q.transports {
      if i < |p.started| { assert q.started[i] == p.started[i]; }
    }
  }

  /** A new cycle dials one transport that is not failed, under a new generation, or nothing. */
  lemma CycleChoice(p: Peer) returns (c: Option<Name>)
    requires NamesOk(p.names, p.transports)
    ensures c.None? ==> StartCycle(p) == CancelInFlight(p)
    ensures c.None? ==> forall n :: n in p.transports ==> p.transports[n].sub == Failed
    ensures c.Some? ==>
              && c.value in p.transports && p.transports[c.value].sub != Failed
              && StartCycle(p) ==
                 StartDial(CancelInFlight(p).(gen := p.gen + 1), c.value).(hedgeTimer := StartCycle(p).hedgeTimer)
  {
    PrimaryChoice(p.names, p.transports);
    hide Primary;
    var primary := Primary(p.names, p.transports);
    c := if primary.Some? then Some(primary.value.0) else None;
  }

  /** From `p` to `q` one transport that is not failed was dialled under a new generation, or none if all are failed. */
  ghost predicate DialsOne(p: Peer, q: Peer) {
    if forall n :: n in p.transports ==> p.transports[n].sub == Failed then q.started == p.started && q.gen == p.gen
    else exists n ::
      && n in p.transports && p.transports[n].sub != Failed
      && q.gen == p.gen + 1 && q.started == p.started + [Dial(q.gen, n)]
  }

  lemma StartCycleDials(p: Peer)
    ensures NamesOk(p.names, p.transports) ==> DialsOne(p, StartCycle(p))
  {
    if NamesOk(p.names, p.transports) {
      var c := CycleChoice(p);
      hide StartCycle;
    }
  }

  lemma StartCycleConns(p: Peer)
    ensures StartCycle(p).names == p.names && StartCycle(p).current == p.current
    ensures forall n :: n in p.transports ==>
              n in StartCycle(p).transports && StartCycle(p).transports[n].conn == p.transports[n].conn
  {
    hide Primary;
  }

  /** The hedge dials at most one available transport that is not being dialled, in the same generation. */
  ghost predicate DialsIdle(p: Peer, q: Peer) {
    && q.gen == p.gen
    && (q.started == p.started
        || exists n ::
             && n in p.names && Available(p.transports, n) && n !in p.inFlight
             && q.started == p.started + [Dial(q.gen, n)])
  }

  lemma StartFallbackDials(p: Peer)
    ensures DialsIdle(p, StartFallback(p))
  {
    var cs := Candidates(p.names, p.transports);
    FirstIdleChoice(cs, p.inFlight);
    var f := FirstIdle(cs, p.inFlight);
    if f.Some? { CandidatesExact(p.names, p.transports, f.value); }
  }

  lemma StartCycleKeeps(p: Peer)
    requires Inv(p) && p.phase != Disconnected
    ensures Inv(StartCycle(p)) && StartCycle(p).phase == p.phase && StartCycle(p).current == p.current
  {
    var c := CycleChoice(p);
    hide StartCycle, Primary;
    if c.Some? { StartDialKeeps(CancelInFlight(p).(gen := p.gen + 1), c.value); }
  }

  lemma StartFallbackKeeps(p: Peer)
    requires Inv(p)
    ensures Inv(StartFallback(p))
  {
    var cs := Candidates(p.names, p.transports);
    FirstIdleChoice(cs, p.inFlight);
    var f := FirstIdle(cs, p.inFlight);
    if f.Some? {
      CandidatesExact(p.names, p.transports, f.value);
      StartDialKeeps(p, f.value);
    }
  }

  lemma CheckExpiryKeeps(p: Peer, now: int)
    requires Inv(p)
    ensures Inv(CheckExpiry(p, now))
  {
    var q := p.(transports := map n | n in p.transports :: Recovered(p.transports[n], now));
    assert Inv(q);
    if p.phase == Connecting { StartCycleKeeps(q); }
  }

  // ----- Every event keeps the invariant -----

  lemma FailKeeps(cfg: Config, p: Peer, name: Name, now: int)
    requires Inv(p) && name in p.transports
    ensures Inv(Fail(cfg, p, name, now))
  {
    var q := p.(transports := p.transports[name := Punished(cfg, name, StateOf(p.transports, name), now)]);
    assert Inv(q);
    var r := q.(hedgeTimer := false);
    assert Inv(r);
    CheckExpiryKeeps(r, now);
  }

  lemma DialDoneKeeps(cfg: Config, p: Peer, now: int, i: nat, outcome: Option<Conn>)
    requires Inv(p) && i < |p.started|
    ensures Inv(DialDone(cfg, p, now, i, outcome))
  {
    var d := p.started[i];
    var r := p.(pending := p.pending - {i}, inFlight := p.inFlight - {d.name});
    assert Inv(p.(pending := p.pending - {i})) && Inv(r);
    if outcome.None? { FailKeeps(cfg, r, d.name, now); }
  }

  lemma {:induction false} WithoutExact(names: seq<Name>, target: Name, n: Name)
    ensures n in Without(names, target) <==> n in names && n != target
    decreases |names|
  {
    if names != [] {
      WithoutExact(names[..|names| - 1], target, n);
      assert names == names[..|names| - 1] + [names[|names| - 1]];
    }
  }

  lemma ReorderNames(names: seq<Name>, ts: map<Name, Transport>, target: Name)
    requires NamesOk(names, ts) && target in ts
    ensures NamesOk(Reorder(names, target), ts)
  {
    forall n ensures n in Reorder(names, target) <==> n in names {
      WithoutExact(names, target, n);
    }
  }

  lemma TriggerSwitchKeeps(p: Peer, target: Name)
    requires Inv(p) && target in p.transports
    ensures Inv(TriggerSwitch(p, target))
  {
    var q := p.(transports := Displaced(p.transports, p.current), names := Reorder(p.names, target),
                current := "", phase := Connecting);
    forall n ensures n in q.names <==> n in p.names {
      WithoutExact(p.names, target, n);
    }
    assert Inv(q);
    StartCycleKeeps(q);
  }

  lemma ProbeTickKeeps(p: Peer, now: int, os: map<Name, ProbeOutcome>, switchTo: Option<Name>)
    requires Inv(p) && (p.phase == Connected ==> MaySwitch(p, os, switchTo))
    ensures Inv(ProbeTick(p, now, os, switchTo))
  {
    if p.phase == Connecting {
      CheckExpiryKeeps(p, now);
      var q := CheckExpiry(p, now);
      CheckExpiryPhase(p, now);
      StartCycleKeeps(q);
    } else if p.phase == Connected {
      var q := p.(transports := ProbeAll(p.transports, os));
      assert Inv(q);
      if switchTo.Some? { TriggerSwitchKeeps(q, switchTo.value); }
    }
  }

  lemma CheckExpiryPhase(p: Peer, now: int)
    ensures p.phase != Disconnected ==> CheckExpiry(p, now).phase == p.phase
  {
  }

  lemma ReconnectKeeps(p: Peer)
    requires Inv(p)
    ensures Inv(Reconnect(p))
  {
    StartCycleKeeps(p.(transports := ResetAll(p.transports), current := "", inFlight := {},
                       hedgeTimer := false, retryTimer := false, phase := Connecting));
  }

  /** No connection, failure or quarantine is left, and a new generation is dialling. */
  ghost predicate StartsAfresh(p: Peer, q: Peer) {
    && q.gen == p.gen + 1 && |q.started| == |p.started| + 1
    && forall n :: n in q.transports ==>
         var t := q.transports[n];
         t.conn.None? && t.failures == 0 && t.quarantineN == 0 && (t.sub == Active || t.sub == Dialling)
  }

  lemma ReconnectFresh(p: Peer)
    ensures NamesOk(p.names, p.transports) ==> StartsAfresh(p, Reconnect(p))
  {
    if NamesOk(p.names, p.transports) {
      var q := p.(transports := ResetAll(p.transports), current := "", inFlight := {},
                  hedgeTimer := false, retryTimer := false, phase := Connecting);
      assert NamesOk(q.names, q.transports) && q.transports[q.names[0]].sub == Active;
      var c := CycleChoice(q);
      hide StartCycle;
    }
  }

  /** `name` is current, holds the connection and has a clean record; the transport it displaced holds none,
      no other transport has changed, and neither a dial nor a timer is left. */
  ghost predicate Promotes(was: Name, ts: map<Name, Transport>, q: Peer, name: Name, conn: Conn) {
    && q.phase == Connected && q.current == name && name in q.transports
    && q.transports[name].conn == Some(conn) && q.transports[name].sub == Active
    && q.transports[name].failures == 0 && q.transports[name].quarantineN == 0
    && (was != "" && was != name && was in ts ==> was in q.transports && q.transports[was].conn.None?)
    && (forall n :: n in ts && n != name && n != was ==> n in q.transports && q.transports[n] == ts[n])
    && q.inFlight == {} && !q.hedgeTimer && !q.retryTimer
  }

  lemma SucceedPromotes(p: Peer, name: Name, conn: Conn)
    ensures Promotes(p.current, p.transports, Succeed(p, name, conn), name, conn)
  {
  }

  /** Nothing is current any more, and the target is the first choice. */
  ghost predicate SwitchesTo(p: Peer, q: Peer, target: Name) {
    && q.current == "" && q.names != [] && q.names[0] == target
    && (p.current in p.transports ==> p.current in q.transports && q.transports[p.current].conn.None?)
  }

  lemma TriggerSwitches(p: Peer, target: Name)
    ensures SwitchesTo(p, TriggerSwitch(p, target), target)
  {
    var q := p.(transports := Displaced(p.transports, p.current), names := Reorder(p.names, target),
                current := "", phase := Connecting);
    assert p.current in p.transports ==> p.current in q.transports && q.transports[p.current].conn.None?;
    StartCycleConns(q);
    hide StartCycle, Displaced;
  }

  /** One connection at most, held by the current transport, whatever happens next. */
  lemma StepKeepsInv(cfg: Config, p: Peer, now: int, e: Event)
    requires Inv(p) && Enabled(p, e)
    ensures Inv(Step(cfg, p, now, e))
  {
    match e {
      case Dialled(i, outcome) => DialDoneKeeps(cfg, p, now, i, outcome);
      case Dropped(i) =>
      case HedgeFired => StartFallbackKeeps(p.(hedgeTimer := false));
      case RetryFired => StartCycleKeeps(p.(retryTimer := false));
      case Tick(os, switchTo) => ProbeTickKeeps(p, now, os, switchTo);
      case ReconnectCmd => ReconnectKeeps(p);
      case Shutdown =>
    }
  }

  lemma InitialInv(names: seq<Name>)
    requires names != [] && "" !in names
    ensures Inv(Initial(names))
  {
    StartCycleKeeps(Peer(Connecting, names, map n | n in names :: FRESH, "", 0, {}, false, false, [], {}));
  }

  lemma {:induction false} RunKeepsInv(cfg: Config, p: Peer, evs: seq<(int, Event)>)
    requires Inv(p) && Feasible(cfg, p, evs)
    ensures Inv(Run(cfg, p, evs))
    decreases |evs|
  {
    if evs != [] {
      StepKeepsInv(cfg, p, evs[0].0, evs[0].1);
      RunKeepsInv(cfg, Step(cfg, p, evs[0].0, evs[0].1), evs[1..]);
    }
  }

  /** Every state reachable from Start satisfies the invariant. */
  lemma ReachableInv(cfg: Config, names: seq<Name>, evs: seq<(int, Event)>)
    requires names != [] && "" !in names && Feasible(cfg, Initial(names), evs)
    ensures Inv(Run(cfg, Initial(names), evs))
  {
    InitialInv(names);
    RunKeepsInv(cfg, Initial(names), evs);
  }
}
