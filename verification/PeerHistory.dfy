/** Properties of whole runs: which dials may still be promoted, when a blacked-out
    transport stays failed, and how many failures a run without success can count. */
module PeerHistory {
  import opened Options
  import opened PeerState
  import opened PeerInvariants

  // ----- Dials started before a Reconnect -----

  ghost predicate Grows(p: Peer, q: Peer) {
    p.gen <= q.gen && p.started <= q.started
  }

  lemma StartCycleGrows(p: Peer)
    ensures Grows(p, StartCycle(p))
  {
  }

  lemma CheckExpiryGrows(p: Peer, now: int)
    ensures Grows(p, CheckExpiry(p, now))
  {
    hide StartCycle;
    StartCycleGrows(p.(transports := map n | n in p.transports :: Recovered(p.transports[n], now)));
  }

  lemma DialDoneGrows(cfg: Config, p: Peer, now: int, i: nat, outcome: Option<Conn>)
    requires i < |p.started|
    ensures Grows(p, DialDone(cfg, p, now, i, outcome))
  {
    hide CheckExpiry, Candidates;
    var d := p.started[i];
    var r := p.(pending := p.pending - {i}, inFlight := p.inFlight - {d.name});
    var punished := Punished(cfg, d.name, StateOf(r.transports, d.name), now);
    CheckExpiryGrows(r.(transports := r.transports[d.name := punished], hedgeTimer := false), now);
  }

  lemma TickGrows(p: Peer, now: int, os: map<Name, ProbeOutcome>, switchTo: Option<Name>)
    ensures Grows(p, ProbeTick(p, now, os, switchTo))
  {
    hide CheckExpiry, Candidates, StartCycle, Displaced, Reorder;
    CheckExpiryGrows(p, now);
    StartCycleGrows(CheckExpiry(p, now));
    var q := p.(transports := ProbeAll(p.transports, os));
    if switchTo.Some? {
      StartCycleGrows(q.(transports := Displaced(q.transports, q.current), names := Reorder(q.names, switchTo.value),
                         current := "", phase := Connecting));
    }
  }

  lemma StepGrows(cfg: Config, p: Peer, now: int, e: Event)
    requires Enabled(p, e)
    ensures Grows(p, Step(cfg, p, now, e))
  {
    hide StartCycle, DialDone, ProbeTick;
    match e {
      case Dialled(i, outcome) => DialDoneGrows(cfg, p, now, i, outcome);
      case Tick(os, switchTo) => TickGrows(p, now, os, switchTo);
      case RetryFired => StartCycleGrows(p.(retryTimer := false));
      case ReconnectCmd =>
        StartCycleGrows(p.(transports := ResetAll(p.transports), current := "", inFlight := {},
                           hedgeTimer := false, retryTimer := false, phase := Connecting));
      case _ =>
    }
  }

  /** The first `k` dials all belong to cycles that are over. */
  ghost predicate StaleBefore(p: Peer, k: nat) {
    k <= |p.started| && forall i :: 0 <= i < k ==> p.started[i].gen < p.gen
  }

  lemma ReconnectMakesStale(p: Peer)
    requires Inv(p)
    ensures StaleBefore(Reconnect(p), |p.started|)
  {
    var q := p.(transports := ResetAll(p.transports), current := "", inFlight := {},
                hedgeTimer := false, retryTimer := false, phase := Connecting);
    PrimaryChoice(q.names, q.transports);
    assert q.transports[q.names[0]].sub == Active;
  }

  lemma {:induction false} StaleForever(cfg: Config, p: Peer, evs: seq<(int, Event)>, k: nat)
    requires StaleBefore(p, k) && Feasible(cfg, p, evs)
    ensures StaleBefore(Run(cfg, p, evs), k)
    decreases |evs|
  {
    if evs != [] {
      var q := Step(cfg, p, evs[0].0, evs[0].1);
      StepGrows(cfg, p, evs[0].0, evs[0].1);
      assert forall i :: 0 <= i < k ==> q.started[i] == p.started[i];
      StaleForever(cfg, q, evs[1..], k);
    }
  }

  /** No dial started before a Reconnect is promoted after it: its result, whenever it
      arrives and whatever it is, only leaves the list of pending results. */
  lemma ReconnectForgetsOldDials(cfg: Config, p: Peer, evs: seq<(int, Event)>, now: int, i: nat, outcome: Option<Conn>)
    requires Inv(p) && Feasible(cfg, Reconnect(p), evs) && i < |p.started|
    requires Enabled(Run(cfg, Reconnect(p), evs), Dialled(i, outcome))
    ensures var q := Run(cfg, Reconnect(p), evs);
            Step(cfg, q, now, Dialled(i, outcome)) == q.(pending := q.pending - {i})
  {
    ReconnectMakesStale(p);
    StaleForever(cfg, Reconnect(p), evs, |p.started|);
  }

  // ----- Blackout -----

  predicate BlackedOut(cfg: Config, t: Transport) {
    t.quarantineN >= cfg.blackout
  }

  /** A blacked-out transport is marked failed. */
  ghost predicate BlackoutHolds(cfg: Config, ts: map<Name, Transport>) {
    forall n :: n in ts && BlackedOut(cfg, ts[n]) ==> ts[n].sub == Failed
  }

  /** A blacked-out transport is worn out and not merely quarantined. */
  ghost predicate WornOut(cfg: Config, ts: map<Name, Transport>) {
    forall n :: n in ts && BlackedOut(cfg, ts[n]) ==> ts[n].failures >= Threshold(cfg, n) && ts[n].sub != Quarantined
  }

  /** The event closes the connection of the current transport and makes it idle-ready. */
  ghost predicate Displaces(p: Peer, e: Event) {
    match e
    case Dialled(i, outcome) =>
      i < |p.started| && p.started[i].gen == p.gen && outcome.Some? && p.current != "" && p.current != p.started[i].name
    case Tick(_, switchTo) => p.phase == Connected && switchTo.Some?
    case _ => false
  }

  ghost predicate DisplacesBlackedOut(cfg: Config, p: Peer, e: Event) {
    Displaces(p, e) && p.current in p.transports && BlackedOut(cfg, p.transports[p.current])
  }

  lemma StartCycleBlackout(cfg: Config, p: Peer)
    requires WellFormed(p) && cfg.blackout >= 1
    ensures WornOut(cfg, p.transports) ==> WornOut(cfg, StartCycle(p).transports)
    ensures BlackoutHolds(cfg, p.transports) ==> BlackoutHolds(cfg, StartCycle(p).transports)
  {
    var c := CycleChoice(p);
    hide StartCycle, Threshold;
  }

  lemma StartFallbackBlackout(cfg: Config, p: Peer)
    requires WellFormed(p) && cfg.blackout >= 1
    ensures WornOut(cfg, p.transports) ==> WornOut(cfg, StartFallback(p).transports)
    ensures BlackoutHolds(cfg, p.transports) ==> BlackoutHolds(cfg, StartFallback(p).transports)
  {
    var cs := Candidates(p.names, p.transports);
    FirstIdleChoice(cs, p.inFlight);
    var f := FirstIdle(cs, p.inFlight);
    if f.Some? { CandidatesExact(p.names, p.transports, f.value); }
  }

  lemma CheckExpiryBlackout(cfg: Config, p: Peer, now: int)
    requires WellFormed(p) && cfg.blackout >= 1 && WornOut(cfg, p.transports)
    ensures WornOut(cfg, CheckExpiry(p, now).transports)
    ensures BlackoutHolds(cfg, p.transports) ==> BlackoutHolds(cfg, CheckExpiry(p, now).transports)
  {
    var q := p.(transports := map n | n in p.transports :: Recovered(p.transports[n], now));
    hide StartCycle, Threshold;
    assert WellFormed(q) && WornOut(cfg, q.transports);
    assert BlackoutHolds(cfg, p.transports) ==> BlackoutHolds(cfg, q.transports);
    StartCycleBlackout(cfg, q);
  }

  lemma FailBlackout(cfg: Config, p: Peer, name: Name, now: int)
    requires WellFormed(p) && cfg.blackout >= 1 && WornOut(cfg, p.transports) && name in p.transports
    ensures WornOut(cfg, Fail(cfg, p, name, now).transports)
    ensures BlackoutHolds(cfg, p.transports) ==> BlackoutHolds(cfg, Fail(cfg, p, name, now).transports)
  {
    var q := p.(transports := p.transports[name := Punished(cfg, name, p.transports[name], now)]);
    assert WornOut(cfg, q.transports);
    assert BlackoutHolds(cfg, p.transports) ==> BlackoutHolds(cfg, q.transports);
    CheckExpiryBlackout(cfg, q.(hedgeTimer := false), now);
  }

  lemma SwitchBlackout(cfg: Config, p: Peer, target: Name)
    requires Inv(p) && cfg.blackout >= 1 && WornOut(cfg, p.transports) && p.phase == Connected && target in p.transports
    ensures WornOut(cfg, TriggerSwitch(p, target).transports)
    ensures BlackoutHolds(cfg, p.transports) ==>
              (BlackoutHolds(cfg, TriggerSwitch(p, target).transports) <==> !BlackedOut(cfg, p.transports[p.current]))
  {
    var q := p.(transports := Displaced(p.transports, p.current), names := Reorder(p.names, target),
                current := "", phase := Connecting);
    forall n ensures n in q.names <==> n in p.names {
      WithoutExact(p.names, target, n);
    }
    assert WellFormed(q) && WornOut(cfg, q.transports);
    StartCycleBlackout(cfg, q);
    assert q.transports[p.current].sub == Active;
    StartCycleNeverFails(q, p.current);
  }

  lemma StartCycleNeverFails(p: Peer, n: Name)
    requires n in p.transports && p.transports[n].sub != Failed
    ensures n in StartCycle(p).transports && StartCycle(p).transports[n].sub != Failed
    ensures StartCycle(p).transports[n].quarantineN == p.transports[n].quarantineN
  {
  }

  lemma DialledBlackout(cfg: Config, p: Peer, now: int, i: nat, outcome: Option<Conn>)
    requires Inv(p) && cfg.blackout >= 1 && WornOut(cfg, p.transports) && i < |p.started|
    ensures WornOut(cfg, DialDone(cfg, p, now, i, outcome).transports)
    ensures BlackoutHolds(cfg, p.transports) ==>
              (BlackoutHolds(cfg, DialDone(cfg, p, now, i, outcome).transports) <==>
                 !DisplacesBlackedOut(cfg, p, Dialled(i, outcome)))
  {
    var d := p.started[i];
    var r := p.(pending := p.pending - {i}, inFlight := p.inFlight - {d.name});
    if d.gen == p.gen {
      if outcome.None? { FailBlackout(cfg, r, d.name, now); }
      else { SucceedBlackout(cfg, r, d.name, outcome.value); }
    }
  }

  lemma SucceedBlackout(cfg: Config, p: Peer, name: Name, conn: Conn)
    requires Inv(p) && cfg.blackout >= 1 && WornOut(cfg, p.transports) && name in p.transports
    ensures WornOut(cfg, Succeed(p, name, conn).transports)
    ensures BlackoutHolds(cfg, p.transports) ==>
              (BlackoutHolds(cfg, Succeed(p, name, conn).transports) <==>
                 !(p.current != "" && p.current != name && BlackedOut(cfg, p.transports[p.current])))
  {
    if p.current != "" && p.current != name {
      assert Succeed(p, name, conn).transports[p.current].sub == Active;
    }
  }

  lemma TickBlackout(cfg: Config, p: Peer, now: int, os: map<Name, ProbeOutcome>, switchTo: Option<Name>)
    requires Inv(p) && Enabled(p, Tick(os, switchTo)) && cfg.blackout >= 1 && WornOut(cfg, p.transports)
    ensures WornOut(cfg, ProbeTick(p, now, os, switchTo).transports)
    ensures BlackoutHolds(cfg, p.transports) ==>
              (BlackoutHolds(cfg, ProbeTick(p, now, os, switchTo).transports) <==>
                 !DisplacesBlackedOut(cfg, p, Tick(os, switchTo)))
  {
    hide StartCycle, CheckExpiry, TriggerSwitch, Candidates;
    if p.phase == Connecting {
      CheckExpiryKeeps(p, now);
      CheckExpiryBlackout(cfg, p, now);
      StartCycleBlackout(cfg, CheckExpiry(p, now));
    } else {
      var q := p.(transports := ProbeAll(p.transports, os));
      assert Inv(q) && WornOut(cfg, q.transports);
      assert BlackoutHolds(cfg, p.transports) ==> BlackoutHolds(cfg, q.transports);
      if switchTo.Some? { SwitchBlackout(cfg, q, switchTo.value); }
    }
  }

  /** An event keeps every blacked-out transport failed if and only if it does not displace
      a current transport that is itself blacked out. */
  lemma BlackoutKeptIff(cfg: Config, p: Peer, now: int, e: Event)
    requires Inv(p) && Enabled(p, e) && cfg.blackout >= 1 && WornOut(cfg, p.transports)
    ensures WornOut(cfg, Step(cfg, p, now, e).transports)
    ensures BlackoutHolds(cfg, p.transports) ==>
              (BlackoutHolds(cfg, Step(cfg, p, now, e).transports) <==> !DisplacesBlackedOut(cfg, p, e))
  {
    hide StartCycle, StartFallback, DialDone, ProbeTick;
    match e {
      case Dialled(i, outcome) => DialledBlackout(cfg, p, now, i, outcome);
      case HedgeFired => StartFallbackBlackout(cfg, p.(hedgeTimer := false));
      case RetryFired => StartCycleBlackout(cfg, p.(retryTimer := false));
      case Tick(os, switchTo) => TickBlackout(cfg, p, now, os, switchTo);
      case ReconnectCmd =>
        StartCycleBlackout(cfg, p.(transports := ResetAll(p.transports), current := "", inFlight := {},
                                   hedgeTimer := false, retryTimer := false, phase := Connecting));
      case _ =>
    }
  }

  /** No event of the run displaces a blacked-out current transport. */
  ghost predicate NeverDisplaces(cfg: Config, p: Peer, evs: seq<(int, Event)>)
    requires Feasible(cfg, p, evs)
    decreases |evs|
  {
    evs == [] ||
      (!DisplacesBlackedOut(cfg, p, evs[0].1) && NeverDisplaces(cfg, Step(cfg, p, evs[0].0, evs[0].1), evs[1..]))
  }

  /** Over every run without such a displacement, blacked-out transports stay failed. */
  lemma {:induction false} BlackoutOverRun(cfg: Config, p: Peer, evs: seq<(int, Event)>)
    requires Inv(p) && cfg.blackout >= 1 && Feasible(cfg, p, evs) && NeverDisplaces(cfg, p, evs)
    requires WornOut(cfg, p.transports) && BlackoutHolds(cfg, p.transports)
    ensures BlackoutHolds(cfg, Run(cfg, p, evs).transports)
    decreases |evs|
  {
    hide Inv, WornOut, BlackoutHolds, Enabled, Step, DisplacesBlackedOut;
    if evs != [] {
      StepKeepsInv(cfg, p, evs[0].0, evs[0].1);
      BlackoutKeptIff(cfg, p, evs[0].0, evs[0].1);
      BlackoutOverRun(cfg, Step(cfg, p, evs[0].0, evs[0].1), evs[1..]);
    }
  }

  lemma InitialBlackout(cfg: Config, names: seq<Name>)
    requires names != [] && "" !in names && cfg.blackout >= 1
    ensures WornOut(cfg, Initial(names).transports) && BlackoutHolds(cfg, Initial(names).transports)
  {
    StartCycleBlackout(cfg, Peer(Connecting, names, map n | n in names :: FRESH, "", 0, {}, false, false, [], {}));
  }

  /** From Start, every run without such a displacement keeps blacked-out transports failed. */
  lemma ReachableBlackout(cfg: Config, names: seq<Name>, evs: seq<(int, Event)>)
    requires names != [] && "" !in names && cfg.blackout >= 1
    requires Feasible(cfg, Initial(names), evs) && NeverDisplaces(cfg, Initial(names), evs)
    ensures BlackoutHolds(cfg, Run(cfg, Initial(names), evs).transports)
  {
    InitialInv(names);
    InitialBlackout(cfg, names);
    BlackoutOverRun(cfg, Initial(names), evs);
  }
}

/** A run that ends with a blacked-out transport offered for dialling again. */
module BlackoutLoss {
  import opened Options
  import opened PeerState
  import opened PeerHistory

  const CFG: Config := Config(map["a" := 1, "b" := 2], 1, 30, 300)
  const NAMES: seq<Name> := ["a", "b"]
  const FIRST: seq<Dial> := [Dial(1, "a"), Dial(1, "b")]
  const SECOND: seq<Dial> := FIRST + [Dial(2, "a"), Dial(2, "b")]

  function State(phase: PeerPhase, a: Transport, b: Transport, current: Name, gen: nat, inFlight: set<Name>,
                 hedge: bool, retry: bool, started: seq<Dial>, pending: set<nat>): Peer
  {
    Peer(phase, NAMES, map["a" := a, "b" := b], current, gen, inFlight, hedge, retry, started, pending)
  }

  function Held(sub: SubState, conn: Conn): Transport {
    FRESH.(sub := sub, conn := Some(conn))
  }

  lemma PairCandidates(ts: map<Name, Transport>)
    ensures Candidates(NAMES, ts) ==
            (if Available(ts, "a") then ["a"] else []) + (if Available(ts, "b") then ["b"] else [])
  {
    assert NAMES[..1] == ["a"] && NAMES[..1][..0] == [];
    assert Candidates(NAMES[..1], ts) == if Available(ts, "a") then ["a"] else [];
  }

  lemma Extend(p: Peer, e: Event, rest: seq<(int, Event)>) returns (evs: seq<(int, Event)>)
    requires Enabled(p, e) && Feasible(CFG, Step(CFG, p, 0, e), rest)
    ensures Feasible(CFG, p, evs) && Run(CFG, p, evs) == Run(CFG, Step(CFG, p, 0, e), rest)
  {
    evs := [(0, e)] + rest;
    assert evs[1..] == rest;
  }

  function AfterStart(): Peer {
    State(Connecting, FRESH.(sub := Dialling), FRESH, "", 1, {"a"}, true, false, FIRST[..1], {0})
  }

  lemma StartState()
    ensures Initial(NAMES) == AfterStart()
  {
    var ts: map<Name, Transport> := map n | n in NAMES :: FRESH;
    PairCandidates(ts);
    assert ts == map["a" := FRESH, "b" := FRESH];
  }

  /** "a" connects first; "b" fails late and arms the retry timer. */
  function ConnectedOnA(): Peer {
    State(Connected, Held(Active, 7), FRESH.(failures := 1), "a", 1, {}, false, true, FIRST, {})
  }

  function BothDialled(): Peer {
    State(Connecting, FRESH.(sub := Dialling), FRESH.(sub := Dialling), "", 1, {"a", "b"}, false, false, FIRST, {0, 1})
  }

  function OnlyA(): Peer {
    State(Connected, Held(Active, 7), FRESH.(sub := Dialling), "a", 1, {}, false, false, FIRST, {1})
  }

  lemma FirstCycle()
    ensures Enabled(AfterStart(), HedgeFired) && Step(CFG, AfterStart(), 0, HedgeFired) == BothDialled()
    ensures Enabled(BothDialled(), Dialled(0, Some(7))) && Step(CFG, BothDialled(), 0, Dialled(0, Some(7))) == OnlyA()
  {
    PairCandidates(AfterStart().transports);
    assert ["a", "b"][1..] == ["b"];
    assert BothDialled().transports["a" := Held(Active, 7)] == OnlyA().transports;
  }

  lemma LateFailure()
    ensures Enabled(OnlyA(), Dialled(1, None)) && Step(CFG, OnlyA(), 0, Dialled(1, None)) == ConnectedOnA()
  {
    var b := FRESH.(sub := Dialling);
    assert Threshold(CFG, "b") == 2 && Punished(CFG, "b", b, 0) == FRESH.(failures := 1);
    PairCandidates(ConnectedOnA().transports);
    var p, q := OnlyA(), ConnectedOnA();
    assert p.pending - {1} == {} && p.transports["b" := FRESH.(failures := 1)] == q.transports;
    var r := p.(pending := {});
    assert Step(CFG, p, 0, Dialled(1, None)) == Fail(CFG, r, "b", 0);
    assert Fail(CFG, r, "b", 0) == AllDialsFailed(r.(transports := q.transports), 0);
  }

  /** The retry cycle redials "a" and hedges with "b"; "a" is blacked out while it still holds its connection. */
  function AIsBlackedOut(): Peer {
    State(Connected, Transport(Failed, Some(7), 1, 1, 0, 60), FRESH.(failures := 1, sub := Dialling), "a", 2, {"b"},
          false, false, SECOND, {3})
  }

  function RedialA(): Peer {
    State(Connected, Held(Dialling, 7), FRESH.(failures := 1), "a", 2, {"a"}, true, false, FIRST + [Dial(2, "a")], {2})
  }

  function RedialBoth(): Peer {
    State(Connected, Held(Dialling, 7), FRESH.(failures := 1, sub := Dialling), "a", 2, {"a", "b"}, false, false,
          SECOND, {2, 3})
  }

  lemma SecondCycle()
    ensures Enabled(ConnectedOnA(), RetryFired) && Step(CFG, ConnectedOnA(), 0, RetryFired) == RedialA()
    ensures Enabled(RedialA(), HedgeFired) && Step(CFG, RedialA(), 0, HedgeFired) == RedialBoth()
  {
    PairCandidates(ConnectedOnA().transports);
    PairCandidates(RedialA().transports);
    assert ["a", "b"][1..] == ["b"];
    assert FIRST + [Dial(2, "a")] + [Dial(2, "b")] == SECOND;
  }

  lemma RedialFails()
    ensures Enabled(RedialBoth(), Dialled(2, None)) && Step(CFG, RedialBoth(), 0, Dialled(2, None)) == AIsBlackedOut()
  {
    var a := Held(Dialling, 7);
    assert Threshold(CFG, "a") == 1;
    assert CooldownFrom(60, 0, 300) == 60;
    assert Cooldown(CFG, 1) == 60;
    var failed := Transport(Failed, Some(7), 1, 1, 0, 60);
    assert Punished(CFG, "a", a, 0) == failed;
    var p, q := RedialBoth(), AIsBlackedOut();
    assert p.started[2] == Dial(2, "a") && p.transports["a"] == a;
    assert p.pending - {2} == q.pending && p.inFlight - {"a"} == q.inFlight != {};
    assert p.transports["a" := failed] == q.transports;
    var r := p.(pending := q.pending, inFlight := q.inFlight);
    assert Step(CFG, p, 0, Dialled(2, None)) == Fail(CFG, r, "a", 0);
    assert Fail(CFG, r, "a", 0) == r.(transports := q.transports);
  }

  /** "b" is promoted, and closing the connection of "a" makes it available again. */
  lemma LastStep()
    ensures Enabled(AIsBlackedOut(), Dialled(3, Some(8)))
    ensures !BlackoutHolds(CFG, Step(CFG, AIsBlackedOut(), 0, Dialled(3, Some(8))).transports)
  {
    var q := Step(CFG, AIsBlackedOut(), 0, Dialled(3, Some(8)));
    assert q.transports["a"] == Transport(Active, None, 1, 1, 0, 60);
  }

  lemma BlackoutCanBeLost()
    ensures exists evs ::
              && Feasible(CFG, Initial(NAMES), evs)
              && !BlackoutHolds(CFG, Run(CFG, Initial(NAMES), evs).transports)
  {
    hide Initial, Step, Enabled, BlackoutHolds;
    hide AfterStart, BothDialled, OnlyA, ConnectedOnA, RedialA, RedialBoth, AIsBlackedOut;
    StartState();
    FirstCycle();
    LateFailure();
    SecondCycle();
    RedialFails();
    LastStep();
    var evs := Extend(AIsBlackedOut(), Dialled(3, Some(8)), []);
    evs := Extend(RedialBoth(), Dialled(2, None), evs);
    evs := Extend(RedialA(), HedgeFired, evs);
    evs := Extend(ConnectedOnA(), RetryFired, evs);
    evs := Extend(OnlyA(), Dialled(1, None), evs);
    evs := Extend(BothDialled(), Dialled(0, Some(7)), evs);
    evs := Extend(AfterStart(), HedgeFired, evs);
  }
}
