/** How long the quarantines of a transport last, over every run of its manager. */
module PeerCooldowns {
  import opened Arithmetic
  import opened Options
  import opened PeerState
  import opened PeerInvariants

  /** Same transports, same quarantine counts, same ends of cooldown. */
  ghost predicate SameCounts(ts: map<Name, Transport>, ts': map<Name, Transport>) {
    forall n :: n in ts ==>
        n in ts' && ts'[n].quarantineN == ts[n].quarantineN && ts'[n].cooldownUntil == ts[n].cooldownUntil
  }

  lemma StartCycleSame(p: Peer)
    requires NamesOk(p.names, p.transports)
    ensures SameCounts(p.transports, StartCycle(p).transports)
  {
    var c := CycleChoice(p);
    hide StartCycle;
  }

  lemma StartFallbackSame(p: Peer)
    requires NamesOk(p.names, p.transports)
    ensures SameCounts(p.transports, StartFallback(p).transports)
  {
    hide Candidates, FirstIdle;
  }

  lemma CheckExpirySame(p: Peer, now: int)
    requires NamesOk(p.names, p.transports)
    ensures SameCounts(p.transports, CheckExpiry(p, now).transports)
    ensures NamesOk(p.names, CheckExpiry(p, now).transports) && CheckExpiry(p, now).names == p.names
  {
    hide StartCycle;
    var q := p.(transports := map n | n in p.transports :: Recovered(p.transports[n], now));
    assert NamesOk(q.names, q.transports) && SameCounts(p.transports, q.transports);
    StartCycleSame(q);
    StartCycleNames(q);
    hide NamesOk;
  }

  lemma StartCycleNames(p: Peer)
    requires NamesOk(p.names, p.transports)
    ensures StartCycle(p).names == p.names && NamesOk(p.names, StartCycle(p).transports)
  {
    var c := CycleChoice(p);
    hide StartCycle;
  }

  lemma TickSame(p: Peer, now: int, os: map<Name, ProbeOutcome>, switchTo: Option<Name>)
    requires Inv(p) && (p.phase == Connected ==> MaySwitch(p, os, switchTo))
    ensures SameCounts(p.transports, ProbeTick(p, now, os, switchTo).transports)
  {
    if p.phase == Connecting {
      CheckExpirySame(p, now);
      hide CheckExpiry, StartCycle, Candidates;
      StartCycleSame(CheckExpiry(p, now));
    } else if p.phase == Connected {
      var q := p.(transports := ProbeAll(p.transports, os));
      assert SameCounts(p.transports, q.transports);
      if switchTo.Some? { SwitchSame(q, switchTo.value); }
    }
  }

  lemma SwitchSame(p: Peer, target: Name)
    requires NamesOk(p.names, p.transports) && target in p.transports
    ensures SameCounts(p.transports, TriggerSwitch(p, target).transports)
  {
    hide StartCycle;
    var q := p.(transports := Displaced(p.transports, p.current), names := Reorder(p.names, target),
                current := "", phase := Connecting);
    assert SameCounts(p.transports, q.transports) && q.transports.Keys == p.transports.Keys;
    hide Displaced;
    ReorderNames(p.names, p.transports, target);
    assert NamesOk(q.names, q.transports);
    hide Reorder, NamesOk;
    StartCycleSame(q);
  }

  // ----- The ordinal of a quarantine -----

  /** The event is a failure of `name` that puts it into quarantine, or blacks it out. */
  ghost predicate Quarantines(cfg: Config, p: Peer, e: Event, name: Name) {
    && e.Dialled? && e.outcome.None? && e.i < |p.started| && p.started[e.i] == Dial(p.gen, name)
    && name in p.transports && p.transports[name].failures + 1 >= Threshold(cfg, name)
  }

  /** The event promotes `name` or resets all transports. */
  ghost predicate Clears(p: Peer, e: Event, name: Name) {
    e.ReconnectCmd? || (e.Dialled? && e.outcome.Some? && e.i < |p.started| && p.started[e.i] == Dial(p.gen, name))
  }

  lemma FailCounts(cfg: Config, p: Peer, name: Name, now: int, other: Name)
    requires NamesOk(p.names, p.transports) && name in p.transports && other in p.transports
    ensures var t, q := p.transports[name], Fail(cfg, p, name, now);
            && other in q.transports
            && (other != name || t.failures + 1 < Threshold(cfg, name) ==>
                  q.transports[other].quarantineN == p.transports[other].quarantineN)
            && (other == name && t.failures + 1 >= Threshold(cfg, name) ==>
                  && q.transports[name].quarantineN == t.quarantineN + 1
                  && q.transports[name].cooldownUntil == now + Cooldown(cfg, t.quarantineN + 1))
  {
    var q := p.(transports := p.transports[name := Punished(cfg, name, StateOf(p.transports, name), now)]);
    hide Cooldown, Threshold, Candidates;
    assert NamesOk(q.names, q.transports);
    CheckExpirySame(q.(hedgeTimer := false), now);
    hide CheckExpiry, NamesOk;
  }

  lemma DialCounts(cfg: Config, p: Peer, now: int, i: nat, outcome: Option<Conn>, name: Name)
    requires Inv(p) && i < |p.started| && name in p.transports
    ensures var q, e := DialDone(cfg, p, now, i, outcome), Dialled(i, outcome);
            && name in q.transports
            && q.transports[name].quarantineN ==
               (if Clears(p, e, name) then 0
                else p.transports[name].quarantineN + if Quarantines(cfg, p, e, name) then 1 else 0)
            && (Quarantines(cfg, p, e, name) ==>
                  q.transports[name].cooldownUntil == now + Cooldown(cfg, q.transports[name].quarantineN))
  {
    var d := p.started[i];
    var r := p.(pending := p.pending - {i}, inFlight := p.inFlight - {d.name});
    assert d.name in p.transports;
    if d.gen == p.gen && outcome.None? { FailCounts(cfg, r, d.name, now, name); }
    hide Fail, Cooldown, Threshold;
  }

  /** One event: the count is cleared, or raised by a quarantine whose cooldown it then determines, or kept. */
  lemma StepCounts(cfg: Config, p: Peer, now: int, e: Event, name: Name)
    requires Inv(p) && Enabled(p, e) && name in p.transports
    ensures var q := Step(cfg, p, now, e);
            && name in q.transports
            && q.transports[name].quarantineN ==
               (if Clears(p, e, name) then 0
                else p.transports[name].quarantineN + if Quarantines(cfg, p, e, name) then 1 else 0)
            && (Quarantines(cfg, p, e, name) ==>
                  q.transports[name].cooldownUntil == now + Cooldown(cfg, q.transports[name].quarantineN))
  {
    hide DialDone, StartFallback, ProbeTick, StartCycle, Cooldown, Threshold;
    match e {
      case Dialled(i, outcome) => DialCounts(cfg, p, now, i, outcome, name);
      case Dropped(_) =>
      case HedgeFired => StartFallbackSame(p.(hedgeTimer := false));
      case RetryFired => StartCycleSame(p.(retryTimer := false));
      case Tick(os, switchTo) => TickSame(p, now, os, switchTo);
      case ReconnectCmd => ReconnectCounts(p, name);
      case Shutdown =>
    }
  }

  lemma ReconnectCounts(p: Peer, name: Name)
    requires NamesOk(p.names, p.transports) && name in p.transports
    ensures name in Reconnect(p).transports && Reconnect(p).transports[name].quarantineN == 0
  {
    StartCycleSame(p.(transports := ResetAll(p.transports), current := "", inFlight := {},
                      hedgeTimer := false, retryTimer := false, phase := Connecting));
    hide StartCycle;
  }

  /** How many quarantines in a row `name` has had after the run, `k` of them before it. */
  ghost function InARow(cfg: Config, p: Peer, evs: seq<(int, Event)>, name: Name, k: nat): nat
    requires Feasible(cfg, p, evs)
    decreases |evs|
  {
    if evs == [] then k
    else
      var (now, e) := evs[0];
      InARow(cfg, Step(cfg, p, now, e), evs[1..], name,
             if Clears(p, e, name) then 0 else if Quarantines(cfg, p, e, name) then k + 1 else k)
  }

  lemma {:induction false} CountsInARow(cfg: Config, p: Peer, evs: seq<(int, Event)>, name: Name)
    requires Inv(p) && Feasible(cfg, p, evs) && name in p.transports
    ensures var q := Run(cfg, p, evs);
            name in q.transports &&
              q.transports[name].quarantineN == InARow(cfg, p, evs, name, p.transports[name].quarantineN)
    decreases |evs|
  {
    hide Inv, Step, Enabled, Clears, Quarantines, Cooldown;
    if evs != [] {
      var (now, e) := evs[0];
      StepKeepsInv(cfg, p, now, e);
      StepCounts(cfg, p, now, e, name);
      CountsInARow(cfg, Step(cfg, p, now, e), evs[1..], name);
    }
  }

  /** From Start, in every run, the k-th quarantine in a row lasts min(base * 2^k, max). */
  lemma KthQuarantine(cfg: Config, names: seq<Name>, evs: seq<(int, Event)>, now: int, e: Event, name: Name)
    requires names != [] && "" !in names && name in names && 0 <= cfg.baseCooldown
    requires Feasible(cfg, Initial(names), evs) && Enabled(Run(cfg, Initial(names), evs), e)
    requires Quarantines(cfg, Run(cfg, Initial(names), evs), e, name)
    ensures var k := InARow(cfg, Initial(names), evs, name, 0) + 1;
            var q := Step(cfg, Run(cfg, Initial(names), evs), now, e);
            && name in q.transports && q.transports[name].quarantineN == k
            && q.transports[name].cooldownUntil == now + Min(cfg.baseCooldown * Pow(2, k), cfg.maxCooldown)
  {
    hide Inv, Step, Enabled, Initial, CooldownFrom, InARow, Quarantines, Clears;
    InitialInv(names);
    InitialCounts(names, name);
    CountsInARow(cfg, Initial(names), evs, name);
    RunKeepsInv(cfg, Initial(names), evs);
    StepCounts(cfg, Run(cfg, Initial(names), evs), now, e, name);
    CooldownFormula(cfg.baseCooldown, InARow(cfg, Initial(names), evs, name, 0) + 1, cfg.maxCooldown);
    QuarantinesClear(cfg, Run(cfg, Initial(names), evs), e, name);
  }

  lemma QuarantinesClear(cfg: Config, p: Peer, e: Event, name: Name)
    requires Quarantines(cfg, p, e, name)
    ensures !Clears(p, e, name)
  {
  }

  lemma InitialCounts(names: seq<Name>, name: Name)
    requires names != [] && "" !in names && name in names
    ensures name in Initial(names).transports && Initial(names).transports[name].quarantineN == 0
  {
    StartCycleSame(Peer(Connecting, names, map n | n in names :: FRESH, "", 0, {}, false, false, [], {}));
    hide StartCycle;
  }

  /** The documentation has the k-th quarantine last min(base * 2^(k-1), max). The code agrees with it if
      and only if there is no cooldown at all or the documented one is already the maximum. */
  lemma DocumentedIff(base: int, max: int, k: nat)
    requires 0 <= base && k >= 1
    ensures Min(base * Pow(2, k), max) == Min(base * Pow(2, k - 1), max) <==> base == 0 || base * Pow(2, k - 1) >= max
  {
    var x := base * Pow(2, k - 1);
    assert base * Pow(2, k) == 2 * x;
    PowPositive(2, k - 1);
    NoZeroProduct(base, Pow(2, k - 1));
    hide Pow;
  }

  lemma NoZeroProduct(a: int, b: int)
    requires a >= 0 && b > 0
    ensures a * b >= 0 && (a * b == 0 <==> a == 0)
  {
  }

  /** With the default 30 s and 5 min every first quarantine lasts 60 s, not the documented 30 s. */
  lemma FirstQuarantineDoubled(cfg: Config, names: seq<Name>, evs: seq<(int, Event)>, now: int, e: Event, name: Name)
    requires names != [] && "" !in names && name in names && cfg.baseCooldown == 30 && cfg.maxCooldown == 300
    requires Feasible(cfg, Initial(names), evs) && Enabled(Run(cfg, Initial(names), evs), e)
    requires Quarantines(cfg, Run(cfg, Initial(names), evs), e, name) && InARow(cfg, Initial(names), evs, name, 0) == 0
    ensures var q := Step(cfg, Run(cfg, Initial(names), evs), now, e);
            name in q.transports && q.transports[name].cooldownUntil == now + 60
  {
    hide Initial, Run, Step, Enabled, Quarantines, InARow, Feasible;
    KthQuarantine(cfg, names, evs, now, e, name);
    assert Pow(2, 1) == 2 * Pow(2, 0);
  }

  // ----- How many failures it takes -----

  /** A fresh transport after failures at these times. */
  function Struck(cfg: Config, name: Name, times: seq<int>): Transport {
    if times == [] then FRESH
    else Punished(cfg, name, Struck(cfg, name, times[..|times| - 1]), times[|times| - 1])
  }

  lemma {:induction false} StruckBelow(cfg: Config, name: Name, times: seq<int>)
    requires |times| < Threshold(cfg, name)
    ensures Struck(cfg, name, times) == FRESH.(failures := |times|)
    decreases |times|
  {
    if times != [] { StruckBelow(cfg, name, times[..|times| - 1]); }
  }

  /** The first quarantine comes with the configured number of failures in a row. Without a positive one it
      comes with the second failure for "websocket" and "reality", and with the third for all others. */
  lemma FirstQuarantineAfter(cfg: Config, name: Name, times: seq<int>)
    requires var own := if name in cfg.thresholds then cfg.thresholds[name] else 0;
             |times| == if own > 0 then own else if name in ["websocket", "reality"] then 2 else 3
    ensures Struck(cfg, name, times).quarantineN == 1
    ensures forall n: nat :: n < |times| ==>
              Struck(cfg, name, times[..n]).quarantineN == 0 && Struck(cfg, name, times[..n]).sub == Active
  {
    StruckBelow(cfg, name, times[..|times| - 1]);
    forall n: nat | n < |times|
      ensures Struck(cfg, name, times[..n]).quarantineN == 0 && Struck(cfg, name, times[..n]).sub == Active
    {
      StruckBelow(cfg, name, times[..n]);
    }
  }
}
