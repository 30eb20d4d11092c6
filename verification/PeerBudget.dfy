/** Runs in which no dial succeeds and nobody reconnects: how many failures they can count,
    and what is left of the peer when that budget is spent. */
module PeerBudget {
  import opened Options
  import opened PeerState
  import opened PeerInvariants
  import opened PeerHistory

  /** How many more failures the transport can count before it is blacked out. */
  function Remaining(cfg: Config, n: Name, t: Transport): int {
    if t.quarantineN >= cfg.blackout then 0
    else (cfg.blackout - t.quarantineN) * Threshold(cfg, n) - if t.failures < Threshold(cfg, n) then t.failures else 0
  }

  function Total(cfg: Config, order: seq<Name>, ts: map<Name, Transport>): int
    requires forall n :: n in order ==> n in ts
  {
    if order == [] then 0 else Remaining(cfg, order[0], ts[order[0]]) + Total(cfg, order[1..], ts)
  }

  /** The whole budget: threshold times blackout threshold, over all transports. */
  function Budget(cfg: Config, order: seq<Name>): int {
    if order == [] then 0 else cfg.blackout * Threshold(cfg, order[0]) + Budget(cfg, order[1..])
  }

  /** Results still to come in this cycle belong to different transports, each marked as being dialled. */
  ghost predicate DialsTracked(p: Peer) {
    && (forall i :: i in p.pending && i < |p.started| && p.started[i].gen == p.gen ==>
          && p.started[i].name in p.inFlight && p.started[i].name in p.transports
          && p.transports[p.started[i].name].sub == Dialling)
    && (forall i, j ::
          i in p.pending && j in p.pending && i < j < |p.started| && p.started[i].gen == p.gen == p.started[j].gen ==>
          p.started[i].name != p.started[j].name)
  }

  ghost predicate QuarantineEarned(cfg: Config, ts: map<Name, Transport>) {
    forall n :: n in ts && ts[n].sub == Quarantined ==> ts[n].failures >= Threshold(cfg, n)
  }

  /** The invariant of a peer that has never been connected. */
  ghost predicate Trying(cfg: Config, p: Peer) {
    && Inv(p) && p.phase == Connecting && cfg.blackout >= 1
    && BlackoutHolds(cfg, p.transports) && QuarantineEarned(cfg, p.transports)
    && DialsTracked(p)
  }

  /** The remaining budget of every transport is at most what it was. */
  ghost predicate NoGain(cfg: Config, ts: map<Name, Transport>, ts': map<Name, Transport>) {
    ts'.Keys == ts.Keys && forall n :: n in ts ==> Remaining(cfg, n, ts'[n]) <= Remaining(cfg, n, ts[n])
  }

  ghost predicate CountsFailure(p: Peer, e: Event) {
    e.Dialled? && e.outcome.None? && e.i < |p.started| && p.started[e.i].gen == p.gen
  }

  /** Neither a promotion, a Reconnect nor a shutdown. */
  ghost predicate Quiet(p: Peer, e: Event) {
    && !e.ReconnectCmd? && !e.Shutdown?
    && (e.Dialled? && e.i < |p.started| && p.started[e.i].gen == p.gen ==> e.outcome.None?)
  }

  // ----- One event -----

  lemma StartDialTracked(p: Peer, name: Name)
    requires WellFormed(p) && DialsTracked(p) && name in p.transports && name !in p.inFlight
    ensures DialsTracked(StartDial(p, name))
  {
    var q := StartDial(p, name);
    assert forall i :: 0 <= i < |p.started| ==> q.started[i] == p.started[i];
  }

  lemma StartDialBudget(cfg: Config, p: Peer, name: Name)
    requires name in p.transports && p.transports[name].sub != Failed
    ensures NoGain(cfg, p.transports, StartDial(p, name).transports)
    ensures QuarantineEarned(cfg, p.transports) ==> QuarantineEarned(cfg, StartDial(p, name).transports)
    ensures BlackoutHolds(cfg, p.transports) ==> BlackoutHolds(cfg, StartDial(p, name).transports)
  {
  }

  lemma StartCycleTracked(p: Peer)
    requires WellFormed(p) && DialsTracked(p)
    ensures DialsTracked(StartCycle(p))
  {
    PrimaryChoice(p.names, p.transports);
    hide Primary;
    var q := CancelInFlight(p);
    var c := Primary(p.names, p.transports);
    if c.Some? {
      StartDialTracked(q.(gen := q.gen + 1), c.value.0);
    }
  }

  lemma StartCycleBudget(cfg: Config, p: Peer)
    requires WellFormed(p)
    ensures NoGain(cfg, p.transports, StartCycle(p).transports)
    ensures QuarantineEarned(cfg, p.transports) ==> QuarantineEarned(cfg, StartCycle(p).transports)
  {
    PrimaryChoice(p.names, p.transports);
    hide Primary;
    var c := Primary(p.names, p.transports);
    if c.Some? { StartDialBudget(cfg, p, c.value.0); }
  }

  lemma StartCycleTrying(cfg: Config, p: Peer)
    requires Trying(cfg, p)
    ensures Trying(cfg, StartCycle(p)) && NoGain(cfg, p.transports, StartCycle(p).transports)
  {
    StartCycleKeeps(p);
    StartCycleTracked(p);
    StartCycleBudget(cfg, p);
    StartCycleBlackout(cfg, p);
    hide StartCycle, Inv, DialsTracked, NoGain, QuarantineEarned, BlackoutHolds;
  }

  lemma StartFallbackTrying(cfg: Config, p: Peer)
    requires Trying(cfg, p)
    ensures Trying(cfg, StartFallback(p)) && NoGain(cfg, p.transports, StartFallback(p).transports)
  {
    StartFallbackKeeps(p);
    var cs := Candidates(p.names, p.transports);
    FirstIdleChoice(cs, p.inFlight);
    var f := FirstIdle(cs, p.inFlight);
    if f.Some? {
      CandidatesExact(p.names, p.transports, f.value);
      StartDialTracked(p, f.value);
      StartDialBudget(cfg, p, f.value);
      assert StartFallback(p).phase == p.phase;
    }
    hide Inv, StartDial, DialsTracked, NoGain, QuarantineEarned, BlackoutHolds;
  }

  lemma CheckExpiryTrying(cfg: Config, p: Peer, now: int)
    requires Trying(cfg, p)
    ensures Trying(cfg, CheckExpiry(p, now)) && NoGain(cfg, p.transports, CheckExpiry(p, now).transports)
  {
    var q := p.(transports := map n | n in p.transports :: Recovered(p.transports[n], now));
    assert Trying(cfg, q) && NoGain(cfg, p.transports, q.transports);
    StartCycleTrying(cfg, q);
    hide Remaining, Trying, StartCycle;
  }

  lemma PunishedSpends(cfg: Config, n: Name, t: Transport, now: int)
    requires t.quarantineN < cfg.blackout
    ensures Remaining(cfg, n, Punished(cfg, n, t, now)) <= Remaining(cfg, n, t) - 1
  {
    var k := Threshold(cfg, n);
    assert (cfg.blackout - t.quarantineN) * k == (cfg.blackout - (t.quarantineN + 1)) * k + k;
  }

  /** The peer with the failure of dial `i` recorded, before anything else is decided. */
  function Recorded(cfg: Config, p: Peer, now: int, i: nat): Peer
    requires i < |p.started| && p.started[i].name in p.transports
  {
    var n := p.started[i].name;
    p.(pending := p.pending - {i}, inFlight := p.inFlight - {n},
       transports := p.transports[n := Punished(cfg, n, p.transports[n], now)])
  }

  lemma RecordedTrying(cfg: Config, p: Peer, now: int, i: nat)
    requires Trying(cfg, p) && i in p.pending && i < |p.started| && p.started[i].gen == p.gen
    ensures p.started[i].name in p.transports
    ensures var q := Recorded(cfg, p, now, i);
            Trying(cfg, q) && Trying(cfg, q.(hedgeTimer := false)) &&
              Trying(cfg, q.(hedgeTimer := false, retryTimer := true))
  {
  }

  lemma RecordedSpends(cfg: Config, p: Peer, now: int, i: nat)
    requires Trying(cfg, p) && i in p.pending && i < |p.started| && p.started[i].gen == p.gen
    ensures var n := p.started[i].name;
            && n in p.transports && NoGain(cfg, p.transports, Recorded(cfg, p, now, i).transports)
            && Remaining(cfg, n, Recorded(cfg, p, now, i).transports[n]) <= Remaining(cfg, n, p.transports[n]) - 1
  {
    PunishedSpends(cfg, p.started[i].name, p.transports[p.started[i].name], now);
    hide Remaining, Punished;
  }

  lemma FailTrying(cfg: Config, p: Peer, now: int, i: nat)
    requires Trying(cfg, p) && i in p.pending && i < |p.started| && p.started[i].gen == p.gen
    ensures var q, n := DialDone(cfg, p, now, i, None), p.started[i].name;
            && Trying(cfg, q) && NoGain(cfg, p.transports, q.transports)
            && n in p.transports && Remaining(cfg, n, q.transports[n]) <= Remaining(cfg, n, p.transports[n]) - 1
  {
    RecordedTrying(cfg, p, now, i);
    RecordedSpends(cfg, p, now, i);
    var q := Recorded(cfg, p, now, i);
    var r := DialDone(cfg, p, now, i, None);
    assert r == q || r == q.(hedgeTimer := false, retryTimer := true) ||
           r == CheckExpiry(q.(hedgeTimer := false), now) by {
      hide CheckExpiry, Candidates, Trying, Remaining;
    }
    hide Recorded, DialDone, Remaining, Trying, CheckExpiry;
    CheckExpiryTrying(cfg, q.(hedgeTimer := false), now);
  }

  lemma StepTrying(cfg: Config, p: Peer, now: int, e: Event)
    requires Trying(cfg, p) && Enabled(p, e) && Quiet(p, e)
    ensures var q := Step(cfg, p, now, e);
            && Trying(cfg, q) && NoGain(cfg, p.transports, q.transports)
            && (CountsFailure(p, e) ==> var n := p.started[e.i].name;
                  n in p.transports && Remaining(cfg, n, q.transports[n]) <= Remaining(cfg, n, p.transports[n]) - 1)
  {
    hide Remaining, StartCycle, StartFallback, CheckExpiry, Candidates;
    match e {
      case Dialled(i, outcome) =>
        if p.started[i].gen == p.gen { FailTrying(cfg, p, now, i); }
      case HedgeFired => StartFallbackTrying(cfg, p.(hedgeTimer := false));
      case RetryFired => StartCycleTrying(cfg, p.(retryTimer := false));
      case Tick(os, switchTo) =>
        CheckExpiryTrying(cfg, p, now);
        StartCycleTrying(cfg, CheckExpiry(p, now));
      case _ =>
    }
  }

  // ----- Whole runs -----

  lemma {:induction false} TotalMonotone(cfg: Config, order: seq<Name>,
                                         ts: map<Name, Transport>, ts': map<Name, Transport>)
    requires (forall n :: n in order ==> n in ts) && NoGain(cfg, ts, ts')
    ensures Total(cfg, order, ts') <= Total(cfg, order, ts)
    ensures forall n :: n in order && Remaining(cfg, n, ts'[n]) <= Remaining(cfg, n, ts[n]) - 1 ==>
              Total(cfg, order, ts') <= Total(cfg, order, ts) - 1
    decreases |order|
  {
    if order != [] {
      TotalMonotone(cfg, order[1..], ts, ts');
      assert forall n :: n in order ==> n == order[0] || n in order[1..];
    }
  }

  ghost predicate QuietRun(cfg: Config, p: Peer, evs: seq<(int, Event)>)
    requires Feasible(cfg, p, evs)
    decreases |evs|
  {
    evs == [] || (Quiet(p, evs[0].1) && QuietRun(cfg, Step(cfg, p, evs[0].0, evs[0].1), evs[1..]))
  }

  ghost function Counted(cfg: Config, p: Peer, evs: seq<(int, Event)>): nat
    requires Feasible(cfg, p, evs)
    decreases |evs|
  {
    if evs == [] then 0
    else (if CountsFailure(p, evs[0].1) then 1 else 0) + Counted(cfg, Step(cfg, p, evs[0].0, evs[0].1), evs[1..])
  }

  /** Failures counted during the run plus the budget left after it never exceed the budget before it. */
  lemma {:induction false} RunSpendsBudget(cfg: Config, p: Peer, evs: seq<(int, Event)>, order: seq<Name>)
    requires Trying(cfg, p) && Feasible(cfg, p, evs) && QuietRun(cfg, p, evs)
    requires forall n :: n in order <==> n in p.transports
    ensures var q := Run(cfg, p, evs);
            && Trying(cfg, q) && (forall n :: n in order <==> n in q.transports)
            && Counted(cfg, p, evs) + Total(cfg, order, q.transports) <= Total(cfg, order, p.transports)
    decreases |evs|
  {
    if evs != [] {
      var (now, e) := evs[0];
      StepTrying(cfg, p, now, e);
      var q := Step(cfg, p, now, e);
      TotalMonotone(cfg, order, p.transports, q.transports);
      RunSpendsBudget(cfg, q, evs[1..], order);
    }
  }

  lemma {:induction false} FreshTotal(cfg: Config, order: seq<Name>, ts: map<Name, Transport>)
    requires cfg.blackout >= 1
    requires forall n :: n in order ==> n in ts && ts[n].failures == 0 && ts[n].quarantineN == 0
    ensures Total(cfg, order, ts) == Budget(cfg, order)
    decreases |order|
  {
    if order != [] { FreshTotal(cfg, order[1..], ts); }
  }

  lemma InitialTrying(cfg: Config, names: seq<Name>)
    requires names != [] && "" !in names && cfg.blackout >= 1
    ensures Trying(cfg, Initial(names))
    ensures forall n :: n in Initial(names).transports <==> n in names
    ensures forall n :: n in names ==> var t := Initial(names).transports[n]; t.failures == 0 && t.quarantineN == 0
  {
    hide Remaining;
    StartCycleTrying(cfg, Peer(Connecting, names, map n | n in names :: FRESH, "", 0, {}, false, false, [], {}));
  }

  /** From Start, a run with no promotion and no Reconnect counts at most
      threshold times blackout threshold failures, summed over the transports. */
  lemma FailureBudget(cfg: Config, names: seq<Name>, evs: seq<(int, Event)>, order: seq<Name>)
    requires names != [] && "" !in names && cfg.blackout >= 1 && forall n :: n in order <==> n in names
    requires Feasible(cfg, Initial(names), evs) && QuietRun(cfg, Initial(names), evs)
    ensures Counted(cfg, Initial(names), evs) <= Budget(cfg, order)
  {
    InitialTrying(cfg, names);
    RunSpendsBudget(cfg, Initial(names), evs, order);
    FreshTotal(cfg, order, Initial(names).transports);
    TotalNonNegative(cfg, order, Run(cfg, Initial(names), evs).transports);
  }

  lemma RemainingBounds(cfg: Config, n: Name, t: Transport)
    ensures 0 <= Remaining(cfg, n, t)
    ensures Remaining(cfg, n, t) == 0 <==> t.quarantineN >= cfg.blackout
  {
    if t.quarantineN < cfg.blackout { MulAtLeast(cfg.blackout - t.quarantineN, Threshold(cfg, n)); }
  }

  lemma MulAtLeast(a: int, k: int)
    requires a >= 1 && k >= 1
    ensures a * k >= k
  {
  }

  lemma {:induction false} TotalNonNegative(cfg: Config, order: seq<Name>, ts: map<Name, Transport>)
    requires forall n :: n in order ==> n in ts
    ensures 0 <= Total(cfg, order, ts)
    ensures Total(cfg, order, ts) == 0 ==> forall n :: n in order ==> ts[n].quarantineN >= cfg.blackout
    decreases |order|
  {
    if order != [] {
      RemainingBounds(cfg, order[0], ts[order[0]]);
      TotalNonNegative(cfg, order[1..], ts);
      assert forall n :: n in order ==> n == order[0] || n in order[1..];
    }
  }

  lemma {:induction false} NoCandidates(names: seq<Name>, ts: map<Name, Transport>)
    requires forall n :: n in names ==> !Available(ts, n)
    ensures Candidates(names, ts) == []
    decreases |names|
  {
    if names != [] { NoCandidates(names[..|names| - 1], ts); }
  }

  lemma SpentMeansFailed(cfg: Config, p: Peer, order: seq<Name>)
    requires Trying(cfg, p) && (forall n :: n in order <==> n in p.transports) && Total(cfg, order, p.transports) == 0
    ensures forall n :: n in p.transports ==> p.transports[n].sub == Failed
  {
    TotalNonNegative(cfg, order, p.transports);
  }

  /** When the budget is spent every transport is failed, and no event but a Reconnect starts a dial. */
  lemma SpentMeansSilent(cfg: Config, p: Peer, order: seq<Name>, now: int, e: Event)
    requires Trying(cfg, p) && (forall n :: n in order <==> n in p.transports) && Total(cfg, order, p.transports) == 0
    requires Enabled(p, e) && Quiet(p, e)
    ensures forall n :: n in p.transports ==> p.transports[n].sub == Failed
    ensures Step(cfg, p, now, e).started == p.started
  {
    TotalNonNegative(cfg, order, p.transports);
    PrimaryChoice(p.names, p.transports);
    NoCandidates(p.names, p.transports);
    assert !AnyExpired(p.transports, now);
    assert (map n | n in p.transports :: Recovered(p.transports[n], now)) == p.transports;
  }

  lemma {:induction false} SilentForever(cfg: Config, p: Peer, order: seq<Name>, evs: seq<(int, Event)>)
    requires Trying(cfg, p) && (forall n :: n in order <==> n in p.transports) && Total(cfg, order, p.transports) == 0
    requires Feasible(cfg, p, evs) && QuietRun(cfg, p, evs)
    ensures Run(cfg, p, evs).started == p.started
    decreases |evs|
  {
    if evs != [] {
      var (now, e) := evs[0];
      var q := Step(cfg, p, now, e);
      StepTrying(cfg, p, now, e);
      SpentMeansSilent(cfg, p, order, now, e);
      TotalMonotone(cfg, order, p.transports, q.transports);
      TotalNonNegative(cfg, order, q.transports);
      hide Trying, Step, Enabled, Quiet, Total;
      SilentForever(cfg, q, order, evs[1..]);
    }
  }

  /** A run from Start that has counted the whole budget leaves every transport failed, and no later
      run without a promotion, a Reconnect or a shutdown starts another dial. */
  lemma SpentForGood(cfg: Config, names: seq<Name>, evs: seq<(int, Event)>, order: seq<Name>, later: seq<(int, Event)>)
    requires names != [] && "" !in names && cfg.blackout >= 1 && forall n :: n in order <==> n in names
    requires Feasible(cfg, Initial(names), evs) && QuietRun(cfg, Initial(names), evs)
    requires Counted(cfg, Initial(names), evs) >= Budget(cfg, order)
    requires var q := Run(cfg, Initial(names), evs); Feasible(cfg, q, later) && QuietRun(cfg, q, later)
    ensures var q := Run(cfg, Initial(names), evs);
            && (forall n :: n in q.transports ==> q.transports[n].sub == Failed)
            && Run(cfg, q, later).started == q.started
  {
    hide Initial, Run, QuietRun, Feasible, Total, Budget, Counted, Trying;
    var q := Run(cfg, Initial(names), evs);
    InitialTrying(cfg, names);
    RunSpendsBudget(cfg, Initial(names), evs, order);
    FreshTotal(cfg, order, Initial(names).transports);
    TotalNonNegative(cfg, order, q.transports);
    SpentMeansFailed(cfg, q, order);
    SilentForever(cfg, q, order, later);
  }
}
