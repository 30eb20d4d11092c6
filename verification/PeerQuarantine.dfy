/** How long a quarantined transport stays unused, and which events end its quarantine. */
module PeerQuarantine {
  import opened Arithmetic
  import opened Options
  import opened PeerCooldowns
  import opened PeerInvariants
  import opened PeerState

  /** The transport is as before, but for its connection. */
  ghost predicate Holds(ts: map<Name, Transport>, ts': map<Name, Transport>, name: Name)
    requires name in ts
  {
    name in ts' && ts'[name].(conn := ts[name].conn) == ts[name]
  }

  /** Between `p` and `q` a dial of `name` was started. */
  ghost predicate DialsName(p: Peer, q: Peer, name: Name) {
    exists i :: |p.started| <= i < |q.started| && q.started[i].name == name
  }

  // ----- What cycles and checks do to one transport -----

  /** `q` comes from `p` by at most one dial. */
  ghost predicate DialsAtMost(p: Peer, q: Peer, name: Name)
    requires name in p.transports
  {
    && q.names == p.names && name in q.transports
    && (q.started == p.started || exists d :: q.started == p.started + [d])
    && q.transports[name] ==
       if DialsName(p, q, name) then p.transports[name].(sub := Dialling) else p.transports[name]
  }

  lemma StartDialEffect(p: Peer, q: Peer, dialled: Name, name: Name)
    requires name in p.transports && dialled in p.transports && q.names == p.names
    requires q.transports == p.transports[dialled := p.transports[dialled].(sub := Dialling)]
    requires exists gen :: q.started == p.started + [Dial(gen, dialled)]
    ensures DialsAtMost(p, q, name)
  {
    var gen :| q.started == p.started + [Dial(gen, dialled)];
    assert q.started[|p.started|].name == dialled;
    assert DialsName(p, q, name) <==> dialled == name;
  }

  lemma CycleEffect(p: Peer, name: Name)
    requires NamesOk(p.names, p.transports) && name in p.transports
    ensures DialsAtMost(p, StartCycle(p), name)
  {
    var c := CycleChoice(p);
    hide StartCycle, NamesOk;
    var q := StartCycle(p);
    if c.Some? {
      assert q.started == p.started + [Dial(q.gen, c.value)];
      StartDialEffect(p, q, c.value, name);
    }
  }

  lemma FallbackEffect(p: Peer, name: Name)
    requires NamesOk(p.names, p.transports) && name in p.transports
    ensures DialsAtMost(p, StartFallback(p), name)
  {
    var cs := Candidates(p.names, p.transports);
    FirstIdleChoice(cs, p.inFlight);
    var f := FirstIdle(cs, p.inFlight);
    hide FirstIdle;
    if f.Some? {
      CandidatesExact(p.names, p.transports, f.value);
      hide Candidates;
      StartDialEffect(p, StartFallback(p), f.value, name);
    }
  }

  /** An expiry check leaves a quarantine alone until its cooldown is over, and then ends it. */
  ghost predicate Checked(p: Peer, q: Peer, now: int, name: Name)
    requires name in p.transports
  {
    && name in q.transports
    && (now <= p.transports[name].cooldownUntil ==> DialsAtMost(p, q, name))
    && (now > p.transports[name].cooldownUntil ==>
          (q.transports[name].sub == Active || q.transports[name].sub == Dialling) && q.transports[name].failures == 0)
  }

  lemma ExpiryEffect(p: Peer, now: int, name: Name)
    requires NamesOk(p.names, p.transports) && name in p.transports && p.transports[name].sub == Quarantined
    ensures Checked(p, CheckExpiry(p, now), now, name)
  {
    var q := p.(transports := map n | n in p.transports :: Recovered(p.transports[n], now));
    assert NamesOk(q.names, q.transports);
    assert q.transports[name].sub == (if now > p.transports[name].cooldownUntil then Active else Quarantined);
    assert now > p.transports[name].cooldownUntil ==> q.transports[name].failures == 0;
    assert now <= p.transports[name].cooldownUntil ==> q.transports[name] == p.transports[name];
    hide StartCycle, NamesOk, AnyExpired, Recovered;
    CycleEffect(q, name);
  }

  // ----- The events that end a quarantine -----

  /** Once `failed` has failed again, no transport is left to try. */
  ghost predicate NothingLeft(cfg: Config, p: Peer, failed: Name) {
    forall n :: n in p.transports ==>
      if n == failed then p.transports[n].failures + 1 >= Threshold(cfg, n)
      else p.transports[n].sub == Quarantined || p.transports[n].sub == Failed
  }

  /** The event looks for cooldowns that are over: a tick while connecting, or the failure of the last dial
      in flight with no transport left to try. */
  ghost predicate ChecksExpiry(cfg: Config, p: Peer, e: Event) {
    || (e.Tick? && p.phase == Connecting)
    || (e.Dialled? && e.outcome.None? && e.i < |p.started| && p.started[e.i].gen == p.gen &&
        p.inFlight <= {p.started[e.i].name} && NothingLeft(cfg, p, p.started[e.i].name))
  }

  /** The result of a dial of `name` in the current cycle. */
  ghost predicate DialReturns(p: Peer, e: Event, name: Name) {
    e.Dialled? && e.i < |p.started| && p.started[e.i] == Dial(p.gen, name)
  }

  /** A probe of "reality" that is answered or fails for good. */
  ghost predicate ProbeDecides(p: Peer, e: Event, name: Name) {
    && e.Tick? && p.phase == Connected && name == "reality" && name in e.outcomes
    && (e.outcomes[name] == Answered || e.outcomes[name] == Permanent)
  }

  /** `name` is current and loses its connection to another transport. */
  ghost predicate Displaces(p: Peer, e: Event, name: Name) {
    && p.phase == Connected && p.current == name
    && if e.Dialled? then e.outcome.Some? && e.i < |p.started| && p.started[e.i].gen == p.gen
       else e.Tick? && e.switchTo.Some?
  }

  /** What can end a quarantine before its time: Reconnect, a dial of the transport (the escape from a
      blackout), the result of such a dial, the probe of "reality", or the loss of its own connection. */
  ghost predicate EndsEarly(cfg: Config, p: Peer, now: int, e: Event, name: Name)
    requires Enabled(p, e)
  {
    || e.ReconnectCmd? || DialReturns(p, e, name) || ProbeDecides(p, e, name) || Displaces(p, e, name)
    || DialsName(p, Step(cfg, p, now, e), name)
  }

  ghost predicate QuarantinedIn(p: Peer, name: Name) {
    Inv(p) && name in p.transports && p.transports[name].sub == Quarantined
  }

  lemma ConnectingTickEffect(p: Peer, now: int, os: map<Name, ProbeOutcome>, switchTo: Option<Name>, name: Name)
    requires QuarantinedIn(p, name) && p.phase == Connecting
    ensures Checked(p, ProbeTick(p, now, os, switchTo), now, name)
  {
    ExpiryEffect(p, now, name);
    CheckExpirySame(p, now);
    var q := CheckExpiry(p, now);
    hide CheckExpiry, NamesOk, Candidates, StartCycle, Inv;
    CycleEffect(q, name);
  }

  lemma SwitchEffect(p: Peer, target: Name, name: Name)
    requires NamesOk(p.names, p.transports) && target in p.transports && name in p.transports
    requires p.current in p.transports && p.transports[p.current].conn.Some?
    ensures var q, t := TriggerSwitch(p, target), p.transports[name];
            var t' := if name == p.current then t.(conn := None, sub := Active) else t;
            && name in q.transports
            && q.transports[name] == if DialsName(p, q, name) then t'.(sub := Dialling) else t'
  {
    var r := p.(transports := Displaced(p.transports, p.current), names := Reorder(p.names, target),
                current := "", phase := Connecting);
    ReorderNames(p.names, p.transports, target);
    assert NamesOk(r.names, r.transports);
    hide Reorder, NamesOk, StartCycle;
    CycleEffect(r, name);
  }

  lemma ProbeEffect(p: Peer, q: Peer, os: map<Name, ProbeOutcome>, switchTo: Option<Name>, name: Name)
    requires QuarantinedIn(p, name) && p.phase == Connected && q == p.(transports := ProbeAll(p.transports, os))
    ensures NamesOk(q.names, q.transports) && p.current in q.transports && q.transports[p.current].conn.Some?
    ensures var t, t' := p.transports[name], q.transports[name];
            if ProbeDecides(p, Tick(os, switchTo), name) then t'.sub != Quarantined else t' == t
  {
  }

  lemma ConnectedTickEffect(p: Peer, now: int, os: map<Name, ProbeOutcome>, switchTo: Option<Name>, name: Name)
    requires QuarantinedIn(p, name) && p.phase == Connected && MaySwitch(p, os, switchTo)
    ensures var e, q := Tick(os, switchTo), ProbeTick(p, now, os, switchTo);
            Holds(p.transports, q.transports, name) <==>
            !ProbeDecides(p, e, name) && !Displaces(p, e, name) && !DialsName(p, q, name)
  {
    var q := p.(transports := ProbeAll(p.transports, os));
    ProbeEffect(p, q, os, switchTo, name);
    assert switchTo.Some? ==> switchTo.value in q.transports;
    hide NamesOk, TriggerSwitch, Inv, ProbeAll, ProbeDecides, MaySwitch;
    if switchTo.Some? { SwitchEffect(q, switchTo.value, name); }
  }

  lemma NothingLeftIff(cfg: Config, p: Peer, failed: Name, now: int)
    requires NamesOk(p.names, p.transports) && failed in p.transports
    ensures var ts := p.transports[failed := Punished(cfg, failed, p.transports[failed], now)];
            Candidates(p.names, ts) == [] <==> NothingLeft(cfg, p, failed)
  {
    var ts := p.transports[failed := Punished(cfg, failed, p.transports[failed], now)];
    var cs := Candidates(p.names, ts);
    hide Threshold, Cooldown;
    forall n ensures n in cs <==> n in p.names && Available(ts, n) {
      CandidatesExact(p.names, ts, n);
    }
    hide Candidates;
    if cs != [] { assert cs[0] in cs; }
  }

  lemma FailureEffect(cfg: Config, p: Peer, failed: Name, now: int, name: Name)
    requires NamesOk(p.names, p.transports) && failed in p.transports && name in p.transports
    requires p.transports[name].sub == Quarantined && failed != name
    ensures var q := Fail(cfg, p, failed, now);
            if p.inFlight == {} && NothingLeft(cfg, p, failed) then Checked(p, q, now, name)
            else name in q.transports && q.transports[name] == p.transports[name] && q.started == p.started
  {
    NothingLeftIff(cfg, p, failed, now);
    var q := p.(transports := p.transports[failed := Punished(cfg, failed, p.transports[failed], now)],
                hedgeTimer := false);
    assert NamesOk(q.names, q.transports);
    hide Candidates, Punished, NamesOk, CheckExpiry, NothingLeft;
    ExpiryEffect(q, now, name);
  }

  lemma SameNames(p: Peer, q: Peer)
    requires NamesOk(p.names, p.transports) && q.names == p.names && q.transports.Keys == p.transports.Keys
    ensures NamesOk(q.names, q.transports)
  {
    assert forall n :: n in p.transports <==> n in p.transports.Keys;
  }

  /** The transport's own failure counts. */
  lemma OwnFailureEffect(cfg: Config, p: Peer, now: int, name: Name)
    requires NamesOk(p.names, p.transports) && name in p.transports && p.transports[name].sub == Quarantined
    ensures !Holds(p.transports, Fail(cfg, p, name, now).transports, name)
  {
    hide Candidates, CheckExpiry, Cooldown, Threshold;
    var t' := Punished(cfg, name, p.transports[name], now);
    var q := p.(transports := p.transports[name := t'], hedgeTimer := false);
    assert q.transports[name].failures == p.transports[name].failures + 1;
    hide Punished;
    SameNames(p, q);
    hide NamesOk;
    OwnExpiryEffect(q, now, name);
  }

  lemma OwnExpiryEffect(p: Peer, now: int, name: Name)
    requires NamesOk(p.names, p.transports) && name in p.transports
    ensures name in CheckExpiry(p, now).transports
    ensures CheckExpiry(p, now).transports[name].sub == Quarantined ==>
              CheckExpiry(p, now).transports[name].failures == p.transports[name].failures
  {
    var q := p.(transports := map n | n in p.transports :: Recovered(p.transports[n], now));
    assert NamesOk(q.names, q.transports);
    assert q.transports[name] == p.transports[name] || q.transports[name].sub == Active;
    hide StartCycle, NamesOk, AnyExpired, Recovered;
    CycleEffect(q, name);
  }

  lemma DialEffect(cfg: Config, p: Peer, now: int, i: nat, outcome: Option<Conn>, name: Name)
    requires QuarantinedIn(p, name) && i < |p.started|
    ensures var e, q := Dialled(i, outcome), DialDone(cfg, p, now, i, outcome);
            Holds(p.transports, q.transports, name) <==>
            && !DialReturns(p, e, name) && !Displaces(p, e, name) && !DialsName(p, q, name)
            && !(ChecksExpiry(cfg, p, e) && now > p.transports[name].cooldownUntil)
  {
    var d := p.started[i];
    var r := p.(pending := p.pending - {i}, inFlight := p.inFlight - {d.name});
    if d.gen == p.gen && outcome.None? {
      assert r.inFlight == {} <==> p.inFlight <= {d.name};
      assert NothingLeft(cfg, r, d.name) <==> NothingLeft(cfg, p, d.name);
      hide Fail, NothingLeft, NamesOk;
      if d.name == name { OwnFailureEffect(cfg, r, now, name); }
      else { FailureEffect(cfg, r, d.name, now, name); }
    }
  }

  /** In every reachable state an event leaves a quarantine as it is if and only if it is none of the events
      that end one early, and no check for cooldowns that are over at a time after its own. */
  lemma QuarantineEndsIff(cfg: Config, p: Peer, now: int, e: Event, name: Name)
    requires QuarantinedIn(p, name) && Enabled(p, e)
    ensures Holds(p.transports, Step(cfg, p, now, e).transports, name) <==>
            && !EndsEarly(cfg, p, now, e, name)
            && !(ChecksExpiry(cfg, p, e) && now > p.transports[name].cooldownUntil)
  {
    hide DialDone, StartFallback, ProbeTick, StartCycle, NothingLeft;
    match e {
      case Dialled(i, outcome) => DialEffect(cfg, p, now, i, outcome, name);
      case Dropped(_) =>
      case HedgeFired => FallbackEffect(p.(hedgeTimer := false), name);
      case RetryFired => CycleEffect(p.(retryTimer := false), name);
      case Tick(os, switchTo) =>
        if p.phase == Connecting { ConnectingTickEffect(p, now, os, switchTo, name); }
        else { ConnectedTickEffect(p, now, os, switchTo, name); }
      case ReconnectCmd => ReconnectEffect(p, name);
      case Shutdown =>
    }
  }

  lemma ReconnectEffect(p: Peer, name: Name)
    requires NamesOk(p.names, p.transports) && name in p.transports
    ensures name in Reconnect(p).transports && Reconnect(p).transports[name].sub != Quarantined
  {
    var q := p.(transports := ResetAll(p.transports), current := "", inFlight := {},
                hedgeTimer := false, retryTimer := false, phase := Connecting);
    assert NamesOk(q.names, q.transports);
    hide StartCycle, NamesOk;
    CycleEffect(q, name);
  }

  // ----- Over runs -----

  /** No event of the run ends the quarantine early, and none checks for cooldowns after `until`. */
  ghost predicate Undisturbed(cfg: Config, p: Peer, evs: seq<(int, Event)>, name: Name, until: int)
    requires Feasible(cfg, p, evs)
    decreases |evs|
  {
    evs == [] ||
    var (now, e) := evs[0];
    && !EndsEarly(cfg, p, now, e, name) && (now <= until || !ChecksExpiry(cfg, p, e))
    && Undisturbed(cfg, Step(cfg, p, now, e), evs[1..], name, until)
  }

  lemma {:induction false} StaysQuarantined(cfg: Config, p: Peer, evs: seq<(int, Event)>, name: Name)
    requires QuarantinedIn(p, name) && Feasible(cfg, p, evs)
    requires Undisturbed(cfg, p, evs, name, p.transports[name].cooldownUntil)
    ensures Holds(p.transports, Run(cfg, p, evs).transports, name)
    decreases |evs|
  {
    hide Inv, Step, Enabled, EndsEarly, ChecksExpiry;
    if evs != [] {
      var (now, e) := evs[0];
      QuarantineEndsIff(cfg, p, now, e, name);
      StepKeepsInv(cfg, p, now, e);
      StaysQuarantined(cfg, Step(cfg, p, now, e), evs[1..], name);
    }
  }

  lemma PrimaryAvailable(names: seq<Name>, ts: map<Name, Transport>, n: Name)
    requires n in names && Available(ts, n)
    ensures Primary(names, ts).Some? && Available(ts, Primary(names, ts).value.0)
  {
    CandidatesExact(names, ts, n);
    var cs := Candidates(names, ts);
    assert cs[0] in cs;
    CandidatesExact(names, ts, cs[0]);
  }

  /** A check before the end of a cooldown never dials the quarantined transport: it starts a cycle only
      for one that has become available. */
  lemma ExpiryLeaves(p: Peer, now: int, name: Name)
    requires NamesOk(p.names, p.transports) && name in p.transports
    requires p.transports[name].sub == Quarantined && now <= p.transports[name].cooldownUntil
    ensures name in CheckExpiry(p, now).transports && CheckExpiry(p, now).transports[name] == p.transports[name]
  {
    var q := p.(transports := map n | n in p.transports :: Recovered(p.transports[n], now));
    if AnyExpired(p.transports, now) {
      var n :| n in p.transports && Expired(p.transports[n], now);
      PrimaryAvailable(q.names, q.transports, n);
    }
    hide Primary;
  }

  lemma QuarantineBegins(cfg: Config, p: Peer, now: int, e: Event, name: Name)
    requires Inv(p) && Enabled(p, e) && Quarantines(cfg, p, e, name)
    requires p.transports[name].quarantineN + 1 < cfg.blackout && 0 <= Cooldown(cfg, p.transports[name].quarantineN + 1)
    ensures var q := Step(cfg, p, now, e);
            && name in q.transports && q.transports[name].sub == Quarantined
            && q.transports[name].failures == p.transports[name].failures + 1
            && q.transports[name].cooldownUntil == now + Cooldown(cfg, p.transports[name].quarantineN + 1)
  {
    var t := Punished(cfg, name, p.transports[name], now);
    var q := p.(pending := p.pending - {e.i}, inFlight := p.inFlight - {name},
                transports := p.transports[name := t], hedgeTimer := false);
    assert NamesOk(q.names, q.transports);
    hide Cooldown, Threshold, NamesOk, CheckExpiry, Candidates;
    ExpiryLeaves(q, now, name);
  }

  lemma CooldownNatural(cfg: Config, n: nat)
    requires 0 <= cfg.baseCooldown && 0 <= cfg.maxCooldown
    ensures 0 <= Cooldown(cfg, n) == Min(cfg.baseCooldown * Pow(2, n), cfg.maxCooldown)
  {
    CooldownFormula(cfg.baseCooldown, n, cfg.maxCooldown);
    PowPositive(2, n);
    NoZeroProduct(cfg.baseCooldown, Pow(2, n));
  }

  lemma CheckReleases(cfg: Config, p: Peer, now: int, e: Event, name: Name)
    requires QuarantinedIn(p, name) && Enabled(p, e) && ChecksExpiry(cfg, p, e) && !DialReturns(p, e, name)
    requires now > p.transports[name].cooldownUntil
    ensures Released(Step(cfg, p, now, e), name)
  {
    hide ProbeTick, NothingLeft, Fail;
    match e {
      case Tick(os, switchTo) => ConnectingTickEffect(p, now, os, switchTo, name);
      case Dialled(i, _) =>
        var d := p.started[i];
        var r := p.(pending := p.pending - {i}, inFlight := p.inFlight - {d.name});
        assert NothingLeft(cfg, r, d.name) by { NothingLeftSame(cfg, p, r, d.name); }
        FailureEffect(cfg, r, d.name, now, name);
    }
  }

  lemma NothingLeftSame(cfg: Config, p: Peer, q: Peer, failed: Name)
    requires q.transports == p.transports && NothingLeft(cfg, p, failed)
    ensures NothingLeft(cfg, q, failed)
  {
  }

  /** The transport can be dialled, or is, and starts with no failure. */
  ghost predicate Released(p: Peer, name: Name) {
    && name in p.transports && p.transports[name].failures == 0
    && (p.transports[name].sub == Active || p.transports[name].sub == Dialling)
  }

  /** After the run from Start the event quarantines `name` for the k-th time in a row, short of a blackout. */
  ghost predicate KthOf(cfg: Config, names: seq<Name>, evs: seq<(int, Event)>, e: Event, name: Name, k: nat) {
    && names != [] && "" !in names && name in names && Feasible(cfg, Initial(names), evs)
    && Enabled(Run(cfg, Initial(names), evs), e) && Quarantines(cfg, Run(cfg, Initial(names), evs), e, name)
    && k == InARow(cfg, Initial(names), evs, name, 0) + 1 && k < cfg.blackout
  }

  lemma KthBegins(cfg: Config, names: seq<Name>, evs: seq<(int, Event)>, now: int, e: Event, name: Name, k: nat)
    requires KthOf(cfg, names, evs, e, name, k) && 0 <= cfg.baseCooldown && 0 <= cfg.maxCooldown
    ensures var p := Run(cfg, Initial(names), evs);
            var q := Step(cfg, p, now, e);
            && QuarantinedIn(q, name) && q.transports[name].failures == p.transports[name].failures + 1
            && q.transports[name].cooldownUntil == now + Min(cfg.baseCooldown * Pow(2, k), cfg.maxCooldown)
  {
    hide Inv, Step, Enabled, Initial, InARow, Quarantines, Clears, Feasible, Run, Cooldown;
    InitialInv(names);
    InitialCounts(names, name);
    CountsInARow(cfg, Initial(names), evs, name);
    RunKeepsInv(cfg, Initial(names), evs);
    var p := Run(cfg, Initial(names), evs);
    CooldownNatural(cfg, k);
    QuarantineBegins(cfg, p, now, e, name);
    StepKeepsInv(cfg, p, now, e);
  }

  /** From Start, in every run: the k-th quarantine in a row lasts for min(base * 2^k, max). Until then nothing
      but the events that end it early makes the transport available or resets its failures. */
  lemma QuarantineLasts(cfg: Config, names: seq<Name>, evs: seq<(int, Event)>, now: int, e: Event, name: Name, k: nat,
                        later: seq<(int, Event)>)
    requires KthOf(cfg, names, evs, e, name, k) && 0 <= cfg.baseCooldown && 0 <= cfg.maxCooldown
    requires var q := Step(cfg, Run(cfg, Initial(names), evs), now, e);
             && Feasible(cfg, q, later)
             && Undisturbed(cfg, q, later, name, now + Min(cfg.baseCooldown * Pow(2, k), cfg.maxCooldown))
    ensures var p := Run(cfg, Initial(names), evs);
            var q := Run(cfg, Step(cfg, p, now, e), later);
            && name in q.transports && q.transports[name].sub == Quarantined
            && q.transports[name].failures == p.transports[name].failures + 1
  {
    hide Inv, Step, Enabled, Initial, InARow, Quarantines, Feasible, Run, Undisturbed;
    KthBegins(cfg, names, evs, now, e, name, k);
    StaysQuarantined(cfg, Step(cfg, Run(cfg, Initial(names), evs), now, e), later, name);
  }

  /** The first check after that time ends it, with the failures forgotten. */
  lemma QuarantineIsOver(cfg: Config, names: seq<Name>, evs: seq<(int, Event)>, now: int, e: Event, name: Name, k: nat,
                         later: seq<(int, Event)>, time: int, check: Event)
    requires KthOf(cfg, names, evs, e, name, k) && 0 <= cfg.baseCooldown && 0 <= cfg.maxCooldown
    requires time > now + Min(cfg.baseCooldown * Pow(2, k), cfg.maxCooldown)
    requires var q := Step(cfg, Run(cfg, Initial(names), evs), now, e);
             && Feasible(cfg, q, later)
             && Undisturbed(cfg, q, later, name, now + Min(cfg.baseCooldown * Pow(2, k), cfg.maxCooldown))
             && var r := Run(cfg, q, later);
                Enabled(r, check) && ChecksExpiry(cfg, r, check) && !DialReturns(r, check, name)
    ensures var q := Step(cfg, Run(cfg, Initial(names), evs), now, e);
            Released(Step(cfg, Run(cfg, q, later), time, check), name)
  {
    hide Inv, Step, Enabled, Initial, InARow, Quarantines, Feasible, Run, Undisturbed;
    hide ChecksExpiry, DialReturns, Released;
    KthBegins(cfg, names, evs, now, e, name, k);
    var q := Step(cfg, Run(cfg, Initial(names), evs), now, e);
    StaysQuarantined(cfg, q, later, name);
    RunKeepsInv(cfg, q, later);
    CheckReleases(cfg, Run(cfg, q, later), time, check, name);
  }

  /** With the default 30 s and 5 min a first quarantine lasts 60 s, not the documented 30 s. */
  lemma FirstLastsSixty(cfg: Config, names: seq<Name>, evs: seq<(int, Event)>, now: int, e: Event, name: Name,
                        later: seq<(int, Event)>)
    requires KthOf(cfg, names, evs, e, name, 1) && cfg.baseCooldown == 30 && cfg.maxCooldown == 300
    requires var q := Step(cfg, Run(cfg, Initial(names), evs), now, e);
             Feasible(cfg, q, later) && Undisturbed(cfg, q, later, name, now + 60)
    ensures var q := Run(cfg, Step(cfg, Run(cfg, Initial(names), evs), now, e), later);
            name in q.transports && q.transports[name].sub == Quarantined
  {
    hide Inv, Step, Enabled, Initial, InARow, Quarantines, Feasible, Run, Undisturbed;
    assert Pow(2, 1) == 2 * Pow(2, 0);
    QuarantineLasts(cfg, names, evs, now, e, name, 1, later);
  }
}
