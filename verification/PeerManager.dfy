/** The per-peer manager object. Only its own loop touches these fields. The clock reading,
    probe outcomes and the path-scoring verdict are inputs. */
module PeerManagers {
  import opened Arithmetic
  import opened Options
  import opened PeerChoices
  import opened PeerInvariants
  import opened PeerState

  class PeerManager {
    const cfg: Config
    var phase: PeerPhase
    var transportNames: seq<Name>
    var transportStates: map<Name, Transport>
    var currentTransport: Name
    var connectGen: nat
    var inFlight: set<Name>
    var hedgeTimer: bool
    var retryTimer: bool
    /** The dial goroutines launched so far, and those whose result has not been received. */
    var started: seq<Dial>
    ghost var pending: set<nat>

    ghost function View(): Peer
      reads this
    {
      Peer(phase, transportNames, transportStates, currentTransport, connectGen, inFlight, hedgeTimer, retryTimer,
           started, pending)
    }

    /** NewPeerManager followed by a successful Start. */
    constructor (cfg: Config, names: seq<Name>)
      requires names != []
      ensures this.cfg == cfg && View() == Initial(names)
    {
      this.cfg := cfg;
      phase, transportNames, currentTransport := Connecting, names, "";
      transportStates := map n | n in names :: FRESH;
      connectGen, inFlight, hedgeTimer, retryTimer := 0, {}, false, false;
      started, pending := [], {};
      new;
      StartConnectCycle();
    }

    // ----- The management loop -----

    /** One turn of the loop, whatever its select picks, keeps the one-connection invariant. */
    method Dispatch(now: int, e: Event)
      requires Inv(View()) && Enabled(View(), e)
      modifies this
      ensures View() == Step(cfg, old(View()), now, e) && Inv(View())
    {
      StepKeepsInv(cfg, View(), now, e);
      hide Inv, DialDone, StartFallback, StartCycle, ProbeTick, Reconnect, Cleanup;
      match e {
        case Dialled(i, outcome) => HandleDialResult(now, started[i].gen, started[i].name, outcome, i);
        case Dropped(i) => pending := pending - {i};
        case HedgeFired =>
          hedgeTimer := false;
          StartFallbackDial();
        case RetryFired =>
          retryTimer := false;
          StartConnectCycle();
        case Tick(outcomes, switchTo) => OnProbeTick(now, outcomes, switchTo);
        case ReconnectCmd => HandleReconnect();
        case Shutdown => ShutDown();
      }
    }

    /** The loop over any feasible sequence of events. */
    method Serve(evs: seq<(int, Event)>)
      requires Inv(View()) && Feasible(cfg, View(), evs)
      modifies this
      ensures View() == Run(cfg, old(View()), evs) && Inv(View())
    {
      hide Inv, Step, Enabled;
      assert evs[0..] == evs;
      for n := 0 to |evs|
        invariant Inv(View()) && Feasible(cfg, View(), evs[n..])
        invariant Run(cfg, View(), evs[n..]) == Run(cfg, old(View()), evs)
      {
        assert evs[n..][0] == evs[n] && evs[n..][1..] == evs[n + 1..];
        Dispatch(evs[n].0, evs[n].1);
      }
    }

    // ----- Connect cycle -----

    method StartConnectCycle()
      modifies this
      ensures View() == StartCycle(old(View()))
      ensures StartsCycle(old(View()), View())
    {
      hide StartsCycle, Candidates, EscapeScan, StartDial;
      CycleKnown(View());
      inFlight := {};
      if phase != Connected {
        phase := Connecting;
      }
      var candidates := CandidateTransports();
      if |candidates| == 0 {
        candidates := BlackoutEscapeCandidates();
        if |candidates| == 0 {
          return;
        }
      }
      var primary := candidates[0];
      connectGen := connectGen + 1;
      LaunchDial(primary);
      if |candidates| > 1 {
        hedgeTimer := true;
      }
    }

    method StartFallbackDial()
      modifies this
      ensures View() == StartFallback(old(View())) && DialsIdle(old(View()), View()) && HedgeStarts(old(View()), View())
    {
      StartFallbackDials(View());
      FallbackExact(View());
      hide DialsIdle, HedgeStarts;
      var candidates := CandidateTransports();
      for i := 0 to |candidates|
        invariant View() == old(View())
        invariant FirstIdle(candidates, inFlight) == FirstIdle(candidates[i..], inFlight)
      {
        if candidates[i] !in inFlight {
          LaunchDial(candidates[i]);
          return;
        }
        assert candidates[i..][1..] == candidates[i + 1..];
      }
    }

    method LaunchDial(name: Name)
      modifies this
      ensures View() == StartDial(old(View()), name)
    {
      inFlight := inFlight + {name};
      transportStates := transportStates[name := StateOf(transportStates, name).(sub := Dialling)];
      pending := pending + {|started|};
      started := started + [Dial(connectGen, name)];
    }

    method HandleDialResult(now: int, gen: nat, name: Name, outcome: Option<Conn>, ghost i: nat)
      requires i < |started| && started[i] == Dial(gen, name)
      modifies this
      ensures View() == DialDone(cfg, old(View()), now, i, outcome)
      ensures gen != old(connectGen) ==> View() == old(View()).(pending := old(pending) - {i})
      ensures gen == old(connectGen) && outcome.Some? ==>
                Promotes(old(currentTransport), old(transportStates), View(), name, outcome.value)
    {
      hide Fail, Succeed, Promotes;
      pending := pending - {i};
      if gen != connectGen {
        return;
      }
      inFlight := inFlight - {name};
      if outcome.Some? {
        Promote(name, outcome.value);
      } else {
        HandleFailure(now, name);
      }
    }

    method HandleFailure(now: int, name: Name)
      modifies this
      ensures View() == Fail(cfg, old(View()), name, now)
    {
      hide Punished, AllDialsFailed, Threshold, Cooldown, Min, Pow;
      RecordFailure(now, name);
      if |inFlight| == 0 {
        hedgeTimer := false;
        OnAllDialsFailed(now);
      }
    }

    method Promote(name: Name, conn: Conn)
      modifies this
      ensures View() == Succeed(old(View()), name, conn)
      ensures Promotes(old(currentTransport), old(transportStates), View(), name, conn)
    {
      SucceedPromotes(View(), name, conn);
      hide Displaced, Promotes;
      transportStates := transportStates[name := Promoted(StateOf(transportStates, name), conn)];
      if currentTransport != "" && currentTransport != name {
        CloseCurrent();
      }
      currentTransport := name;
      inFlight := {};
      hedgeTimer, retryTimer := false, false;
      phase := Connected;
    }

    method CloseCurrent()
      modifies this`transportStates
      ensures transportStates == Displaced(old(transportStates), currentTransport)
    {
      if currentTransport in transportStates && transportStates[currentTransport].conn.Some? {
        transportStates :=
          transportStates[currentTransport := transportStates[currentTransport].(conn := None, sub := Active)];
      }
    }

    method RecordFailure(now: int, name: Name)
      modifies this`transportStates
      ensures transportStates ==
              old(transportStates)[name := Punished(cfg, name, StateOf(old(transportStates), name), now)]
      ensures transportStates[name].failures == StateOf(old(transportStates), name).failures + 1
      ensures var t, t' := StateOf(old(transportStates), name), transportStates[name];
              if t.failures + 1 < Threshold(cfg, name) then t'.sub == Active && t'.quarantineN == t.quarantineN
              else
                && t'.quarantineN == t.quarantineN + 1 && t'.quarantinedAt == now
                && (t'.sub == Failed <==> t'.quarantineN >= cfg.blackout)
                && (t'.sub != Failed ==> t'.sub == Quarantined)
                && (0 <= cfg.baseCooldown ==>
                      t'.cooldownUntil == now + Min(cfg.baseCooldown * Pow(2, t'.quarantineN), cfg.maxCooldown))
    {
      var ts := StateOf(transportStates, name);
      ts := ts.(failures := ts.failures + 1);
      if ts.failures >= Threshold(cfg, name) {
        var cooldown := CooldownDuration(ts.quarantineN + 1);
        ts := ts.(quarantineN := ts.quarantineN + 1, sub := Quarantined, quarantinedAt := now,
                  cooldownUntil := now + cooldown);
        if ts.quarantineN >= cfg.blackout {
          ts := ts.(sub := Failed);
        }
      } else {
        ts := ts.(sub := Active);
      }
      transportStates := transportStates[name := ts];
    }

    method OnAllDialsFailed(now: int)
      modifies this
      ensures View() == AllDialsFailed(old(View()), now)
      ensures View() == if exists n :: n in old(transportNames) && Usable(old(transportStates), n)
                        then old(View()).(retryTimer := true) else CheckExpiry(old(View()), now)
    {
      NoCandidateIff(transportNames, transportStates);
      hide Usable, CheckExpiry;
      var candidates := CandidateTransports();
      if |candidates| > 0 {
        retryTimer := true;
        return;
      }
      CheckQuarantineExpiry(now);
    }

    // ----- Probe tick -----

    method OnProbeTick(now: int, outcomes: map<Name, ProbeOutcome>, switchTo: Option<Name>)
      modifies this
      ensures View() == ProbeTick(old(View()), now, outcomes, switchTo)
    {
      match phase {
        case Connecting =>
          CheckQuarantineExpiry(now);
          if !retryTimer && |inFlight| == 0 {
            var candidates := CandidateTransports();
            if |candidates| > 0 {
              StartConnectCycle();
            }
          }
        case Connected =>
          ProbeTransports(outcomes);
          if switchTo.Some? {
            SwitchTo(switchTo.value);
          }
        case Disconnected =>
      }
    }

    method CheckQuarantineExpiry(now: int)
      modifies this
      ensures View() == CheckExpiry(old(View()), now)
      ensures (forall n :: n in old(transportStates) && old(transportStates)[n].sub == Quarantined ==>
                 now <= old(transportStates)[n].cooldownUntil) ==> View() == old(View())
    {
      var anyExpired := RecoverExpired(now);
      if anyExpired && phase == Connecting && |inFlight| == 0 {
        StartConnectCycle();
      }
    }

    method RecoverExpired(now: int) returns (anyExpired: bool)
      modifies this`transportStates
      ensures transportStates == map n | n in old(transportStates) :: Recovered(old(transportStates)[n], now)
      ensures forall n :: n in old(transportStates) ==>
                var t := old(transportStates)[n];
                transportStates[n] ==
                if t.sub == Quarantined && now > t.cooldownUntil
                then t.(sub := Active, failures := 0, quarantinedAt := ZERO_TIME) else t
      ensures anyExpired == AnyExpired(old(transportStates), now)
    {
      anyExpired := false;
      var left := transportStates.Keys;
      while left != {}
        invariant left <= transportStates.Keys == old(transportStates).Keys
        invariant forall n :: n in transportStates ==>
                    transportStates[n] == if n in left then old(transportStates)[n]
                      else Recovered(old(transportStates)[n], now)
        invariant anyExpired <==>
                    exists n :: n in old(transportStates) && n !in left && Expired(old(transportStates)[n], now)
      {
        var n :| n in left;
        left := left - {n};
        var ts := transportStates[n];
        if ts.sub == Quarantined && now > ts.cooldownUntil {
          transportStates := transportStates[n := ts.(sub := Active, failures := 0, quarantinedAt := ZERO_TIME)];
          anyExpired := true;
        }
      }
    }

    method ProbeTransports(outcomes: map<Name, ProbeOutcome>)
      modifies this`transportStates
      ensures transportStates == ProbeAll(old(transportStates), outcomes)
      ensures forall n :: n in old(transportStates) &&
                          (old(transportStates)[n].sub == Failed ||
                           (old(transportStates)[n].sub == Quarantined && n != "reality")) ==>
                transportStates[n] == old(transportStates)[n]
      ensures forall n :: n in old(transportStates) &&
                          (Usable(old(transportStates), n) ||
                           (old(transportStates)[n].sub == Quarantined && n == "reality")) ==>
                var t, o := old(transportStates)[n], if n in outcomes then outcomes[n] else Skipped;
                transportStates[n] ==
                if o == Permanent then t.(sub := Failed) else if o == Answered then t.(sub := Active) else t
    {
      var left := transportStates.Keys;
      while left != {}
        invariant left <= transportStates.Keys == old(transportStates).Keys
        invariant forall n :: n in transportStates ==>
                    transportStates[n] == if n in left then old(transportStates)[n]
                      else Probed(n, old(transportStates)[n], if n in outcomes then outcomes[n] else Skipped)
      {
        var n :| n in left;
        left := left - {n};
        var ts := transportStates[n];
        if (ts.sub == Quarantined && n != "reality") || ts.sub == Failed || n !in outcomes {
          continue;
        }
        match outcomes[n] {
          case Permanent => transportStates := transportStates[n := ts.(sub := Failed)];
          case Answered => transportStates := transportStates[n := ts.(sub := Active)];
          case _ =>
        }
      }
    }

    method SwitchTo(target: Name)
      modifies this
      ensures View() == TriggerSwitch(old(View()), target)
      ensures SwitchesTo(old(View()), View(), target) && SwitchDials(old(View()), View(), target)
    {
      hide SwitchDials, StartsCycle;
      TriggerSwitches(View(), target);
      SwitchExact(View(), target);
      hide StartCycle, Displaced, NamesOk, SwitchesTo;
      CloseCurrent();
      transportNames := ReorderTransports(target);
      currentTransport := "";
      phase := Connecting;
      StartConnectCycle();
    }

    // ----- Commands -----

    method HandleReconnect()
      modifies this
      ensures View() == Reconnect(old(View()))
      ensures NamesOk(old(transportNames), old(transportStates)) ==> StartsAfresh(old(View()), View())
    {
      ReconnectFresh(View());
      hide StartCycle, ResetAll, NamesOk, StartsAfresh, StartsCycle;
      ResetTransports();
      currentTransport := "";
      inFlight := {};
      hedgeTimer, retryTimer := false, false;
      phase := Connecting;
      StartConnectCycle();
    }

    method ResetTransports()
      modifies this`transportStates
      ensures transportStates == ResetAll(old(transportStates))
    {
      var left := transportStates.Keys;
      while left != {}
        invariant left <= transportStates.Keys == old(transportStates).Keys
        invariant forall n :: n in transportStates && n !in left ==> transportStates[n] == FRESH
      {
        var n :| n in left;
        left := left - {n};
        transportStates := transportStates[n := Transport(Active, None, 0, 0, ZERO_TIME, ZERO_TIME)];
      }
    }

    method ShutDown()
      modifies this
      ensures View() == Cleanup(old(View()))
      ensures phase == Disconnected && forall n :: n in transportStates ==> transportStates[n].conn.None?
    {
      inFlight := {};
      hedgeTimer, retryTimer := false, false;
      CloseTransports();
      currentTransport := "";
      phase := Disconnected;
    }

    method CloseTransports()
      modifies this`transportStates
      ensures transportStates == CloseAll(old(transportStates))
    {
      var left := transportStates.Keys;
      while left != {}
        invariant left <= transportStates.Keys == old(transportStates).Keys
        invariant forall n :: n in transportStates ==>
                    transportStates[n] == if n in left then old(transportStates)[n]
                      else old(transportStates)[n].(conn := None)
      {
        var n :| n in left;
        left := left - {n};
        if transportStates[n].conn.Some? {
          transportStates := transportStates[n := transportStates[n].(conn := None)];
        }
      }
    }

    // ----- Helpers -----

    method CandidateTransports() returns (result: seq<Name>)
      ensures result == Candidates(transportNames, transportStates)
    {
      result := [];
      for i := 0 to |transportNames|
        invariant result == Candidates(transportNames[..i], transportStates)
      {
        var name := transportNames[i];
        assert transportNames[..i + 1][..i] == transportNames[..i];
        if name !in transportStates ||
          (transportStates[name].sub != Quarantined && transportStates[name].sub != Failed) {
          result := result + [name];
        }
      }
      assert transportNames[..|transportNames|] == transportNames;
    }

    method BlackoutEscapeCandidates() returns (result: seq<Name>)
      ensures var e := EscapeScan(transportNames, transportStates, None);
              result == if e.Some? then [e.value] else []
    {
      var best: Option<Name> := None;
      for i := 0 to |transportNames|
        invariant best.Some? ==> best.value in transportStates
        invariant EscapeScan(transportNames, transportStates, None) ==
                  EscapeScan(transportNames[i..], transportStates, best)
      {
        var name := transportNames[i];
        assert transportNames[i..][1..] == transportNames[i + 1..];
        if name !in transportStates {
          return [name];
        }
        var ts := transportStates[name];
        if ts.sub == Quarantined && (best.None? || ts.quarantinedAt < transportStates[best.value].quarantinedAt) {
          best := Some(name);
        }
      }
      result := if best.Some? then [best.value] else [];
    }

    method ReorderTransports(target: Name) returns (result: seq<Name>)
      ensures result == Reorder(transportNames, target)
    {
      result := [target];
      for i := 0 to |transportNames|
        invariant result == [target] + Without(transportNames[..i], target)
      {
        assert transportNames[..i + 1][..i] == transportNames[..i];
        if transportNames[i] != target {
          result := result + [transportNames[i]];
        }
      }
      assert transportNames[..|transportNames|] == transportNames;
    }

    method CooldownDuration(n: nat) returns (d: int)
      ensures d == Cooldown(cfg, n)
      ensures 0 <= cfg.baseCooldown ==> d == Min(cfg.baseCooldown * Pow(2, n), cfg.maxCooldown)
    {
      if 0 <= cfg.baseCooldown { CooldownFormula(cfg.baseCooldown, n, cfg.maxCooldown); }
      d := cfg.baseCooldown;
      for i := 0 to n
        invariant Cooldown(cfg, n) == CooldownFrom(d, n - i, cfg.maxCooldown)
      {
        d := 2 * d;
        if d > cfg.maxCooldown {
          return cfg.maxCooldown;
        }
      }
      if d > cfg.maxCooldown {
        return cfg.maxCooldown;
      }
    }
  }

  /** A peer without transports is refused. */
  method StartPeer(cfg: Config, names: seq<Name>) returns (r: Option<PeerManager>)
    ensures r.None? <==> names == []
    ensures r.Some? ==> fresh(r.value) && r.value.cfg == cfg && r.value.View() == Initial(names)
  {
    if |names| == 0 {
      return None;
    }
    var pm := new PeerManager(cfg, names);
    return Some(pm);
  }
}
