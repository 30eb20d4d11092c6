/** Which transport every event dials, said of the transports' states alone. */
module PeerChoices {
  import opened Options
  import opened PeerInvariants
  import opened PeerState

  /** The transport may be tried: it is neither quarantined nor failed. */
  ghost predicate Usable(ts: map<Name, Transport>, n: Name) {
    n in ts ==> ts[n].sub == Active || ts[n].sub == Dialling || ts[n].sub == Probing
  }

  ghost predicate FirstUsable(names: seq<Name>, ts: map<Name, Transport>, i: nat) {
    i < |names| && Usable(ts, names[i]) && forall j :: 0 <= j < i ==> !Usable(ts, names[j])
  }

  /** `cs` are the names that are to be kept, in the order of `names`; `at` are their positions. */
  ghost predicate Selects(names: seq<Name>, keep: Name -> bool, cs: seq<Name>, at: seq<nat>) {
    && |at| == |cs|
    && (forall m :: 0 <= m < |at| ==> at[m] < |names| && names[at[m]] == cs[m] && keep(cs[m]))
    && (forall m, l :: 0 <= m < l < |at| ==> at[m] < at[l])
    && (forall i :: 0 <= i < |names| && keep(names[i]) ==> i in at)
  }

  lemma SelectsNext(names: seq<Name>, keep: Name -> bool, cs: seq<Name>, at: seq<nat>, n: Name)
    requires Selects(names, keep, cs, at)
    ensures keep(n) ==> Selects(names + [n], keep, cs + [n], at + [|names|])
    ensures !keep(n) ==> Selects(names + [n], keep, cs, at)
  {
    if keep(n) {
      var at' := at + [|names|];
      forall i | 0 <= i < |names| + 1 && keep((names + [n])[i]) ensures i in at' {
        if i < |names| { assert i in at; } else { assert at'[|at|] == i; }
      }
    }
  }

  ghost function IsUsable(ts: map<Name, Transport>): Name -> bool {
    n => Usable(ts, n)
  }

  ghost function IsOther(target: Name): Name -> bool {
    n => n != target
  }

  lemma SelectsNone(keep: Name -> bool)
    ensures Selects([], keep, [], [])
  {
  }

  lemma {:induction false} CandidatesStep(names: seq<Name>, ts: map<Name, Transport>)
    requires names != []
    ensures var k := |names| - 1;
            && IsUsable(ts)(names[k]) == Usable(ts, names[k])
            && Candidates(names, ts) == Candidates(names[..k], ts) + if Usable(ts, names[k]) then [names[k]] else []
  {
  }

  /** Candidates are the usable transports in priority order. */
  lemma {:induction false} CandidatesInOrder(names: seq<Name>, ts: map<Name, Transport>) returns (at: seq<nat>)
    ensures Selects(names, IsUsable(ts), Candidates(names, ts), at)
    decreases |names|
  {
    if names == [] {
      at := [];
      SelectsNone(IsUsable(ts));
    } else {
      hide Selects, Candidates, Usable, IsUsable;
      var k := |names| - 1;
      at := CandidatesInOrder(names[..k], ts);
      CandidatesStep(names, ts);
      assert names == names[..k] + [names[k]];
      SelectsNext(names[..k], IsUsable(ts), Candidates(names[..k], ts), at, names[k]);
      if Usable(ts, names[k]) {
        at := at + [k];
      } else {
        assert Candidates(names[..k], ts) + [] == Candidates(names[..k], ts);
      }
    }
  }

  lemma {:induction false} WithoutStep(names: seq<Name>, target: Name)
    requires names != []
    ensures var k := |names| - 1;
            && IsOther(target)(names[k]) == (names[k] != target)
            && Without(names, target) == Without(names[..k], target) + if names[k] != target then [names[k]] else []
  {
  }

  lemma {:induction false} OthersInOrder(names: seq<Name>, target: Name) returns (at: seq<nat>)
    ensures Selects(names, IsOther(target), Without(names, target), at)
    decreases |names|
  {
    if names == [] {
      at := [];
      SelectsNone(IsOther(target));
    } else {
      hide Selects, Without, IsOther;
      var k := |names| - 1;
      at := OthersInOrder(names[..k], target);
      WithoutStep(names, target);
      assert names == names[..k] + [names[k]];
      SelectsNext(names[..k], IsOther(target), Without(names[..k], target), at, names[k]);
      if names[k] != target {
        at := at + [k];
      } else {
        assert Without(names[..k], target) + [] == Without(names[..k], target);
      }
    }
  }

  /** Reordering moves the target to the front and keeps the others in their order. */
  lemma ReorderInOrder(names: seq<Name>, target: Name) returns (at: seq<nat>)
    ensures var r := Reorder(names, target);
            r != [] && r[0] == target && Selects(names, n => n != target, r[1..], at)
  {
    at := OthersInOrder(names, target);
    hide Without;
    assert Reorder(names, target)[1..] == Without(names, target);
  }

  lemma NoCandidateIff(names: seq<Name>, ts: map<Name, Transport>)
    ensures Candidates(names, ts) == [] <==> forall n :: n in names ==> !Usable(ts, n)
  {
    var at := CandidatesInOrder(names, ts);
    hide Candidates, Usable;
    if n :| n in names && Usable(ts, n) {
      var i :| 0 <= i < |names| && names[i] == n;
      assert i in at;
    }
    if Candidates(names, ts) != [] { assert names[at[0]] in names && Usable(ts, names[at[0]]); }
  }

  /** The first candidate is the first usable name, and there are more exactly when a later name is usable. */
  lemma FirstCandidate(names: seq<Name>, ts: map<Name, Transport>) returns (i: nat)
    requires Candidates(names, ts) != []
    ensures var cs := Candidates(names, ts);
            && FirstUsable(names, ts, i) && cs[0] == names[i]
            && (|cs| > 1 <==> exists j :: i < j < |names| && Usable(ts, names[j]))
  {
    var cs := Candidates(names, ts);
    var at := CandidatesInOrder(names, ts);
    hide Candidates, Usable;
    i := at[0];
    forall j | 0 <= j < |names| && Usable(ts, names[j]) ensures j == i || (i < j && |cs| > 1) {
      assert j in at;
      var m :| 0 <= m < |at| && at[m] == j;
      assert m > 0 ==> at[0] < at[m];
    }
    if |cs| > 1 { assert i < at[1] < |names| && Usable(ts, names[at[1]]); }
  }

  // ----- A new cycle -----

  /** `n` is dialled under a new generation, and nothing else is in flight. */
  ghost predicate Dials(p: Peer, q: Peer, n: Name) {
    && n in p.transports && q.gen == p.gen + 1 && q.started == p.started + [Dial(p.gen + 1, n)] && q.inFlight == {n}
    && q.transports == p.transports[n := p.transports[n].(sub := Dialling)]
  }

  ghost predicate LongestQuarantined(p: Peer, n: Name) {
    && n in p.names && n in p.transports && p.transports[n].sub == Quarantined
    && forall m :: m in p.names && m in p.transports && p.transports[m].sub == Quarantined ==>
         p.transports[n].quarantinedAt <= p.transports[m].quarantinedAt
  }

  /** A cycle dials the first usable transport, and arms the hedge timer exactly when another one is usable.
      With none usable it dials a longest-quarantined one, and with all failed nothing. */
  ghost predicate CycleStarts(p: Peer, q: Peer) {
    if exists n :: n in p.names && Usable(p.transports, n) then
      exists i: nat :: FirstUsable(p.names, p.transports, i) && Dials(p, q, p.names[i]) &&
        q.hedgeTimer == (p.hedgeTimer || exists j :: i < j < |p.names| && Usable(p.transports, p.names[j]))
    else if exists n :: n in p.names && p.transports[n].sub == Quarantined then
      exists n :: LongestQuarantined(p, n) && Dials(p, q, n) && q.hedgeTimer == p.hedgeTimer
    else q.started == p.started && q.gen == p.gen && q.inFlight == {} && q.transports == p.transports &&
         q.hedgeTimer == p.hedgeTimer
  }

  lemma CycleExact(p: Peer)
    ensures NamesOk(p.names, p.transports) ==> CycleStarts(p, StartCycle(p))
  {
    if NamesOk(p.names, p.transports) {
      NoCandidateIff(p.names, p.transports);
      if Candidates(p.names, p.transports) != [] { UsableCycle(p); }
      else { EscapeCycle(p); }
    }
  }

  lemma UsableCycle(p: Peer)
    requires NamesOk(p.names, p.transports) && Candidates(p.names, p.transports) != []
    requires exists n :: n in p.names && Usable(p.transports, n)
    ensures CycleStarts(p, StartCycle(p))
  {
    var i := FirstCandidate(p.names, p.transports);
    assert p.names[i] in p.transports;
    hide Candidates, FirstUsable, Usable, NamesOk, EscapeScan;
    assert Dials(p, StartCycle(p), p.names[i]);
    assert StartCycle(p).hedgeTimer == (p.hedgeTimer || |Candidates(p.names, p.transports)| > 1);
    hide StartCycle, Dials;
  }

  lemma EscapeCycle(p: Peer)
    requires NamesOk(p.names, p.transports) && Candidates(p.names, p.transports) == []
    requires !exists n :: n in p.names && Usable(p.transports, n)
    ensures CycleStarts(p, StartCycle(p))
  {
    EscapeIsOldest(p.names, p.transports, None);
    hide Candidates, EscapeScan, Usable;
    var e := EscapeScan(p.names, p.transports, None);
    if e.Some? {
      assert LongestQuarantined(p, e.value) && Dials(p, StartCycle(p), e.value);
    }
  }

  lemma CycleDialsFirst(p: Peer, i: nat)
    requires NamesOk(p.names, p.transports) && FirstUsable(p.names, p.transports, i)
    ensures Dials(p, StartCycle(p), p.names[i])
    ensures StartCycle(p).hedgeTimer ==
            (p.hedgeTimer || exists j :: i < j < |p.names| && Usable(p.transports, p.names[j]))
  {
    CycleExact(p);
    hide StartCycle, Usable, Dials, NamesOk;
    assert p.names[i] in p.names;
    var k: nat :| FirstUsable(p.names, p.transports, k) && Dials(p, StartCycle(p), p.names[k]) &&
      StartCycle(p).hedgeTimer ==
      (p.hedgeTimer || exists j :: k < j < |p.names| && Usable(p.transports, p.names[j]));
    assert k == i;
  }

  lemma CycleDialsOne(p: Peer, n: Name)
    requires NamesOk(p.names, p.transports) && n in p.names && Usable(p.transports, n)
    ensures |StartCycle(p).started| == |p.started| + 1 && StartCycle(p).inFlight != {}
  {
    CycleExact(p);
    hide StartCycle, Usable, NamesOk, FirstUsable;
  }

  /** What a cycle does when every name has a transport. */
  ghost predicate StartsCycle(p: Peer, q: Peer) {
    NamesOk(p.names, p.transports) ==> DialsOne(p, q) && CycleStarts(p, q)
  }

  lemma CycleKnown(p: Peer)
    ensures StartsCycle(p, StartCycle(p))
  {
    hide DialsOne, CycleStarts, StartCycle, NamesOk;
    StartCycleDials(p);
    CycleExact(p);
  }

  // ----- The hedge -----

  ghost predicate FirstIdleUsable(p: Peer, i: nat) {
    && i < |p.names| && Usable(p.transports, p.names[i]) && p.names[i] !in p.inFlight
    && forall j :: 0 <= j < i ==> !Usable(p.transports, p.names[j]) || p.names[j] in p.inFlight
  }

  /** The hedge dials the first usable transport that is not in flight, and nothing exactly when there is none. */
  ghost predicate HedgeStarts(p: Peer, q: Peer) {
    if exists n :: n in p.names && Usable(p.transports, n) && n !in p.inFlight then
      exists i: nat :: FirstIdleUsable(p, i) && q == StartDial(p, p.names[i])
    else q == p
  }

  lemma {:induction false} FirstIdleExact(cs: seq<Name>, inFlight: set<Name>) returns (i: nat)
    ensures match FirstIdle(cs, inFlight)
            case None => forall n :: n in cs ==> n in inFlight
            case Some(n) => n !in inFlight && i < |cs| && cs[i] == n && forall j :: 0 <= j < i ==> cs[j] in inFlight
    decreases |cs|
  {
    i := 0;
    if cs != [] {
      if cs[0] in inFlight {
        i := FirstIdleExact(cs[1..], inFlight);
        i := i + 1;
        assert cs == [cs[0]] + cs[1..];
        assert forall j :: 1 <= j < |cs| ==> cs[j] == cs[1..][j - 1];
      }
    }
  }

  lemma FallbackExact(p: Peer)
    ensures HedgeStarts(p, StartFallback(p))
  {
    var cs := Candidates(p.names, p.transports);
    var at := CandidatesInOrder(p.names, p.transports);
    var m := FirstIdleExact(cs, p.inFlight);
    hide Candidates, FirstIdle, Usable, StartDial;
    var f := FirstIdle(cs, p.inFlight);
    if f.None? {
      forall n | n in p.names && Usable(p.transports, n) ensures n in p.inFlight {
        var j :| 0 <= j < |p.names| && p.names[j] == n;
        assert j in at;
      }
    } else {
      var i := at[m];
      forall j | 0 <= j < i && Usable(p.transports, p.names[j]) ensures p.names[j] in p.inFlight {
        assert j in at;
        var l :| 0 <= l < |at| && at[l] == j;
      }
      assert FirstIdleUsable(p, i);
      assert p.names[i] in p.names;
    }
  }

  // ----- Start, ticks and switches -----

  /** Start dials the first transport and arms the hedge timer exactly when there are others. */
  lemma StartDials(names: seq<Name>)
    requires names != [] && "" !in names
    ensures var q := Initial(names);
            && q.phase == Connecting && q.started == [Dial(1, names[0])] && q.inFlight == {names[0]}
            && q.hedgeTimer == (|names| > 1) && !q.retryTimer
            && q.transports == map n | n in names :: if n == names[0] then FRESH.(sub := Dialling) else FRESH
  {
    var p := Peer(Connecting, names, map n | n in names :: FRESH, "", 0, {}, false, false, [], {});
    assert NamesOk(p.names, p.transports) && FirstUsable(names, p.transports, 0);
    assert |names| > 1 ==> Usable(p.transports, names[1]);
    hide NamesOk, StartCycle, Usable;
    CycleDialsFirst(p, 0);
    StartCycleRest(p);
  }

  lemma StartCycleRest(p: Peer)
    ensures StartCycle(p).retryTimer == p.retryTimer && (p.phase != Disconnected ==> StartCycle(p).phase == p.phase)
  {
    hide Primary;
  }

  /** A switch dials its target. */
  lemma SwitchDialsTarget(p: Peer, target: Name)
    requires NamesOk(p.names, p.transports) && target in p.transports && Usable(p.transports, target)
    ensures TriggerSwitch(p, target).started == p.started + [Dial(p.gen + 1, target)]
  {
    var q := p.(transports := Displaced(p.transports, p.current), names := Reorder(p.names, target),
                current := "", phase := Connecting);
    ReorderNames(p.names, p.transports, target);
    assert NamesOk(q.names, q.transports) && FirstUsable(q.names, q.transports, 0);
    hide StartCycle, Displaced, Reorder, NamesOk, FirstUsable;
    CycleDialsFirst(q, 0);
  }

  /** A usable target of a switch is dialled. */
  ghost predicate SwitchDials(p: Peer, q: Peer, target: Name) {
    NamesOk(p.names, p.transports) && target in p.transports && Usable(p.transports, target) ==>
      q.started == p.started + [Dial(p.gen + 1, target)]
  }

  lemma SwitchExact(p: Peer, target: Name)
    ensures SwitchDials(p, TriggerSwitch(p, target), target)
  {
    hide TriggerSwitch, NamesOk, Usable;
    if NamesOk(p.names, p.transports) && target in p.transports && Usable(p.transports, target) {
      SwitchDialsTarget(p, target);
    }
  }

  /** A tick while connecting dials one transport if nothing is in flight and some cooldown is over, or some
      transport is usable and no retry is due anyway; otherwise it dials nothing. */
  lemma TickDialsIff(p: Peer, now: int, os: map<Name, ProbeOutcome>, switchTo: Option<Name>)
    requires NamesOk(p.names, p.transports) && p.phase == Connecting
    ensures var over := exists n :: n in p.names && p.transports[n].sub == Quarantined &&
                                    now > p.transports[n].cooldownUntil;
            var usable := exists n :: n in p.names && Usable(p.transports, n);
            |ProbeTick(p, now, os, switchTo).started| ==
            |p.started| + if p.inFlight == {} && (over || (!p.retryTimer && usable)) then 1 else 0
  {
    hide StartCycle, Candidates;
    var q := p.(transports := map n | n in p.transports :: Recovered(p.transports[n], now));
    assert NamesOk(q.names, q.transports);
    NoCandidateIff(q.names, q.transports);
    StartCycleRest(q);
    if n :| n in p.transports && Expired(p.transports[n], now) {
      assert n in p.names && Usable(q.transports, n);
      CycleDialsOne(q, n);
    } else {
      assert q.transports == p.transports;
      if n :| n in p.names && Usable(p.transports, n) { CycleDialsOne(q, n); }
    }
    hide Usable, NamesOk, Recovered;
  }
}
