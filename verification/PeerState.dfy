/** The per-peer connection state and what each event of the management loop does to it. */
module PeerState {
  import opened Arithmetic
  import opened Options

  type Name = string
  type Conn = nat

  datatype PeerPhase = Disconnected | Connecting | Connected

  datatype SubState = Active | Dialling | Probing | Quarantined | Failed

  const ZERO_TIME: int := 0

  datatype Transport = Transport(
    sub: SubState,
    conn: Option<Conn>,
    failures: nat,
    quarantineN: nat,
    quarantinedAt: int,
    cooldownUntil: int)

  const FRESH: Transport := Transport(Active, None, 0, 0, ZERO_TIME, ZERO_TIME)

  /** One launched dial goroutine. */
  datatype Dial = Dial(gen: nat, name: Name)

  datatype Config = Config(thresholds: map<Name, int>, blackout: int, baseCooldown: int, maxCooldown: int)

  /** `started` lists every dial launched so far; `pending` holds the indices of those whose
      result the loop has not received. */
  datatype Peer = Peer(
    phase: PeerPhase,
    names: seq<Name>,
    transports: map<Name, Transport>,
    current: Name,
    gen: nat,
    inFlight: set<Name>,
    hedgeTimer: bool,
    retryTimer: bool,
    started: seq<Dial>,
    pending: set<nat>)

  function Threshold(cfg: Config, name: Name): (t: nat)
    ensures t >= 1
  {
    if name in cfg.thresholds && cfg.thresholds[name] > 0 then cfg.thresholds[name]
    else if name == "websocket" || name == "reality" then 2
    else 3
  }

  function Min(a: int, b: int): int {
    if a <= b then a else b
  }

  /** Doubles `d` up to `n` times, stopping at `max`. */
  function CooldownFrom(d: int, n: nat, max: int): int
    decreases n
  {
    if n == 0 then Min(d, max) else if 2 * d > max then max else CooldownFrom(2 * d, n - 1, max)
  }

  function Cooldown(cfg: Config, n: nat): int {
    CooldownFrom(cfg.baseCooldown, n, cfg.maxCooldown)
  }

  /** The n-th quarantine lasts min(base * 2^n, max). */
  lemma {:induction false} CooldownFormula(d: int, n: nat, max: int)
    requires 0 <= d
    ensures CooldownFrom(d, n, max) == Min(d * Pow(2, n), max)
    decreases n
  {
    if n > 0 {
      assert d * Pow(2, n) == 2 * d * Pow(2, n - 1);
      if 2 * d > max {
        PowPositive(2, n - 1);
        assert 2 * d * Pow(2, n - 1) >= 2 * d;
      } else {
        CooldownFormula(2 * d, n - 1, max);
      }
    }
  }

  predicate Available(ts: map<Name, Transport>, name: Name) {
    name !in ts || (ts[name].sub != Quarantined && ts[name].sub != Failed)
  }

  function Candidates(names: seq<Name>, ts: map<Name, Transport>): seq<Name> {
    if names == [] then []
    else
      var n := |names| - 1;
      Candidates(names[..n], ts) + if Available(ts, names[n]) then [names[n]] else []
  }

  /** The blackout escape scan, carrying the best choice so far. */
  function EscapeScan(names: seq<Name>, ts: map<Name, Transport>, best: Option<Name>): Option<Name>
    requires best.Some? ==> best.value in ts
  {
    if names == [] then best
    else if names[0] !in ts then Some(names[0])
    else
      var t := ts[names[0]];
      EscapeScan(names[1..], ts,
        if t.sub == Quarantined && (best.None? || t.quarantinedAt < ts[best.value].quarantinedAt)
        then Some(names[0]) else best)
  }

  function StateOf(ts: map<Name, Transport>, name: Name): Transport {
    if name in ts then ts[name] else FRESH
  }

  function StartDial(p: Peer, name: Name): Peer {
    p.(inFlight := p.inFlight + {name},
       transports := p.transports[name := StateOf(p.transports, name).(sub := Dialling)],
       started := p.started + [Dial(p.gen, name)],
       pending := p.pending + {|p.started|})
  }

  function CancelInFlight(p: Peer): Peer {
    p.(inFlight := {}, phase := if p.phase == Connected then Connected else Connecting)
  }

  /** Primary candidate of a new cycle, and whether a fallback is available for hedging. */
  function Primary(names: seq<Name>, ts: map<Name, Transport>): Option<(Name, bool)> {
    var cs := Candidates(names, ts);
    if cs != [] then Some((cs[0], |cs| > 1))
    else match EscapeScan(names, ts, None)
      case Some(e) => Some((e, false))
      case None => None
  }

  function StartCycle(p: Peer): Peer {
    var q := CancelInFlight(p);
    match Primary(q.names, q.transports)
    case None => q
    case Some((name, hedge)) =>
      var r := StartDial(q.(gen := q.gen + 1), name);
      if hedge then r.(hedgeTimer := true) else r
  }

  function FirstIdle(cs: seq<Name>, inFlight: set<Name>): Option<Name> {
    if cs == [] then None else if cs[0] !in inFlight then Some(cs[0]) else FirstIdle(cs[1..], inFlight)
  }

  function StartFallback(p: Peer): Peer {
    match FirstIdle(Candidates(p.names, p.transports), p.inFlight)
    case None => p
    case Some(name) => StartDial(p, name)
  }

  // ----- Dial results -----

  function Promoted(t: Transport, conn: Conn): Transport {
    t.(sub := Active, failures := 0, quarantineN := 0, conn := Some(conn))
  }

  /** Closing the connection of a transport that is replaced leaves it idle-ready. */
  function Displaced(ts: map<Name, Transport>, current: Name): map<Name, Transport> {
    if current in ts && ts[current].conn.Some? then ts[current := ts[current].(conn := None, sub := Active)] else ts
  }

  function Succeed(p: Peer, name: Name, conn: Conn): Peer {
    var ts := p.transports[name := Promoted(StateOf(p.transports, name), conn)];
    p.(transports := if p.current != "" && p.current != name then Displaced(ts, p.current) else ts,
       current := name, inFlight := {}, hedgeTimer := false, retryTimer := false, phase := Connected)
  }

  /** One more failure: below the threshold the transport stays available, at the threshold it
      is quarantined, and with too many quarantines it is blacked out. */
  function Punished(cfg: Config, name: Name, t: Transport, now: int): Transport {
    if t.failures + 1 >= Threshold(cfg, name) then
      t.(failures := t.failures + 1, quarantineN := t.quarantineN + 1, quarantinedAt := now,
         cooldownUntil := now + Cooldown(cfg, t.quarantineN + 1),
         sub := if t.quarantineN + 1 >= cfg.blackout then Failed else Quarantined)
    else
      t.(failures := t.failures + 1, sub := Active)
  }

  predicate Expired(t: Transport, now: int) {
    t.sub == Quarantined && now > t.cooldownUntil
  }

  function Recovered(t: Transport, now: int): Transport {
    if Expired(t, now) then t.(sub := Active, failures := 0, quarantinedAt := ZERO_TIME) else t
  }

  predicate AnyExpired(ts: map<Name, Transport>, now: int) {
    exists n :: n in ts && Expired(ts[n], now)
  }

  function CheckExpiry(p: Peer, now: int): Peer {
    var q := p.(transports := map n | n in p.transports :: Recovered(p.transports[n], now));
    if AnyExpired(p.transports, now) && p.phase == Connecting && p.inFlight == {} then StartCycle(q) else q
  }

  function AllDialsFailed(p: Peer, now: int): Peer {
    if Candidates(p.names, p.transports) != [] then p.(retryTimer := true) else CheckExpiry(p, now)
  }

  function Fail(cfg: Config, p: Peer, name: Name, now: int): Peer {
    var q := p.(transports := p.transports[name := Punished(cfg, name, StateOf(p.transports, name), now)]);
    if q.inFlight == {} then AllDialsFailed(q.(hedgeTimer := false), now) else q
  }

  /** Results of an older cycle are dropped. */
  function DialDone(cfg: Config, p: Peer, now: int, i: nat, outcome: Option<Conn>): Peer
    requires i < |p.started|
  {
    var d := p.started[i];
    var q := p.(pending := p.pending - {i});
    if d.gen != p.gen then q
    else
      var r := q.(inFlight := q.inFlight - {d.name});
      match outcome
      case Some(conn) => Succeed(r, d.name, conn)
      case None => Fail(cfg, r, d.name, now)
  }

  // ----- Probe ticks -----

  datatype ProbeOutcome = Skipped | Permanent | Transient | Answered

  /** Quarantined and failed transports are left alone, except a quarantined "reality". */
  function Probed(name: Name, t: Transport, o: ProbeOutcome): Transport {
    if t.sub == Failed || (t.sub == Quarantined && name != "reality") then t
    else match o
      case Skipped => t
      case Permanent => t.(sub := Failed)
      case Transient => t
      case Answered => t.(sub := Active)
  }

  function ProbeAll(ts: map<Name, Transport>, os: map<Name, ProbeOutcome>): map<Name, Transport> {
    map n | n in ts :: Probed(n, ts[n], if n in os then os[n] else Skipped)
  }

  function Reorder(names: seq<Name>, target: Name): seq<Name> {
    [target] + Without(names, target)
  }

  function Without(names: seq<Name>, target: Name): seq<Name> {
    if names == [] then []
    else
      var n := |names| - 1;
      Without(names[..n], target) + if names[n] != target then [names[n]] else []
  }

  function TriggerSwitch(p: Peer, target: Name): Peer {
    StartCycle(p.(transports := Displaced(p.transports, p.current), names := Reorder(p.names, target),
                  current := "", phase := Connecting))
  }

  /** `switchTo` is the alternative that path scoring has found better for long enough, if any. */
  function ProbeTick(p: Peer, now: int, os: map<Name, ProbeOutcome>, switchTo: Option<Name>): Peer {
    match p.phase
    case Disconnected => p
    case Connecting =>
      var q := CheckExpiry(p, now);
      if !q.retryTimer && q.inFlight == {} && Candidates(q.names, q.transports) != [] then StartCycle(q) else q
    case Connected =>
      var q := p.(transports := ProbeAll(p.transports, os));
      match switchTo
      case None => q
      case Some(b) => TriggerSwitch(q, b)
  }

  // ----- Commands -----

  function ResetAll(ts: map<Name, Transport>): map<Name, Transport> {
    map n | n in ts :: FRESH
  }

  function Reconnect(p: Peer): Peer {
    StartCycle(p.(transports := ResetAll(p.transports), current := "", inFlight := {},
                  hedgeTimer := false, retryTimer := false, phase := Connecting))
  }

  function CloseAll(ts: map<Name, Transport>): map<Name, Transport> {
    map n | n in ts :: ts[n].(conn := None)
  }

  function Cleanup(p: Peer): Peer {
    p.(inFlight := {}, hedgeTimer := false, retryTimer := false, current := "", phase := Disconnected,
       transports := CloseAll(p.transports))
  }

  // ----- Runs -----

  /** `Dropped` is a dial goroutine that gives up after its context was cancelled. */
  datatype Event =
    | Dialled(i: nat, outcome: Option<Conn>)
    | Dropped(i: nat)
    | HedgeFired
    | RetryFired
    | Tick(outcomes: map<Name, ProbeOutcome>, switchTo: Option<Name>)
    | ReconnectCmd
    | Shutdown

  /** Path scoring only ever picks another transport that is neither quarantined nor failed. */
  predicate MaySwitch(p: Peer, os: map<Name, ProbeOutcome>, switchTo: Option<Name>) {
    switchTo.Some? ==>
      var ts := ProbeAll(p.transports, os);
      p.current != "" && switchTo.value != p.current && switchTo.value in ts && Available(ts, switchTo.value)
  }

  predicate Enabled(p: Peer, e: Event) {
    p.phase != Disconnected &&
    match e
    case Dialled(i, _) => i in p.pending && i < |p.started|
    case Dropped(i) => i in p.pending
    case HedgeFired => p.hedgeTimer
    case RetryFired => p.retryTimer
    case Tick(os, switchTo) => p.phase == Connected ==> MaySwitch(p, os, switchTo)
    case ReconnectCmd => true
    case Shutdown => true
  }

  function Step(cfg: Config, p: Peer, now: int, e: Event): Peer
    requires Enabled(p, e)
  {
    match e
    case Dialled(i, outcome) => DialDone(cfg, p, now, i, outcome)
    case Dropped(i) => p.(pending := p.pending - {i})
    case HedgeFired => StartFallback(p.(hedgeTimer := false))
    case RetryFired => StartCycle(p.(retryTimer := false))
    case Tick(os, switchTo) => ProbeTick(p, now, os, switchTo)
    case ReconnectCmd => Reconnect(p)
    case Shutdown => Cleanup(p)
  }

  /** The state right after Start: connecting, with the first cycle begun. */
  function Initial(names: seq<Name>): Peer {
    StartCycle(Peer(Connecting, names, map n | n in names :: FRESH, "", 0, {}, false, false, [], {}))
  }

  /** Timestamped events that can happen one after another. */
  ghost predicate Feasible(cfg: Config, p: Peer, evs: seq<(int, Event)>)
    decreases |evs|
  {
    evs == [] || (Enabled(p, evs[0].1) && Feasible(cfg, Step(cfg, p, evs[0].0, evs[0].1), evs[1..]))
  }

  ghost function Run(cfg: Config, p: Peer, evs: seq<(int, Event)>): Peer
    requires Feasible(cfg, p, evs)
    decreases |evs|
  {
    if evs == [] then p else Run(cfg, Step(cfg, p, evs[0].0, evs[0].1), evs[1..])
  }
}
