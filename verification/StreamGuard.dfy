/** Throttling of unauthenticated UDP stream creation, per source address. Times are nanoseconds. */
module StreamGuards {
  import opened Options

  type Key = string

  const SECOND: int := 1_000_000_000
  const WINDOW: int := 10 * SECOND
  const COOLDOWN: int := 60 * SECOND
  const MAX_IN_WINDOW: nat := 5
  const MAX_GUARDS: nat := 1024

  /** `blockUntil` is None until the source has been blocked once. */
  datatype Guard = Guard(count: nat, windowStart: int, blockUntil: Option<int>)

  predicate Blocked(g: Option<Guard>, now: int) {
    g.Some? && g.value.blockUntil.Some? && now < g.value.blockUntil.value
  }

  /** Counts one creation, in a new window if the old one is over, and blocks at the fifth. */
  function Recorded(g: Option<Guard>, now: int): Guard {
    var open := if g.None? then Guard(0, now, None)
                else if now - g.value.windowStart > WINDOW then g.value.(count := 0, windowStart := now)
                else g.value;
    if open.count + 1 >= MAX_IN_WINDOW then Guard(0, open.windowStart, Some(now + COOLDOWN))
    else open.(count := open.count + 1)
  }

  /** The window is over and no block is in force. */
  predicate Spent(g: Option<Guard>, now: int) {
    g.None? || (now > g.value.windowStart + WINDOW && (g.value.blockUntil.Some? ==> now > g.value.blockUntil.value))
  }

  function Lookup(guards: map<Key, Guard>, k: Key): Option<Guard> {
    if k in guards then Some(guards[k]) else None
  }

  function Cleaned(guards: map<Key, Guard>, now: int): map<Key, Guard> {
    if |guards| > MAX_GUARDS then map k | k in guards && !Spent(Some(guards[k]), now) :: guards[k] else guards
  }

  datatype Mux = Mux(streams: set<Key>, guards: map<Key, Guard>)

  datatype Event = Packet(key: Key) | Closed(key: Key)

  /** A packet creates a stream unless there is one already or the source is blocked. */
  predicate Creates(m: Mux, now: int, e: Event) {
    e.Packet? && e.key !in m.streams && !Blocked(Lookup(m.guards, e.key), now)
  }

  function Step(m: Mux, now: int, e: Event): Mux {
    if e.Closed? then m.(streams := m.streams - {e.key})
    else if !Creates(m, now, e) then m
    else Mux(m.streams + {e.key}, Cleaned(m.guards[e.key := Recorded(Lookup(m.guards, e.key), now)], now))
  }

  class UdpMeshManager {
    var streams: set<Key>
    var meshCreateGuard: map<Key, Guard>

    ghost function View(): Mux
      reads this
    {
      Mux(streams, meshCreateGuard)
    }

    constructor ()
      ensures View() == Mux({}, map[])
    {
      streams, meshCreateGuard := {}, map[];
    }

    method RouteMeshPacket(now: int, key: Key) returns (created: bool)
      modifies this
      ensures created <==> Creates(old(View()), now, Packet(key))
      ensures View() == Step(old(View()), now, Packet(key))
    {
      if key in streams {
        return false;
      }
      if key in meshCreateGuard && meshCreateGuard[key].blockUntil.Some? &&
        now < meshCreateGuard[key].blockUntil.value {
        return false;
      }
      streams := streams + {key};
      RecordMeshCreate(now, key);
      return true;
    }

    method RecordMeshCreate(now: int, key: Key)
      modifies this`meshCreateGuard
      ensures meshCreateGuard ==
              Cleaned(old(meshCreateGuard)[key := Recorded(Lookup(old(meshCreateGuard), key), now)], now)
      ensures forall k :: k in old(meshCreateGuard) && k != key && |old(meshCreateGuard).Keys + {key}| > 1024 ==>
                var g := old(meshCreateGuard)[k];
                var over := now > g.windowStart + 10_000_000_000 && (g.blockUntil.Some? ==> now > g.blockUntil.value);
                k in meshCreateGuard <==> !over
    {
      var st := if key in meshCreateGuard then meshCreateGuard[key] else Guard(0, now, None);
      if now - st.windowStart > WINDOW {
        st := st.(count := 0, windowStart := now);
      }
      st := st.(count := st.count + 1);
      if st.count >= MAX_IN_WINDOW {
        st := st.(blockUntil := Some(now + COOLDOWN), count := 0);
      }
      meshCreateGuard := meshCreateGuard[key := st];
      if |meshCreateGuard| > MAX_GUARDS {
        ghost var before := meshCreateGuard;
        var left := meshCreateGuard.Keys;
        while left != {}
          invariant left <= before.Keys
          invariant forall k :: k in meshCreateGuard <==> k in before && (k in left || !Spent(Some(before[k]), now))
          invariant forall k :: k in meshCreateGuard ==> meshCreateGuard[k] == before[k]
        {
          var k :| k in left;
          left := left - {k};
          var s := meshCreateGuard[k];
          if now > s.windowStart + WINDOW && (s.blockUntil.None? || now > s.blockUntil.value) {
            meshCreateGuard := meshCreateGuard - {k};
          }
        }
        assert meshCreateGuard == Cleaned(before, now);
      }
    }

    method StreamClosed(key: Key)
      modifies this
      ensures forall now :: View() == Step(old(View()), now, Closed(key))
    {
      streams := streams - {key};
    }
  }
}

/** How many streams one source can open, over every run. */
module StreamRate {
  import opened Collections
  import opened Options
  import opened StreamGuards

  // ----- Guards that cannot be told apart any more -----

  predicate BlockOver(b: Option<int>, now: int) {
    b.None? || b.value < now
  }

  /** From `now` on, both guards lead to the same decisions. */
  predicate Alike(g: Option<Guard>, h: Option<Guard>, now: int) {
    || (Spent(g, now) && Spent(h, now))
    || (&& g.Some? && h.Some? && g.value.count == h.value.count && g.value.windowStart == h.value.windowStart
        && (g.value.blockUntil == h.value.blockUntil ||
            (BlockOver(g.value.blockUntil, now) && BlockOver(h.value.blockUntil, now))))
  }

  lemma AlikeDecides(g: Option<Guard>, h: Option<Guard>, now: int, later: int)
    requires Alike(g, h, now) && now <= later
    ensures Blocked(g, later) <==> Blocked(h, later)
    ensures Alike(g, h, later)
    ensures Alike(Some(Recorded(g, later)), Some(Recorded(h, later)), later)
  {
  }

  lemma AlikeTransitive(f: Option<Guard>, g: Option<Guard>, h: Option<Guard>, now: int)
    requires Alike(f, g, now) && (g == h || (Spent(g, now) && Spent(h, now)))
    ensures Alike(f, h, now)
  {
  }

  // ----- Runs -----

  type Run = seq<(int, Event)>

  function After(run: Run): Mux {
    if run == [] then Mux({}, map[]) else Step(After(run[..|run| - 1]), run[|run| - 1].0, run[|run| - 1].1)
  }

  /** The times at which streams of source `k` were created. */
  function CreatedAt(run: Run, k: Key): seq<int> {
    if run == [] then []
    else
      var n := |run| - 1;
      var creates := run[n].1.key == k && Creates(After(run[..n]), run[n].0, run[n].1);
      CreatedAt(run[..n], k) + if creates then [run[n].0] else []
  }

  lemma CreatedStep(run: Run, k: Key)
    requires run != []
    ensures var n := |run| - 1;
            CreatedAt(run, k) == if run[n].1.key == k && Creates(After(run[..n]), run[n].0, run[n].1)
                                 then CreatedAt(run[..n], k) + [run[n].0] else CreatedAt(run[..n], k)
  {
  }

  /** The guard that a source's creations alone would leave, with no clean-up ever. */
  function GuardAfter(ts: seq<int>): Option<Guard> {
    if ts == [] then None else Some(Recorded(GuardAfter(ts[..|ts| - 1]), ts[|ts| - 1]))
  }

  /** Creations at nondecreasing times, none of them while the guard blocks. */
  ghost predicate Admitted(ts: seq<int>) {
    && Ascending(ts)
    && forall i :: 0 <= i < |ts| ==> !Blocked(GuardAfter(ts[..i]), ts[i])
  }

  lemma CleanedAlike(guards: map<Key, Guard>, now: int, k: Key)
    ensures Lookup(Cleaned(guards, now), k) == Lookup(guards, k) ||
            (Spent(Lookup(guards, k), now) && Spent(Lookup(Cleaned(guards, now), k), now))
  {
  }

  /** Clean-up is invisible: the stored guard of every source always decides like the one
      its own creations would have left. */
  lemma {:induction false} GuardTracksCreations(run: Run, k: Key, now: int)
    requires ClockMonotone(run) && (run != [] ==> run[|run| - 1].0 <= now)
    ensures Alike(GuardAfter(CreatedAt(run, k)), Lookup(After(run).guards, k), now)
    decreases |run|
  {
    if run != [] {
      var n := |run| - 1;
      var m, t, e := After(run[..n]), run[n].0, run[n].1;
      CreatedStep(run, k);
      GuardTracksCreations(run[..n], k, t);
      var ts, before := CreatedAt(run[..n], k), Lookup(m.guards, k);
      if Creates(m, t, e) {
        var guards := m.guards[e.key := Recorded(Lookup(m.guards, e.key), t)];
        CleanedAlike(guards, t, k);
        if e.key == k {
          AlikeDecides(GuardAfter(ts), before, t, t);
          assert (ts + [t])[..|ts|] == ts;
          AlikeTransitive(GuardAfter(ts + [t]), Lookup(guards, k), Lookup(After(run).guards, k), t);
          AlikeDecides(GuardAfter(ts + [t]), Lookup(After(run).guards, k), t, now);
        } else {
          AlikeTransitive(GuardAfter(ts), Lookup(guards, k), Lookup(After(run).guards, k), t);
          AlikeDecides(GuardAfter(ts), Lookup(After(run).guards, k), t, now);
        }
      } else {
        AlikeDecides(GuardAfter(ts), before, t, now);
      }
    }
  }

  lemma {:induction false} CreationsAdmitted(run: Run, k: Key)
    requires ClockMonotone(run)
    ensures Admitted(CreatedAt(run, k))
    ensures forall i :: 0 <= i < |CreatedAt(run, k)| ==> CreatedAt(run, k)[i] <= run[|run| - 1].0
    decreases |run|
  {
    if run != [] {
      var n := |run| - 1;
      CreationsAdmitted(run[..n], k);
      var ts, m := CreatedAt(run[..n], k), After(run[..n]);
      CreatedStep(run, k);
      hide CreatedAt, Creates;
      if run[n].1.key == k && Creates(m, run[n].0, run[n].1) {
        NotBlocked(run, k);
        AdmittedExtend(ts, run[n].0);
      }
    }
  }

  lemma NotBlocked(run: Run, k: Key)
    requires ClockMonotone(run) && run != []
    requires run[|run| - 1].1.key == k && Creates(After(run[..|run| - 1]), run[|run| - 1].0, run[|run| - 1].1)
    ensures !Blocked(GuardAfter(CreatedAt(run[..|run| - 1], k)), run[|run| - 1].0)
  {
    var n := |run| - 1;
    GuardTracksCreations(run[..n], k, run[n].0);
    AlikeDecides(GuardAfter(CreatedAt(run[..n], k)), Lookup(After(run[..n]).guards, k), run[n].0, run[n].0);
  }

  lemma AdmittedExtend(ts: seq<int>, t: int)
    requires Admitted(ts) && !Blocked(GuardAfter(ts), t) && forall i :: 0 <= i < |ts| ==> ts[i] <= t
    ensures Admitted(ts + [t])
  {
    var ts' := ts + [t];
    forall i | 0 <= i < |ts'| ensures !Blocked(GuardAfter(ts'[..i]), ts'[i]) {
      assert ts'[..i] == ts[..i];
      if i == |ts| { assert ts[..i] == ts; }
    }
  }

  // ----- The bound -----

  /** Creation number `k` opened the current window, which holds every creation since. */
  ghost predicate CurrentWindow(ts: seq<int>, k: nat) {
    var n, g := |ts|, GuardAfter(ts);
    && k < n <= k + MAX_IN_WINDOW && g.Some? && g.value.windowStart == ts[k]
    && (if n - k == MAX_IN_WINDOW then g.value.blockUntil == Some(ts[n - 1] + COOLDOWN) else g.value.count == n - k)
    && (k >= 4 ==> ts[k] - ts[k - 4] > WINDOW)
  }

  predicate FarApart(ts: seq<int>, i: nat)
    requires i + 8 < |ts|
  {
    ts[i + 8] - ts[i] > WINDOW
  }

  ghost predicate NineSpread(ts: seq<int>) {
    forall i :: 0 <= i < |ts| - 8 ==> FarApart(ts, i)
  }

  ghost predicate Ascending(ts: seq<int>) {
    forall i, j :: 0 <= i < j < |ts| ==> ts[i] <= ts[j]
  }

  /** A source blocked at its fifth creation can only continue in a new window. */
  lemma BlockedMeansNewWindow(ts: seq<int>, j: nat, t: int)
    requires CurrentWindow(ts, j) && !Blocked(GuardAfter(ts), t) && Ascending(ts) && ts[|ts| - 1] <= t
    ensures |ts| - j == MAX_IN_WINDOW ==> t - ts[|ts| - 1] >= COOLDOWN && t - ts[j] > WINDOW
  {
    hide GuardAfter;
    assert ts[j] <= ts[|ts| - 1];
  }

  lemma SpreadStep(ts: seq<int>, j: nat, t: int)
    requires |ts| >= 8 && CurrentWindow(ts, j) && !Blocked(GuardAfter(ts), t) && Ascending(ts) && ts[|ts| - 1] <= t
    ensures t - ts[|ts| - 8] > WINDOW
  {
    BlockedMeansNewWindow(ts, j, t);
    hide GuardAfter;
    var n := |ts|;
    if t - ts[j] > WINDOW { assert ts[n - 8] <= ts[j]; }
    else { assert ts[n - 8] <= ts[j - 4] && ts[j] <= ts[n - 1]; }
  }

  lemma SameWindow(ts: seq<int>, j: nat, t: int)
    requires ts != [] && CurrentWindow(ts, j) && |ts| - j < MAX_IN_WINDOW && t - ts[j] <= WINDOW
    ensures CurrentWindow(ts + [t], j)
  {
    GuardStep(ts, t);
    hide GuardAfter;
    assert (ts + [t])[j] == ts[j] && (j >= 4 ==> (ts + [t])[j - 4] == ts[j - 4]);
  }

  /** Four creations before a new window began, all of the old window or its opening lay between. */
  lemma NewWindow(ts: seq<int>, j: nat, t: int)
    requires ts != [] && CurrentWindow(ts, j) && Ascending(ts) && t - ts[j] > WINDOW
    requires |ts| - j == MAX_IN_WINDOW ==> t - ts[|ts| - 1] > WINDOW
    ensures CurrentWindow(ts + [t], |ts|)
  {
    var n := |ts|;
    assert n >= 4 ==> ts[n - 4] <= ts[if n - j == MAX_IN_WINDOW then n - 1 else j];
    GuardStep(ts, t);
    hide GuardAfter, Ascending;
    assert (ts + [t])[n] == t && (n >= 4 ==> (ts + [t])[n - 4] == ts[n - 4]);
  }

  lemma NextCreation(ts: seq<int>, j: nat, t: int)
    requires ts != [] && CurrentWindow(ts, j) && !Blocked(GuardAfter(ts), t) && Ascending(ts) && ts[|ts| - 1] <= t
    ensures j < |ts| && CurrentWindow(ts + [t], if t - ts[j] > WINDOW then |ts| else j)
  {
    hide GuardAfter, Ascending, Recorded;
    BlockedMeansNewWindow(ts, j, t);
    if t - ts[j] > WINDOW { NewWindow(ts, j, t); } else { SameWindow(ts, j, t); }
  }

  lemma GuardStep(ts: seq<int>, t: int)
    ensures GuardAfter(ts + [t]) == Some(Recorded(GuardAfter(ts), t))
  {
    assert (ts + [t])[..|ts|] == ts;
  }

  lemma SpreadExtend(ts: seq<int>, t: int)
    requires NineSpread(ts) && (|ts| >= 8 ==> t - ts[|ts| - 8] > WINDOW)
    ensures NineSpread(ts + [t])
  {
    forall i | 0 <= i < |ts + [t]| - 8 ensures FarApart(ts + [t], i) {
      if i + 8 < |ts| { assert FarApart(ts, i); }
    }
  }

  lemma FirstCreation(t: int)
    ensures CurrentWindow([t], 0) && NineSpread([t])
  {
    assert [t][..0] == [];
    assert GuardAfter([t]) == Some(Recorded(None, t));
  }

  /** Any nine creations of one source take more than ten seconds. */
  lemma {:induction false} NineTakeLonger(ts: seq<int>) returns (k: nat)
    requires Admitted(ts) && ts != []
    ensures CurrentWindow(ts, k) && NineSpread(ts)
    decreases |ts|
  {
    hide GuardAfter, Blocked, Admitted, Ascending, CurrentWindow, NineSpread;
    var n := |ts| - 1;
    var before, t := ts[..n], ts[n];
    assert ts == before + [t];
    if before == [] {
      FirstCreation(t);
      return 0;
    }
    LastAdmitted(ts);
    var j := NineTakeLonger(before);
    NextCreation(before, j, t);
    if n >= 8 { SpreadStep(before, j, t); }
    SpreadExtend(before, t);
    k := if t - before[j] > WINDOW then n else j;
  }

  lemma LastAdmitted(ts: seq<int>)
    requires Admitted(ts) && |ts| > 1
    ensures var n := |ts| - 1;
            && Admitted(ts[..n]) && !Blocked(GuardAfter(ts[..n]), ts[n])
            && Ascending(ts[..n]) && ts[..n][n - 1] <= ts[n]
  {
    AdmittedPrefix(ts, |ts| - 1);
  }

  lemma AdmittedPrefix(ts: seq<int>, n: nat)
    requires Admitted(ts) && n <= |ts|
    ensures Admitted(ts[..n])
  {
    forall i | 0 <= i < n ensures !Blocked(GuardAfter(ts[..n][..i]), ts[..n][i]) {
      assert ts[..n][..i] == ts[..i];
    }
  }

  /** How many of the times lie between `lo` and `hi`, both included. */
  function CountIn(ts: seq<int>, lo: int, hi: int): nat {
    if ts == [] then 0 else CountIn(ts[..|ts| - 1], lo, hi) + if lo <= ts[|ts| - 1] <= hi then 1 else 0
  }

  lemma {:induction false} CountSplit(ts: seq<int>, m: nat, lo: int, hi: int)
    requires m <= |ts|
    ensures CountIn(ts, lo, hi) <= CountIn(ts[..m], lo, hi) + (|ts| - m)
    decreases |ts|
  {
    if m < |ts| {
      assert ts[..|ts| - 1][..m] == ts[..m];
      CountSplit(ts[..|ts| - 1], m, lo, hi);
    } else {
      assert ts[..m] == ts;
    }
  }

  lemma {:induction false} CountNone(ts: seq<int>, lo: int, hi: int)
    requires forall i :: 0 <= i < |ts| ==> ts[i] < lo
    ensures CountIn(ts, lo, hi) == 0
  {
    if ts != [] { CountNone(ts[..|ts| - 1], lo, hi); }
  }

  lemma {:induction false} SpanHoldsEight(ts: seq<int>, start: int)
    requires Ascending(ts) && NineSpread(ts)
    ensures CountIn(ts, start, start + WINDOW) <= 8
    decreases |ts|
  {
    var n, hi := |ts| - 1, start + WINDOW;
    if |ts| > 8 {
      if start <= ts[n] <= hi {
        assert FarApart(ts, n - 8);
        var early := ts[..n - 7];
        assert forall i :: 0 <= i < |early| ==> early[i] <= ts[n - 8];
        CountNone(early, start, hi);
        CountSplit(ts, n - 7, start, hi);
      } else {
        assert forall i :: 0 <= i < n - 8 && FarApart(ts, i) ==> FarApart(ts[..n], i);
        SpanHoldsEight(ts[..n], start);
      }
    } else {
      assert ts[..0] == [];
      CountSplit(ts, 0, start, hi);
    }
  }

  /** However packets interleave, no ten-second span holds more than eight new streams of one source. */
  lemma AtMostEight(run: Run, k: Key, start: int)
    requires ClockMonotone(run)
    ensures CountIn(CreatedAt(run, k), start, start + 10_000_000_000) <= 8
  {
    var ts := CreatedAt(run, k);
    CreationsAdmitted(run, k);
    if ts != [] {
      var _ := NineTakeLonger(ts);
      SpanHoldsEight(ts, start);
    }
  }

  // ----- When a source is blocked -----

  /** The creation that opened the current window: the last one more than ten seconds after the opening of
      the window before. */
  function Opener(ts: seq<int>): (o: nat)
    requires ts != []
    ensures o < |ts|
  {
    var n := |ts| - 1;
    if n == 0 || ts[n] - ts[Opener(ts[..n])] > 10_000_000_000 then n else Opener(ts[..n])
  }

  /** The guard counts the creations of the current window, and blocks for a minute at the fifth. */
  ghost predicate WindowExact(ts: seq<int>)
    requires ts != []
  {
    var n, o, g := |ts|, Opener(ts), GuardAfter(ts);
    && o < n <= o + 5 && g.Some? && g.value.windowStart == ts[o]
    && (if n - o == 5 then g.value.blockUntil == Some(ts[n - 1] + 60_000_000_000)
        else g.value.count == n - o && (g.value.blockUntil.Some? ==> g.value.blockUntil.value <= ts[n - 1]))
  }

  lemma WindowStep(ts: seq<int>, t: int)
    requires ts != [] && WindowExact(ts) && !Blocked(GuardAfter(ts), t) && ts[|ts| - 1] <= t && Ascending(ts)
    ensures WindowExact(ts + [t])
  {
    hide GuardAfter, Opener;
    GuardStep(ts, t);
    OpenerStep(ts, t);
    assert ts[Opener(ts)] <= ts[|ts| - 1];
    hide Ascending;
  }

  lemma OpenerStep(ts: seq<int>, t: int)
    requires ts != []
    ensures Opener(ts + [t]) == if t - ts[Opener(ts)] > 10_000_000_000 then |ts| else Opener(ts)
  {
    assert (ts + [t])[..|ts|] == ts;
  }

  lemma WindowFirst(t: int)
    ensures WindowExact([t])
  {
    assert [t][..0] == [] && GuardAfter([t]) == Some(Recorded(None, t));
  }

  lemma {:induction false} WindowsExact(ts: seq<int>)
    requires Admitted(ts) && ts != []
    ensures WindowExact(ts)
    decreases |ts|
  {
    hide GuardAfter, Blocked, Admitted, Ascending, WindowExact;
    var n := |ts| - 1;
    assert ts == ts[..n] + [ts[n]];
    if n == 0 {
      WindowFirst(ts[0]);
    } else {
      LastAdmitted(ts);
      WindowsExact(ts[..n]);
      WindowStep(ts[..n], ts[n]);
    }
  }

  /** Event `i` creates a stream of `k`, which no later event closes. */
  ghost predicate StillOpen(run: Run, k: Key, i: nat) {
    && i < |run| && run[i].1.key == k && Creates(After(run[..i]), run[i].0, run[i].1)
    && forall j :: i < j < |run| ==> run[j].1 != Closed(k)
  }

  /** A source has a stream if and only if one was created and not closed since. */
  lemma {:induction false} OpenIff(run: Run, k: Key)
    ensures k in After(run).streams <==> exists i: nat :: StillOpen(run, k, i)
    decreases |run|
  {
    if run != [] {
      var n := |run| - 1;
      var before := run[..n];
      OpenIff(before, k);
      forall i: nat | i < n ensures before[..i] == run[..i] && before[i] == run[i] {}
      if i: nat :| StillOpen(before, k, i) {
        if run[n].1 != Closed(k) { assert StillOpen(run, k, i); }
      }
      if i: nat :| StillOpen(run, k, i) {
        if i < n { assert StillOpen(before, k, i); }
      }
      if run[n].1.key == k && Creates(After(before), run[n].0, run[n].1) { assert StillOpen(run, k, n); }
    }
  }

  /** However packets interleave, a packet of a source creates a stream if and only if the source has none,
      and its last creation was not the fifth of its ten-second window or was a minute ago. */
  lemma CreatesExactly(run: Run, k: Key, now: int)
    requires ClockMonotone(run) && (run != [] ==> run[|run| - 1].0 <= now)
    ensures var ts := CreatedAt(run, k);
            Creates(After(run), now, Packet(k)) <==>
            k !in After(run).streams &&
            !(ts != [] && |ts| - Opener(ts) == 5 && now < ts[|ts| - 1] + 60_000_000_000)
  {
    var ts := CreatedAt(run, k);
    CreationsAdmitted(run, k);
    GuardTracksCreations(run, k, now);
    hide After, CreatedAt;
    AlikeDecides(GuardAfter(ts), Lookup(After(run).guards, k), now, now);
    if ts != [] {
      assert ts[|ts| - 1] <= now;
      hide Alike, Recorded, GuardAfter, Opener, Admitted;
      WindowsExact(ts);
    }
  }

  // ----- The bound is reached -----

  /** One packet at each of the times, each stream closed before the next packet. */
  function Packets(ts: seq<int>, k: Key): Run {
    if ts == [] then []
    else Packets(ts[..|ts| - 1], k) + [(ts[|ts| - 1], Packet(k)), (ts[|ts| - 1], Closed(k))]
  }

  lemma {:induction false} PacketsInOrder(ts: seq<int>, k: Key)
    requires Ascending(ts)
    ensures ClockMonotone(Packets(ts, k))
    ensures forall i :: 0 <= i < |Packets(ts, k)| ==> ts != [] && Packets(ts, k)[i].0 <= ts[|ts| - 1]
    decreases |ts|
  {
    if ts != [] { PacketsInOrder(ts[..|ts| - 1], k); }
  }

  lemma PacketsSteps(ts: seq<int>, k: Key)
    requires ts != []
    ensures var n := |ts| - 1;
            var before, live := Packets(ts[..n], k), Packets(ts[..n], k) + [(ts[n], Packet(k))];
            && After(live) == Step(After(before), ts[n], Packet(k))
            && After(Packets(ts, k)) == Step(After(live), ts[n], Closed(k))
            && CreatedAt(live, k) ==
               CreatedAt(before, k) + (if Creates(After(before), ts[n], Packet(k)) then [ts[n]] else [])
            && CreatedAt(Packets(ts, k), k) == CreatedAt(live, k)
  {
    var n := |ts| - 1;
    var before, live := Packets(ts[..n], k), Packets(ts[..n], k) + [(ts[n], Packet(k))];
    assert live[..|live| - 1] == before;
    assert Packets(ts, k)[..|live|] == live && |Packets(ts, k)| == |live| + 1;
    CreatedStep(live, k);
    CreatedStep(Packets(ts, k), k);
    hide CreatedAt, Step;
  }

  /** Every admitted schedule of creations is that of some run. */
  lemma {:induction false} ScheduleRealised(ts: seq<int>, k: Key)
    requires Admitted(ts)
    ensures ClockMonotone(Packets(ts, k)) && CreatedAt(Packets(ts, k), k) == ts && k !in After(Packets(ts, k)).streams
    decreases |ts|
  {
    hide After, CreatedAt, GuardAfter, Alike;
    AdmittedAscends(ts);
    PacketsInOrder(ts, k);
    if ts == [] {
      NothingCreated(k);
    } else {
      hide Packets;
      var n := |ts| - 1;
      AdmittedPrefix(ts, n);
      ScheduleRealised(ts[..n], k);
      NextAdmitted(ts, k);
      PacketsSteps(ts, k);
      assert ts == ts[..n] + [ts[n]];
    }
  }

  lemma AdmittedAscends(ts: seq<int>)
    requires Admitted(ts)
    ensures Ascending(ts)
  {
  }

  lemma NothingCreated(k: Key)
    ensures Packets([], k) == [] && CreatedAt([], k) == [] && k !in After([]).streams
  {
  }

  lemma NextAdmitted(ts: seq<int>, k: Key)
    requires Admitted(ts) && ts != [] && CreatedAt(Packets(ts[..|ts| - 1], k), k) == ts[..|ts| - 1]
    ensures !Blocked(Lookup(After(Packets(ts[..|ts| - 1], k)).guards, k), ts[|ts| - 1])
  {
    var n := |ts| - 1;
    var before := Packets(ts[..n], k);
    assert !Blocked(GuardAfter(ts[..n]), ts[n]) && Ascending(ts[..n]);
    PacketsInOrder(ts[..n], k);
    hide After, CreatedAt, GuardAfter, Alike, Admitted, Packets;
    if n > 0 { assert ts[..n][n - 1] <= ts[n]; }
    GuardTracksCreations(before, k, ts[n]);
    AlikeDecides(GuardAfter(ts[..n]), Lookup(After(before).guards, k), ts[n], ts[n]);
  }

  /** One more admitted creation, and what it adds. */
  lemma Pushed(ts: seq<int>, g: Guard, t: int, lo: int)
    requires Admitted(ts) && ts != [] && ts[|ts| - 1] <= t && GuardAfter(ts) == Some(g) && !Blocked(Some(g), t)
    ensures Admitted(ts + [t]) && GuardAfter(ts + [t]) == Some(Recorded(Some(g), t))
    ensures CountIn(ts + [t], lo, lo + WINDOW) == CountIn(ts, lo, lo + WINDOW) + if lo <= t <= lo + WINDOW then 1 else 0
  {
    assert (ts + [t])[..|ts|] == ts;
    assert forall i :: 0 <= i < |ts| ==> ts[i] <= t;
    AdmittedExtend(ts, t);
  }

  /** Three creations at the end of one window and five in the next make eight within ten seconds. */
  lemma EightIsReached(k: Key) returns (run: Run)
    ensures ClockMonotone(run) && CountIn(CreatedAt(run, k), 10_000_000_000, 20_000_000_000) == 8
  {
    var ts: seq<int>, t := [0], WINDOW;
    assert ts[..0] == [] && Admitted(ts) && GuardAfter(ts) == Some(Guard(1, 0, None));
    assert CountIn(ts, t, t + WINDOW) == 0;
    hide Admitted, GuardAfter, CountIn;
    ts := ThreeMore(ts, t);
    ts := FiveMore(ts, t);
    ScheduleRealised(ts, k);
    run := Packets(ts, k);
  }

  lemma ThreeMore(ts: seq<int>, t: int) returns (ts': seq<int>)
    requires Admitted(ts) && ts != [] && ts[|ts| - 1] <= t && t == WINDOW && GuardAfter(ts) == Some(Guard(1, 0, None))
    requires CountIn(ts, t, t + WINDOW) == 0
    ensures Admitted(ts') && ts' != [] && ts'[|ts'| - 1] == t && GuardAfter(ts') == Some(Guard(4, 0, None))
    ensures CountIn(ts', t, t + WINDOW) == 3
  {
    hide Admitted, GuardAfter, CountIn;
    Pushed(ts, Guard(1, 0, None), t, t);
    Pushed(ts + [t], Guard(2, 0, None), t, t);
    Pushed(ts + [t] + [t], Guard(3, 0, None), t, t);
    ts' := ts + [t] + [t] + [t];
  }

  lemma FiveMore(ts: seq<int>, t: int) returns (ts': seq<int>)
    requires Admitted(ts) && ts != [] && ts[|ts| - 1] == t && t == WINDOW && GuardAfter(ts) == Some(Guard(4, 0, None))
    requires CountIn(ts, t, t + WINDOW) == 3
    ensures Admitted(ts') && CountIn(ts', t, t + WINDOW) == 8
  {
    hide Admitted, GuardAfter, CountIn;
    var u := t + 1;
    Pushed(ts, Guard(4, 0, None), u, t);
    Pushed(ts + [u], Guard(1, u, None), u, t);
    Pushed(ts + [u] + [u], Guard(2, u, None), u, t);
    ts' := LastTwo(ts + [u] + [u] + [u], t);
  }

  lemma LastTwo(ts: seq<int>, t: int) returns (ts': seq<int>)
    requires Admitted(ts) && ts != [] && ts[|ts| - 1] == t + 1 && GuardAfter(ts) == Some(Guard(3, t + 1, None))
    requires CountIn(ts, t, t + WINDOW) == 6
    ensures Admitted(ts') && CountIn(ts', t, t + WINDOW) == 8
  {
    hide Admitted, GuardAfter, CountIn;
    Pushed(ts, Guard(3, t + 1, None), t + 1, t);
    Pushed(ts + [t + 1], Guard(4, t + 1, None), t + 1, t);
    ts' := ts + [t + 1] + [t + 1];
  }
}
