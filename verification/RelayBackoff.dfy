/** Cooldowns of failed relay paths. Times and durations are nanoseconds; durations are
    64-bit signed integers, so the doubling window wraps. */
module RelayBackoffs {
  import opened Arithmetic

  const SECOND: int := 1_000_000_000
  const WINDOW: int := 30 * SECOND
  const MAX_WINDOW: int := 600 * SECOND
  const TABLE_LIMIT: nat := 1024

  /** `WINDOW << k`: bits shifted past the top are lost. */
  function ShiftedWindow(k: nat): int {
    Wrap64(WINDOW * Pow(2, k))
  }

  /** The cooldown after `n` consecutive failures, as computed. */
  function Cooldown(n: nat): int
    requires n >= 1
  {
    var shifted := ShiftedWindow(n - 1);
    var guarded := if n > 1 && shifted < WINDOW then MAX_WINDOW else shifted;
    if guarded > MAX_WINDOW then MAX_WINDOW else guarded
  }

  lemma {:induction false} Pow2Monotone(m: nat, n: nat)
    requires m <= n
    ensures 1 <= Pow(2, m) <= Pow(2, n)
    decreases n
  {
    if n > 0 { Pow2Monotone(if m < n then m else m - 1, n - 1); }
  }

  lemma Pow2Values()
    ensures Pow(2, 5) == 32 && Pow(2, 28) == 0x1000_0000 && Pow(2, 29) == 0x2000_0000 && Pow(2, 30) == 0x4000_0000
  {
    assert Pow(2, 7) == 128;
    PowAdd(2, 7, 7);
    PowAdd(2, 14, 14);
  }

  /** A wrapped multiple of 2^40 is still a multiple of 2^40. */
  lemma WrapKeepsDivisibility(m: int) returns (q: int)
    ensures Wrap64(0x100_0000_0000 * m) == 0x100_0000_0000 * q
  {
    var x := 0x100_0000_0000 * m;
    var j := (x + TWO63) / TWO64;
    assert x + TWO63 == TWO64 * j + (x + TWO63) % TWO64;
    q := m - 0x100_0000 * j;
  }

  /** From 30 doublings on the wrapped window is a multiple of 2^40 ns, so it is never
      mistaken for a value between the base window and the cap. */
  lemma LongShift(k: nat)
    requires k >= 30
    ensures ShiftedWindow(k) <= 0 || ShiftedWindow(k) > MAX_WINDOW
  {
    Pow2Values();
    PowAdd(2, 30, k - 30);
    var m := 29296875 * Pow(2, k - 30);
    assert WINDOW * Pow(2, k) == 0x100_0000_0000 * m;
    var q := WrapKeepsDivisibility(m);
  }

  lemma WrapSmall(x: nat)
    requires x < TWO63
    ensures Wrap64(x) == x
  {
  }

  lemma WrapLarge(x: nat)
    requires TWO63 <= x < TWO64
    ensures Wrap64(x) < 0
  {
    assert (x + TWO63) % TWO64 == x - TWO63;
  }

  /** Up to 28 doublings nothing is lost; the 29th turns the sign. */
  lemma ShortShift(k: nat)
    requires k <= 29
    ensures k <= 28 ==> ShiftedWindow(k) == WINDOW * Pow(2, k)
    ensures k == 29 ==> ShiftedWindow(k) < 0
  {
    hide Pow, Wrap64;
    Pow2Values();
    if k <= 28 {
      Pow2Monotone(k, 28);
      WrapSmall(WINDOW * Pow(2, k));
    } else {
      WrapLarge(WINDOW * Pow(2, k));
    }
  }

  /** What the documentation promises: min(30 s * 2^(n-1), 10 min). */
  function Promised(n: nat): int
    requires n >= 1
  {
    var doubled := 30_000_000_000 * Pow(2, n - 1);
    if doubled <= 600_000_000_000 then doubled else 600_000_000_000
  }

  /** For every failure count the cooldown is exactly the promised one, overflow or not. */
  lemma CooldownExact(n: nat)
    requires n >= 1
    ensures Cooldown(n) == Promised(n)
  {
    var k := n - 1;
    assert k > 28 ==> Pow(2, k) >= 32 by {
      Pow2Values();
      if k > 28 { Pow2Monotone(5, k); }
    }
    assert Pow(2, k) >= 1 && (k == 0 <==> Pow(2, k) == 1) by {
      if k > 0 { Pow2Monotone(0, k - 1); }
    }
    hide Pow, ShiftedWindow;
    if k <= 29 { ShortShift(k); } else { LongShift(k); }
  }

  // ----- The cooldown table -----

  datatype Backoff = Backoff(nextTry: map<string, int>, fails: map<string, nat>)

  function Prefix(s: string): string {
    if |s| <= 16 then s else s[..16]
  }

  function PathKey(target: string, relay: string): string {
    Prefix(target) + "|" + Prefix(relay)
  }

  /** The two paths run together: the bar within one key stands where the other key ends. */
  ghost predicate Overlaps(target: string, relay: string, target': string, relay': string) {
    exists u :: target' == target + "|" + u && relay == u + "|" + relay'
  }

  lemma OverlapIff(target: string, relay: string, target': string, relay': string)
    requires |target| < |target'|
    ensures target + "|" + relay == target' + "|" + relay' <==> Overlaps(target, relay, target', relay')
  {
    var a, b, n := target + "|" + relay, target' + "|" + relay', |target|;
    if a == b {
      var u := target'[n + 1..];
      assert target' == b[..|target'|] == a[..n] + a[n..n + 1] + a[n + 1..|target'|];
      assert target' == target + "|" + u;
      assert relay == a[n + 1..] == b[n + 1..] == u + "|" + relay';
    }
    if u :| target' == target + "|" + u && relay == u + "|" + relay' {
      assert a == target + "|" + u + "|" + relay' == b;
    }
  }

  /** Two paths share an entry if and only if the first 16 characters of their keys agree, or run together
      at a bar; with keys of 16 characters and more, which targets are, only the former. */
  lemma SharedEntryIff(target: string, relay: string, target': string, relay': string)
    ensures var t, r, t', r' := First16(target), First16(relay), First16(target'), First16(relay');
            PathKey(target, relay) == PathKey(target', relay') <==>
            (t == t' && r == r') || Overlaps(t, r, t', r') || Overlaps(t', r', t, r)
    ensures |target| >= 16 && |target'| >= 16 ==>
              (PathKey(target, relay) == PathKey(target', relay') <==>
               target[..16] == target'[..16] && First16(relay) == First16(relay'))
  {
    var t, r, t', r' := First16(target), First16(relay), First16(target'), First16(relay');
    assert PathKey(target, relay) == t + "|" + r && PathKey(target', relay') == t' + "|" + r';
    if |t| < |t'| { OverlapIff(t, r, t', r'); }
    else if |t'| < |t| { OverlapIff(t', r', t, r); }
    else {
      assert (t + "|" + r)[..|t|] == t && (t' + "|" + r')[..|t|] == t';
      assert (t + "|" + r)[|t| + 1..] == r && (t' + "|" + r')[|t| + 1..] == r';
    }
  }

  ghost function First16(s: string): string {
    s[..if |s| < 16 then |s| else 16]
  }

  /** A path without an entry was never put on cooldown. */
  predicate MayTry(b: Backoff, now: int, key: string) {
    key in b.nextTry ==> now > b.nextTry[key]
  }

  function Failures(b: Backoff, key: string): nat {
    if key in b.fails then b.fails[key] else 0
  }

  function Failed(b: Backoff, now: int, key: string): Backoff {
    var n := Failures(b, key) + 1;
    Backoff(b.nextTry[key := now + Cooldown(n)], b.fails[key := n])
  }

  function Succeeded(b: Backoff, key: string): Backoff {
    Backoff(b.nextTry - {key}, b.fails - {key})
  }

  function Cleaned(b: Backoff, now: int): Backoff {
    var expired := set k | k in b.nextTry && now > b.nextTry[k];
    Backoff(b.nextTry - expired, b.fails - expired)
  }

  /** Dropping expired entries does not change whether the next attempt may be made, now or later. */
  lemma CleaningKeepsNextDecision(b: Backoff, now: int, later: int, key: string)
    requires now <= later
    ensures MayTry(Cleaned(b, now), later, key) <==> MayTry(b, later, key)
  {
  }

  /** It does drop the failure count. The decision after the next failure, at `at`, changes if and only
      if the path had failed before, its cooldown was over, and the question comes after the first
      window but within the one that was due. */
  lemma CleaningShortensIff(b: Backoff, now: int, at: int, later: int, key: string)
    requires key in b.fails ==> b.fails[key] >= 1
    ensures (MayTry(Failed(Cleaned(b, now), at, key), later, key) != MayTry(Failed(b, at, key), later, key)) <==>
              key in b.fails && key in b.nextTry && now > b.nextTry[key] &&
              at + WINDOW < later <= at + Promised(b.fails[key] + 1)
  {
    CooldownExact(1);
    var n := Failures(b, key) + 1;
    CooldownExact(n);
    PromisedGrows(n);
    hide Cooldown, Promised;
  }

  lemma PromisedGrows(n: nat)
    requires n >= 1
    ensures Promised(1) == WINDOW <= Promised(n)
  {
    assert Pow(2, 0) == 1;
    Pow2Monotone(0, n - 1);
  }

  class RelayBackoff {
    var nextTry: map<string, int>
    var fails: map<string, nat>

    ghost function View(): Backoff
      reads this
    {
      Backoff(nextTry, fails)
    }

    constructor ()
      ensures View() == Backoff(map[], map[])
    {
      nextTry, fails := map[], map[];
    }

    method Allowed(now: int, target: string, relay: string) returns (ok: bool)
      modifies this
      ensures View() == if |old(nextTry)| > 1024 then Cleaned(old(View()), now) else old(View())
      ensures ok <==> MayTry(old(View()), now, PathKey(target, relay))
    {
      if |nextTry| > TABLE_LIMIT {
        var left := nextTry.Keys;
        while left != {}
          invariant left <= old(nextTry).Keys
          invariant forall k :: k in nextTry <==> k in old(nextTry) && (k in left || !(now > old(nextTry)[k]))
          invariant forall k :: k in nextTry ==> nextTry[k] == old(nextTry)[k]
          invariant forall k :: k in fails <==>
                      k in old(fails) && (k !in old(nextTry) || k in left || !(now > old(nextTry)[k]))
          invariant forall k :: k in fails ==> fails[k] == old(fails)[k]
        {
          var k :| k in left;
          left := left - {k};
          if now > nextTry[k] {
            nextTry := nextTry - {k};
            fails := fails - {k};
          }
        }
        assert View() == Cleaned(old(View()), now);
      }
      var key := PathKey(target, relay);
      ok := key !in nextTry || now > nextTry[key];
    }

    method MarkFailed(now: int, target: string, relay: string)
      modifies this
      ensures View() == Failed(old(View()), now, PathKey(target, relay))
    {
      var key := PathKey(target, relay);
      fails := fails[key := (if key in fails then fails[key] else 0) + 1];
      var n := fails[key];
      var window := ShiftedWindow(n - 1);
      if n > 1 && window < WINDOW {
        window := MAX_WINDOW;
      }
      if window > MAX_WINDOW {
        window := MAX_WINDOW;
      }
      nextTry := nextTry[key := now + window];
    }

    /** The path is open at once and its next failure counts as its first; no other path is affected. */
    method MarkSuccess(target: string, relay: string)
      modifies this
      ensures View() == Succeeded(old(View()), PathKey(target, relay))
      ensures var key := PathKey(target, relay);
              && (forall now :: MayTry(View(), now, key)) && Failures(View(), key) == 0
              && (forall k, now :: k != key ==> MayTry(View(), now, k) == MayTry(old(View()), now, k))
              && (forall k :: k != key ==> Failures(View(), k) == Failures(old(View()), k))
    {
      var key := PathKey(target, relay);
      fails := fails - {key};
      nextTry := nextTry - {key};
    }
  }
}

/** Cooldowns over whole runs of questions, failures and successes of any number of paths. */
module RelayRuns {
  import opened Arithmetic
  import opened Collections
  import opened RelayBackoffs

  datatype Event = Ask(key: string) | Fail(key: string) | Succeed(key: string)

  type Run = seq<(int, Event)>

  function Step(b: Backoff, now: int, e: Event): Backoff {
    match e
    case Ask(_) => if |b.nextTry| > TABLE_LIMIT then Cleaned(b, now) else b
    case Fail(k) => Failed(b, now, k)
    case Succeed(k) => Succeeded(b, k)
  }

  function After(run: Run): Backoff {
    if run == [] then Backoff(map[], map[])
    else Step(After(run[..|run| - 1]), run[|run| - 1].0, run[|run| - 1].1)
  }

  lemma AfterStep(run: Run, n: nat)
    requires n < |run|
    ensures After(run[..n + 1]) == Step(After(run[..n]), run[n].0, run[n].1)
  {
    assert run[..n + 1][..n] == run[..n];
  }

  /** The event makes the table forget path `k`: a success, or a clean-up that finds its cooldown over. */
  predicate ForgetsAt(b: Backoff, now: int, e: Event, k: string) {
    e == Succeed(k) || (e.Ask? && |b.nextTry| > 1024 && k in b.nextTry && now > b.nextTry[k])
  }

  predicate Forgets(run: Run, i: nat, k: string)
    requires i < |run|
  {
    ForgetsAt(After(run[..i]), run[i].0, run[i].1, k)
  }

  lemma StepCount(b: Backoff, now: int, e: Event, k: string)
    requires b.nextTry.Keys == b.fails.Keys
    ensures Failures(Step(b, now, e), k) ==
            if ForgetsAt(b, now, e, k) then 0 else Failures(b, k) + if e == Fail(k) then 1 else 0
  {
    hide Cooldown;
  }

  lemma StepEntry(b: Backoff, now: int, e: Event, k: string)
    requires e != Fail(k) && e != Succeed(k)
    ensures k in Step(b, now, e).nextTry ==> k in b.nextTry && Step(b, now, e).nextTry[k] == b.nextTry[k]
    ensures k in b.nextTry && k !in Step(b, now, e).nextTry ==> now > b.nextTry[k]
  {
    hide Cooldown;
  }

  /** How often `k` fails in the run. */
  function FailuresOf(run: Run, k: string): nat {
    if run == [] then 0
    else FailuresOf(run[..|run| - 1], k) + if run[|run| - 1].1 == Fail(k) then 1 else 0
  }

  /** Nothing about `k` is known before position `from`, and it is not forgotten from there up to `end`. */
  ghost predicate Streak(run: Run, k: string, from: nat, end: nat) {
    && from <= end <= |run| && (from == 0 || Forgets(run, from - 1, k))
    && forall i :: from <= i < end ==> !Forgets(run, i, k)
  }

  lemma FailuresStep(run: Run, k: string, from: nat, n: nat)
    requires from <= n < |run|
    ensures FailuresOf(run[from..n + 1], k) == FailuresOf(run[from..n], k) + if run[n].1 == Fail(k) then 1 else 0
  {
    var part := run[from..n + 1];
    assert part[..|part| - 1] == run[from..n] && part[|part| - 1] == run[n];
  }

  lemma {:induction false} TableConsistent(run: Run)
    ensures After(run).nextTry.Keys == After(run).fails.Keys
    ensures forall k :: k in After(run).fails ==> After(run).fails[k] >= 1
    decreases |run|
  {
    if run != [] {
      TableConsistent(run[..|run| - 1]);
      hide Cooldown;
    }
  }

  /** The failure count of a path is the number of its failures since it was last forgotten. */
  lemma {:induction false} CountsSinceForgotten(run: Run, k: string, from: nat, end: nat)
    requires Streak(run, k, from, end)
    ensures Failures(After(run[..end]), k) == FailuresOf(run[from..end], k)
    decreases end
  {
    hide Failures, Step, ForgetsAt;
    if from < end {
      var n := end - 1;
      assert !Forgets(run, n, k);
      CountsSinceForgotten(run, k, from, n);
      TableConsistent(run[..n]);
      AfterStep(run, n);
      StepCount(After(run[..n]), run[n].0, run[n].1, k);
      FailuresStep(run, k, from, n);
      hide FailuresOf, After;
    } else {
      assert run[from..from] == [];
      if from > 0 {
        TableConsistent(run[..from - 1]);
        AfterStep(run, from - 1);
        StepCount(After(run[..from - 1]), run[from - 1].0, run[from - 1].1, k);
        hide After;
      } else {
        assert run[..0] == [];
        EmptyTable(k);
      }
    }
  }

  lemma EmptyTable(k: string)
    ensures Failures(After([]), k) == 0
  {
  }

  /** After its last failure, at position `i`, the entry of `k` stays until it is over. */
  lemma {:induction false} EntryStays(run: Run, k: string, i: nat, end: nat, until: int)
    requires ClockMonotone(run) && i < end <= |run| && run[i].1 == Fail(k)
    requires forall j :: i < j < end ==> run[j].1 != Fail(k) && run[j].1 != Succeed(k)
    requires until == run[i].0 + Cooldown(Failures(After(run[..i]), k) + 1)
    ensures k in After(run[..end]).nextTry ==> After(run[..end]).nextTry[k] == until
    ensures k !in After(run[..end]).nextTry ==> run[end - 1].0 > until
    decreases end
  {
    hide Cooldown, After;
    var n := end - 1;
    AfterStep(run, n);
    if i < n {
      hide Step;
      EntryStays(run, k, i, n, until);
      assert run[n].1 != Fail(k) && run[n].1 != Succeed(k);
      StepEntry(After(run[..n]), run[n].0, run[n].1, k);
      assert run[n - 1].0 <= run[n].0;
    }
  }

  /** In every run, a path whose last outcome is a failure may be tried again exactly when the promised
      window for its failures since it was last forgotten is over. */
  lemma ClosedExactly(run: Run, k: string, from: nat, i: nat, later: int)
    requires ClockMonotone(run) && i < |run| && run[i].1 == Fail(k) && Streak(run, k, from, i)
    requires forall j :: i < j < |run| ==> run[j].1 != Fail(k) && run[j].1 != Succeed(k)
    requires run[|run| - 1].0 <= later
    ensures MayTry(After(run), later, k) <==> later > run[i].0 + Promised(FailuresOf(run[from..i], k) + 1)
  {
    hide Cooldown, Promised, After, FailuresOf, Forgets;
    var n := FailuresOf(run[from..i], k) + 1;
    CountsSinceForgotten(run, k, from, i);
    CooldownExact(n);
    assert run[..|run|] == run;
    EntryStays(run, k, i, |run|, run[i].0 + Promised(n));
  }

  // ----- A run in which the window does not grow -----

  function Path(n: nat): string
    requires n <= TABLE_LIMIT
  {
    PathKey([(0x100 + n) as char], "r")
  }

  /** The first `n` paths fail at time 0. */
  function Crowd(n: nat): Run
    requires n <= TABLE_LIMIT + 1
  {
    if n == 0 then [] else Crowd(n - 1) + [(0, Fail(Path(n - 1)))]
  }

  lemma CrowdStep(n: nat)
    requires 0 < n <= TABLE_LIMIT + 1
    ensures After(Crowd(n)) == Step(After(Crowd(n - 1)), 0, Fail(Path(n - 1)))
  {
    var run := Crowd(n);
    assert run[..|run| - 1] == Crowd(n - 1);
  }

  function Head(k: string): int {
    if k == "" then 0 else k[0] as int
  }

  lemma PathHead(n: nat)
    requires n <= TABLE_LIMIT
    ensures Head(Path(n)) == 0x100 + n
  {
  }

  lemma {:induction false} CrowdTable(n: nat)
    requires n <= TABLE_LIMIT + 1
    ensures var b := After(Crowd(n));
            && |b.nextTry| == n && b.nextTry.Keys == b.fails.Keys
            && (forall k :: k in b.nextTry ==> b.nextTry[k] == WINDOW && Head(k) < 0x100 + n)
            && (n > 0 ==> Path(0) in b.nextTry)
    decreases n
  {
    hide Cooldown, Promised, Path, Head;
    if n > 0 {
      hide After, Crowd;
      CrowdTable(n - 1);
      CrowdStep(n);
      PathHead(n - 1);
      CooldownExact(1);
      PromisedGrows(1);
      var before, k := After(Crowd(n - 1)), Path(n - 1);
      assert k !in before.nextTry;
      assert After(Crowd(n)).nextTry == before.nextTry[k := WINDOW];
    }
  }

  /** A crowded table forgets the expired path when asked, so its next failure counts as its first. */
  lemma ForgottenThenFailed(b: Backoff, t: int, k: string)
    requires |b.nextTry| > TABLE_LIMIT && k in b.nextTry && t > b.nextTry[k]
    ensures var b' := Step(Step(b, t, Ask(k)), t, Fail(k)); k in b'.nextTry && b'.nextTry[k] == t + WINDOW
  {
    CooldownExact(1);
    PromisedGrows(1);
    hide Cooldown, Promised;
    assert Failures(Cleaned(b, t), k) == 0;
  }

  /** With more than 1024 failed paths in the table, the question asked before the second attempt wipes
      the path's own count: its second failure in a row closes it for 30 s again, not for the promised 60 s. */
  lemma SecondWindowCanStaySame()
    ensures var k, t := Path(0), 31 * SECOND;
            var run := Crowd(TABLE_LIMIT + 1) + [(t, Ask(k)), (t, Fail(k))];
            && FailuresOf(run, k) == 2
            && (forall i :: 0 <= i < |run| ==> run[i].1 != Succeed(k))
            && MayTry(After(run), t + WINDOW + 1, k) && t + WINDOW + 1 < t + Promised(2)
  {
    hide Cooldown, Promised, After, FailuresOf, Crowd, Path, Step;
    var k, t, crowd := Path(0), 31 * SECOND, Crowd(TABLE_LIMIT + 1);
    var run := crowd + [(t, Ask(k)), (t, Fail(k))];
    var n := |crowd|;
    CrowdTable(TABLE_LIMIT + 1);
    CrowdFailures(TABLE_LIMIT + 1);
    assert run[..n] == crowd && run[..n + 2] == run && run[0..n] == crowd && run[0..n + 2] == run;
    AfterStep(run, n);
    AfterStep(run, n + 1);
    FailuresStep(run, k, 0, n);
    FailuresStep(run, k, 0, n + 1);
    ForgottenThenFailed(After(crowd), t, k);
    SecondWindow();
  }

  lemma SecondWindow()
    ensures Promised(2) == 60 * SECOND
  {
    assert Pow(2, 1) == 2;
  }

  lemma {:induction false} CrowdFailures(n: nat)
    requires n <= TABLE_LIMIT + 1
    ensures FailuresOf(Crowd(n), Path(0)) == if n == 0 then 0 else 1
    ensures forall i :: 0 <= i < |Crowd(n)| ==> Crowd(n)[i].1.Fail?
    decreases n
  {
    if n > 0 {
      CrowdFailures(n - 1);
      assert Crowd(n)[..|Crowd(n)| - 1] == Crowd(n - 1);
      PathHead(0);
      PathHead(n - 1);
    }
  }
}
