/** What every request of a run is answered, said of the requests and of earlier answers alone. */
module JoinAnswers {
  import opened Arithmetic
  import opened Bytes
  import opened Collections
  import opened JoinProtocol
  import opened JoinRuns
  import opened Options

  /** A genuine request: let through by the limiter, with a signed, unexpired token for this server. */
  ghost predicate Genuine(cfg: Config, now: int, r: Request) {
    && r.allowed && r.token.Some?
    && var t := r.token.value;
       && r.signature == cfg.mac(Material(t)) && now / 1_000_000_000 < t.expiresAt
       && (t.serverFp == [] || t.serverFp == cfg.serverKey)
  }

  // ----- Step 1 -----

  /** How long the server remembers the nonce of request `k`, if it accepts it. */
  ghost function Remembered(cfg: Config, run: Run, k: nat): int
    requires k < |run| && run[k].1.token.Some?
  {
    var expiry, lifetime := run[k].1.token.value.expiresAt * 1_000_000_000, run[k].0 + cfg.maxLifetime;
    if expiry < lifetime then lifetime else expiry
  }

  /** Request `j` is a genuine step 1, and every earlier use of its nonce is forgotten. */
  ghost predicate Accepted(cfg: Config, run: Run, j: nat)
    requires j < |run|
    decreases j
  {
    && Genuine(cfg, run[j].0, run[j].1) && run[j].1.response == ""
    && forall k :: 0 <= k < j && Accepted(cfg, run, k) && run[k].1.token.value.nonce == run[j].1.token.value.nonce ==>
         run[j].0 > Remembered(cfg, run, k)
  }

  lemma RememberedExact(cfg: Config, run: Run, k: nat)
    requires k < |run| && TokenAccepted(cfg, run, k) && Fits(run[k].1.token.value)
    ensures RememberedUntil(cfg, run, k) == Remembered(cfg, run, k)
  {
    hide Material;
    assert Wrap64(run[k].1.token.value.expiresAt * SECOND) == run[k].1.token.value.expiresAt * SECOND;
    hide Wrap64;
  }

  lemma {:induction false} MarkedMeansAccepted(cfg: Config, run: Run, n: nat, nonce: seq<byte>) returns (k: nat)
    requires n <= |run| && nonce in After(cfg, run[..n]).used
    ensures k < n && AcceptsNonce(cfg, run, k, nonce)
    ensures After(cfg, run[..n]).used[nonce] == RememberedUntil(cfg, run, k)
    decreases n
  {
    k := n - 1;
    AfterStep(cfg, run, k);
    hide After, Material, KeepUntil;
    if !AcceptsNonce(cfg, run, k, nonce) {
      k := MarkedMeansAccepted(cfg, run, k, nonce);
    }
  }

  /** The replay cache, which forgets, decides as if it knew the whole run. */
  lemma {:induction false} AcceptedIff(cfg: Config, run: Run, j: nat)
    requires ClockMonotone(run) && AllFit(run) && j < |run|
    ensures TokenAccepted(cfg, run, j) <==> Accepted(cfg, run, j)
    decreases j
  {
    hide Material, After, RememberedUntil, Remembered, Fits;
    forall k | 0 <= k < j ensures TokenAccepted(cfg, run, k) <==> Accepted(cfg, run, k) {
      AcceptedIff(cfg, run, k);
    }
    if Genuine(cfg, run[j].0, run[j].1) && run[j].1.response == "" {
      if TokenAccepted(cfg, run, j) {
        AllForgotten(cfg, run, j);
      } else {
        var k := RememberedUse(cfg, run, j);
      }
    }
  }

  lemma AllForgotten(cfg: Config, run: Run, j: nat)
    requires ClockMonotone(run) && AllFit(run) && j < |run| && TokenAccepted(cfg, run, j)
    ensures forall k :: 0 <= k < j && AcceptsNonce(cfg, run, k, run[j].1.token.value.nonce) ==>
              run[j].0 > Remembered(cfg, run, k)
  {
    hide Material, After, RememberedUntil, Remembered, Fits;
    forall k | 0 <= k < j && AcceptsNonce(cfg, run, k, run[j].1.token.value.nonce)
      ensures run[j].0 > Remembered(cfg, run, k)
    {
      NonceReuse(cfg, run, k, j);
      RememberedExact(cfg, run, k);
    }
  }

  lemma RememberedUse(cfg: Config, run: Run, j: nat) returns (k: nat)
    requires AllFit(run) && j < |run| && Valid(cfg, run[j].0, run[j].1)
    requires run[j].1.token.value.nonce in Unexpired(After(cfg, run[..j]).used, run[j].0)
    ensures k < j && AcceptsNonce(cfg, run, k, run[j].1.token.value.nonce) && run[j].0 <= Remembered(cfg, run, k)
  {
    hide Material, After, RememberedUntil, Remembered, Fits;
    k := MarkedMeansAccepted(cfg, run, j, run[j].1.token.value.nonce);
    RememberedExact(cfg, run, k);
  }

  /** A request is answered with a challenge if and only if it is a genuine step 1, its nonce is not
      remembered, and the random source yields that challenge. */
  lemma ChallengedExactly(cfg: Config, run: Run, j: nat, c: string)
    requires ClockMonotone(run) && AllFit(run) && j < |run|
    ensures ReplyTo(cfg, run, j) == Challenged(c) <==> Accepted(cfg, run, j) && run[j].1.random == Some(c)
  {
    AcceptedIff(cfg, run, j);
    hide Accepted, After, Material, Marked, Issue;
  }

  // ----- Step 2 -----

  /** Request `i` is a genuine step 2 that presents the challenge. */
  ghost predicate Presents(cfg: Config, run: Run, i: nat, c: string)
    requires i < |run|
  {
    Genuine(cfg, run[i].0, run[i].1) && run[i].1.response != "" && run[i].1.challenge == c
  }

  /** Request `i` of this joiner was answered with the challenge, at most 60 s before `now`, and no request
      from then up to `n` presented it or was answered with it again. */
  ghost predicate OpenFor(cfg: Config, run: Run, n: nat, c: string, joiner: string, now: int, i: nat)
    requires n <= |run|
  {
    && i < n && ReplyTo(cfg, run, i) == Challenged(c)
    && run[i].1.joiner == joiner && now <= run[i].0 + 60_000_000_000
    && forall k :: i < k < n ==> !Presents(cfg, run, k, c) && ReplyTo(cfg, run, k) != Challenged(c)
  }

  lemma GenuineIsValid(cfg: Config, now: int, r: Request)
    ensures Genuine(cfg, now, r) <==> Valid(cfg, now, r)
  {
    hide Material;
  }

  /** What one request does to one challenge. */
  lemma ChallengeStep(s: Server, now: int, cfg: Config, r: Request, c: string)
    ensures var (s', reply) := Handle(s, now, cfg, r);
            var presented := Genuine(cfg, now, r) && r.response != "" && r.challenge == c;
            && (reply == Challenged(c) ==>
                  c in s'.challenges && s'.challenges[c] == Pending(r.joiner, now + 60_000_000_000))
            && (reply != Challenged(c) && c in s'.challenges ==>
                  c in s.challenges && s'.challenges[c] == s.challenges[c])
            && (presented ==> reply != Challenged(c) && c !in s'.challenges)
            && (c in s.challenges && c !in s'.challenges ==> presented || s.challenges[c].expiresAt < now)
  {
    GenuineIsValid(cfg, now, r);
    hide Genuine, Valid, Marked, Unexpired;
  }

  lemma OpenStep(cfg: Config, run: Run, k: nat, n: nat, c: string, joiner: string, now: int)
    requires k < |run| && n == k + 1
    ensures (exists i: nat :: OpenFor(cfg, run, n, c, joiner, now, i)) <==>
            if ReplyTo(cfg, run, k) == Challenged(c) then
              run[k].1.joiner == joiner && now <= run[k].0 + 60_000_000_000
            else !Presents(cfg, run, k, c) && exists i: nat :: OpenFor(cfg, run, k, c, joiner, now, i)
  {
    hide ReplyTo, Presents;
    if i: nat :| OpenFor(cfg, run, k, c, joiner, now, i) {
      if ReplyTo(cfg, run, k) != Challenged(c) && !Presents(cfg, run, k, c) {
        assert OpenFor(cfg, run, n, c, joiner, now, i);
      }
    }
    if i: nat :| OpenFor(cfg, run, n, c, joiner, now, i) {
      if i < k { assert OpenFor(cfg, run, k, c, joiner, now, i); }
    }
    if ReplyTo(cfg, run, k) == Challenged(c) && run[k].1.joiner == joiner && now <= run[k].0 + 60_000_000_000 {
      assert OpenFor(cfg, run, n, c, joiner, now, k);
    }
  }

  /** The challenge cache, which is swept on the way, knows exactly the challenges that are open. */
  lemma {:induction false} OpenExactly(cfg: Config, run: Run, n: nat, c: string, joiner: string, now: int)
    requires n <= |run| && forall i :: 0 <= i < n ==> run[i].0 <= now
    ensures var cs := After(cfg, run[..n]).challenges;
            (c in cs && now <= cs[c].expiresAt && cs[c].joiner == joiner) <==>
            exists i: nat :: OpenFor(cfg, run, n, c, joiner, now, i)
    decreases n
  {
    if n > 0 {
      var k := n - 1;
      OpenExactly(cfg, run, k, c, joiner, now);
      AfterStep(cfg, run, k);
      ChallengeStep(After(cfg, run[..k]), run[k].0, cfg, run[k].1, c);
      OpenStep(cfg, run, k, n, c, joiner, now);
      hide Handle, After, OpenFor, Genuine;
    }
  }

  /** A request is answered with a bundle if and only if it is a genuine step 2 with a good signature by the
      joiner who was given this challenge at most 60 s earlier, and the challenge was not presented since. */
  lemma BundledExactly(cfg: Config, run: Run, j: nat, joiner: string)
    requires ClockMonotone(run) && j < |run|
    ensures var r := run[j].1;
            ReplyTo(cfg, run, j) == Bundled(joiner) <==>
            && Presents(cfg, run, j, r.challenge) && r.responseOk && r.joiner == joiner
            && exists i: nat :: OpenFor(cfg, run, j, r.challenge, joiner, run[j].0, i)
  {
    var r := run[j].1;
    OpenExactly(cfg, run, j, r.challenge, joiner, run[j].0);
    GenuineIsValid(cfg, run[j].0, r);
    hide After, Genuine, Valid, Marked, Unexpired, Issue, OpenFor;
  }
}
