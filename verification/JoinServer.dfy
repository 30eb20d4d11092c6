/** The two-step join protocol: token replay cache and single-use challenges. Times are
    nanoseconds; randomness, the joiner's signature and the rate limiter's verdict are part of the request. */
module JoinProtocol {
  import opened Arithmetic
  import opened Bytes
  import opened Options

  const SECOND: int := 1_000_000_000
  const CHALLENGE_TTL: int := 60 * SECOND

  const TOKEN_VERSION: nat := 1

  /** `expiresAt` is in seconds; an empty `serverFp` names no server. */
  datatype Token = Token(nonce: seq<byte>, expiresAt: int, serverFp: seq<byte>)

  /** `mac` is the HMAC under the server's secret, `serverKey` its own public key. */
  datatype Config = Config(mac: seq<byte> -> seq<byte>, serverKey: seq<byte>, maxLifetime: int)

  /** What a token's signature covers: version, expiry, nonce and fingerprint, one after the other. */
  function Material(t: Token): seq<byte> {
    Encode(TOKEN_VERSION, 4) + Encode(t.expiresAt % TWO64, 8) + t.nonce + t.serverFp
  }

  /** `token` is None when it does not decode or has another version; `random` is what the server's
      random source yields if it is asked; an empty `response` marks step 1. */
  datatype Request = Request(
    allowed: bool,
    token: Option<Token>,
    signature: seq<byte>,
    joiner: string,
    random: Option<string>,
    challenge: string,
    response: string,
    responseOk: bool)

  datatype Reply = Refused | Challenged(challenge: string) | Bundled(joiner: string)

  datatype Pending = Pending(joiner: string, expiresAt: int)

  datatype Server = Server(used: map<seq<byte>, int>, challenges: map<string, Pending>)

  /** The expiry in nanoseconds fits a signed 64-bit integer. */
  predicate Fits(t: Token) {
    -(TWO63 as int) <= t.expiresAt * SECOND < TWO63
  }

  predicate Live(t: Token, now: int) {
    now / SECOND < t.expiresAt
  }

  function Unexpired(used: map<seq<byte>, int>, now: int): map<seq<byte>, int> {
    map n | n in used && used[n] >= now :: used[n]
  }

  function KeepUntil(t: Token, now: int, maxLifetime: int): int {
    var storeExp := Wrap64(t.expiresAt * SECOND);
    if storeExp < now + maxLifetime then now + maxLifetime else storeExp
  }

  function Marked(used: map<seq<byte>, int>, now: int, maxLifetime: int, t: Token): map<seq<byte>, int> {
    var gc := Unexpired(used, now);
    if t.nonce in gc then gc else gc[t.nonce := KeepUntil(t, now, maxLifetime)]
  }

  /** The token names this server or none. */
  predicate ForServer(t: Token, serverKey: seq<byte>) {
    t.serverFp == [] || t.serverFp == serverKey
  }

  /** The request passes every check before the step dispatch. */
  predicate Valid(cfg: Config, now: int, r: Request) {
    && r.allowed && r.token.Some? && r.signature == cfg.mac(Material(r.token.value))
    && Live(r.token.value, now) && ForServer(r.token.value, cfg.serverKey)
  }

  function Issue(cs: map<string, Pending>, now: int, challenge: string, joiner: string): map<string, Pending> {
    var added := cs[challenge := Pending(joiner, now + CHALLENGE_TTL)];
    map c | c in added && added[c].expiresAt >= now :: added[c]
  }

  function Handle(s: Server, now: int, cfg: Config, r: Request): (Server, Reply) {
    if !Valid(cfg, now, r) then (s, Refused)
    else if r.response == "" then
      var s' := s.(used := Marked(s.used, now, cfg.maxLifetime, r.token.value));
      if r.token.value.nonce in Unexpired(s.used, now) || r.random.None? then (s', Refused)
      else (s'.(challenges := Issue(s.challenges, now, r.random.value, r.joiner)), Challenged(r.random.value))
    else
      var s' := s.(challenges := s.challenges - {r.challenge});
      if r.challenge in s.challenges && now <= s.challenges[r.challenge].expiresAt
         && r.joiner == s.challenges[r.challenge].joiner && r.responseOk
      then (s', Bundled(r.joiner))
      else (s', Refused)
  }

  class ReplayCache {
    var used: map<seq<byte>, int>
    const maxLifetime: int

    constructor (maxLifetime: int)
      ensures used == map[] && this.maxLifetime == maxLifetime
    {
      used := map[];
      this.maxLifetime := maxLifetime;
    }

    method CheckAndMark(now: int, t: Token) returns (ok: bool)
      modifies this
      ensures used == Marked(old(used), now, maxLifetime, t)
      ensures ok <==> t.nonce !in Unexpired(old(used), now)
      ensures forall n :: n in old(used) && n != t.nonce ==>
                (n in used <==> old(used)[n] >= now) && (n in used ==> used[n] == old(used)[n])
    {
      var left := used.Keys;
      while left != {}
        invariant left <= old(used).Keys
        invariant forall n :: n in used <==> n in old(used) && (n in left || old(used)[n] >= now)
        invariant forall n :: n in used ==> used[n] == old(used)[n]
      {
        var n :| n in left;
        left := left - {n};
        if used[n] < now {
          used := used - {n};
        }
      }
      assert used == Unexpired(old(used), now);
      if t.nonce in used {
        return false;
      }
      var storeExp := Wrap64(t.expiresAt * SECOND);
      var maxExp := now + maxLifetime;
      if storeExp < maxExp {
        storeExp := maxExp;
      }
      used := used[t.nonce := storeExp];
      return true;
    }
  }

  class JoinServer {
    const mac: seq<byte> -> seq<byte>
    const serverKey: seq<byte>
    const replay: ReplayCache
    var challengeCache: map<string, Pending>

    ghost function View(): Server
      reads this, replay
    {
      Server(replay.used, challengeCache)
    }

    ghost function Cfg(): Config {
      Config(mac, serverKey, replay.maxLifetime)
    }

    constructor (mac: seq<byte> -> seq<byte>, serverKey: seq<byte>, tokenLifetime: int)
      ensures fresh(replay) && View() == Server(map[], map[])
      ensures Cfg() == Config(mac, serverKey, 2 * tokenLifetime)
    {
      var r := new ReplayCache(2 * tokenLifetime);
      replay := r;
      this.mac, this.serverKey := mac, serverKey;
      challengeCache := map[];
    }

    method HandleJoin(now: int, req: Request) returns (reply: Reply)
      modifies this, replay
      ensures (View(), reply) == Handle(old(View()), now, Cfg(), req)
    {
      if !req.allowed || req.token.None? {
        return Refused;
      }
      var token := req.token.value;
      if req.signature != mac(Material(token)) || !Live(token, now) {
        return Refused;
      }
      if token.serverFp != [] && token.serverFp != serverKey {
        return Refused;
      }
      if req.response == "" {
        var ok := replay.CheckAndMark(now, token);
        if !ok {
          return Refused;
        }
        reply := HandleChallengeStep(now, req);
        return;
      }
      reply := HandleChallengeResponseStep(now, req);
    }

    method HandleChallengeStep(now: int, req: Request) returns (reply: Reply)
      modifies this
      ensures challengeCache ==
              if req.random.Some? then Issue(old(challengeCache), now, req.random.value, req.joiner)
              else old(challengeCache)
      ensures reply == if req.random.Some? then Challenged(req.random.value) else Refused
      ensures req.random.Some? ==> forall c :: c in old(challengeCache) && c != req.random.value ==>
                (c in challengeCache <==> old(challengeCache)[c].expiresAt >= now)
    {
      if req.random.None? {
        return Refused;
      }
      challengeCache := challengeCache[req.random.value := Pending(req.joiner, now + CHALLENGE_TTL)];
      ghost var added := challengeCache;
      var left := challengeCache.Keys;
      while left != {}
        invariant left <= added.Keys
        invariant forall c :: c in challengeCache <==> c in added && (c in left || added[c].expiresAt >= now)
        invariant forall c :: c in challengeCache ==> challengeCache[c] == added[c]
      {
        var c :| c in left;
        left := left - {c};
        if challengeCache[c].expiresAt < now {
          challengeCache := challengeCache - {c};
        }
      }
      assert challengeCache == map c | c in added && added[c].expiresAt >= now :: added[c];
      return Challenged(req.random.value);
    }

    /** The challenge is gone afterwards, whatever the outcome. */
    method HandleChallengeResponseStep(now: int, req: Request) returns (reply: Reply)
      modifies this
      ensures challengeCache == old(challengeCache) - {req.challenge}
      ensures reply == if req.challenge in old(challengeCache) && now <= old(challengeCache)[req.challenge].expiresAt
                          && req.joiner == old(challengeCache)[req.challenge].joiner && req.responseOk
                       then Bundled(req.joiner) else Refused
    {
      if req.challenge !in challengeCache {
        return Refused;
      }
      var entry := challengeCache[req.challenge];
      challengeCache := challengeCache - {req.challenge};
      if now > entry.expiresAt || req.joiner != entry.joiner || !req.responseOk {
        return Refused;
      }
      return Bundled(req.joiner);
    }
  }
}

/** Whole runs of the join server, with one clock reading per request and a clock that never runs backwards. */
module JoinRuns {
  import opened Arithmetic
  import opened Bytes
  import opened Collections
  import opened JoinProtocol
  import opened Options

  type Run = seq<(int, Request)>

  function After(cfg: Config, run: Run): Server {
    if run == [] then Server(map[], map[])
    else Handle(After(cfg, run[..|run| - 1]), run[|run| - 1].0, cfg, run[|run| - 1].1).0
  }

  lemma AfterStep(cfg: Config, run: Run, n: nat)
    requires n < |run|
    ensures After(cfg, run[..n + 1]) == Handle(After(cfg, run[..n]), run[n].0, cfg, run[n].1).0
  {
    assert run[..n + 1][..n] == run[..n];
  }

  function ReplyTo(cfg: Config, run: Run, i: nat): Reply
    requires i < |run|
  {
    Handle(After(cfg, run[..i]), run[i].0, cfg, run[i].1).1
  }

  /** Step 1 accepted the token of request `i`. */
  predicate TokenAccepted(cfg: Config, run: Run, i: nat)
    requires i < |run|
  {
    Valid(cfg, run[i].0, run[i].1) && run[i].1.response == "" &&
      run[i].1.token.value.nonce !in Unexpired(After(cfg, run[..i]).used, run[i].0)
  }

  /** How long the nonce accepted with request `i` is remembered. */
  function RememberedUntil(cfg: Config, run: Run, i: nat): int
    requires i < |run| && TokenAccepted(cfg, run, i)
  {
    KeepUntil(run[i].1.token.value, run[i].0, cfg.maxLifetime)
  }

  lemma HandleKeepsMark(s: Server, now: int, cfg: Config, r: Request, nonce: seq<byte>)
    requires nonce in s.used && now <= s.used[nonce]
    ensures var s' := Handle(s, now, cfg, r).0; nonce in s'.used && s'.used[nonce] == s.used[nonce]
  {
  }

  lemma {:induction false} MarkStays(cfg: Config, run: Run, i: nat, j: nat)
    requires ClockMonotone(run) && i < j < |run| && TokenAccepted(cfg, run, i)
    requires run[j].0 <= RememberedUntil(cfg, run, i)
    ensures var nonce, used := run[i].1.token.value.nonce, After(cfg, run[..j]).used;
            nonce in used && used[nonce] == RememberedUntil(cfg, run, i)
    decreases j
  {
    var k := j - 1;
    AfterStep(cfg, run, k);
    hide After, Material, KeepUntil, Issue;
    if i < k {
      hide Handle, TokenAccepted;
      assert run[k].0 <= run[j].0;
      MarkStays(cfg, run, i, k);
      HandleKeepsMark(After(cfg, run[..k]), run[k].0, cfg, run[k].1, run[i].1.token.value.nonce);
    }
  }

  /** A nonce is accepted again only once it is forgotten, whatever token carries it. */
  lemma NonceReuse(cfg: Config, run: Run, i: nat, j: nat)
    requires ClockMonotone(run) && i < j < |run| && TokenAccepted(cfg, run, i) && TokenAccepted(cfg, run, j)
    requires run[i].1.token.value.nonce == run[j].1.token.value.nonce
    ensures run[j].0 > RememberedUntil(cfg, run, i)
  {
    if run[j].0 <= RememberedUntil(cfg, run, i) { MarkStays(cfg, run, i, j); }
  }

  predicate AcceptsNonce(cfg: Config, run: Run, k: nat, nonce: seq<byte>)
    requires k < |run|
  {
    TokenAccepted(cfg, run, k) && run[k].1.token.value.nonce == nonce
  }

  lemma {:induction false} MarkUntouched(cfg: Config, run: Run, i: nat, j: nat)
    requires i < j <= |run| && TokenAccepted(cfg, run, i)
    requires forall k :: i < k < j ==> !AcceptsNonce(cfg, run, k, run[i].1.token.value.nonce)
    ensures var nonce, used := run[i].1.token.value.nonce, After(cfg, run[..j]).used;
            nonce in used ==> used[nonce] == RememberedUntil(cfg, run, i)
    decreases j
  {
    var k := j - 1;
    assert run[..j][..k] == run[..k] && run[..j][k] == run[k];
    if i < k {
      MarkUntouched(cfg, run, i, k);
      assert !AcceptsNonce(cfg, run, k, run[i].1.token.value.nonce);
    }
  }

  /** A valid token whose nonce was accepted before is accepted exactly when the nonce is forgotten:
      later than the first token's expiry and than the cache's lifetime after its use. */
  lemma NonceAcceptedAgainIff(cfg: Config, run: Run, i: nat, j: nat)
    requires ClockMonotone(run) && i < j < |run| && TokenAccepted(cfg, run, i)
    requires Valid(cfg, run[j].0, run[j].1) && run[j].1.response == "" &&
             run[j].1.token.value.nonce == run[i].1.token.value.nonce
    requires forall k :: i < k < j ==> !AcceptsNonce(cfg, run, k, run[i].1.token.value.nonce)
    ensures TokenAccepted(cfg, run, j) <==> run[j].0 > RememberedUntil(cfg, run, i)
  {
    if run[j].0 <= RememberedUntil(cfg, run, i) { MarkStays(cfg, run, i, j); }
    else { MarkUntouched(cfg, run, i, j); }
  }

  /** A step-1 request with nothing wrong about it. */
  function FirstStep(cfg: Config, t: Token): Request {
    Request(true, Some(t), cfg.mac(Material(t)), "joiner", Some("challenge"), "", "", false)
  }

  /** An hour and a second after a nonce was used, another token with it is accepted. */
  lemma NonceAcceptedTwice(cfg: Config)
    requires cfg.maxLifetime == 3600 * SECOND
    ensures var t, u := Token([7], 60, []), Token([7], 4000, []);
            var run := [(0, FirstStep(cfg, t)), (3601 * SECOND, FirstStep(cfg, u))];
            ClockMonotone(run) && TokenAccepted(cfg, run, 0) && TokenAccepted(cfg, run, 1)
  {
    var t, u := Token([7], 60, []), Token([7], 4000, []);
    var run := [(0, FirstStep(cfg, t)), (3601 * SECOND, FirstStep(cfg, u))];
    hide Material;
    assert run[..0] == [];
    assert TokenAccepted(cfg, run, 0);
    assert RememberedUntil(cfg, run, 0) == 3600 * SECOND;
    NonceAcceptedAgainIff(cfg, run, 0, 1);
  }

  /** No nonce and expiry are accepted twice: a nonce is remembered for as long as its token is valid. */
  lemma TokenAcceptedOnce(cfg: Config, run: Run, i: nat, j: nat)
    requires ClockMonotone(run) && i < j < |run| && TokenAccepted(cfg, run, i) && TokenAccepted(cfg, run, j)
    requires Fits(run[i].1.token.value)
    ensures var t, u := run[i].1.token.value, run[j].1.token.value; t.nonce != u.nonce || t.expiresAt != u.expiresAt
  {
    hide Material, After, KeepUntil, Fits;
    var t, u := run[i].1.token.value, run[j].1.token.value;
    if t.nonce == u.nonce && t.expiresAt == u.expiresAt {
      NonceReuse(cfg, run, i, j);
      LiveIsRemembered(t, run[i].0, run[j].0, cfg.maxLifetime);
    }
  }

  lemma LiveIsRemembered(t: Token, now: int, later: int, maxLifetime: int)
    requires Fits(t) && Live(t, later)
    ensures later <= KeepUntil(t, now, maxLifetime)
  {
    assert Wrap64(t.expiresAt * SECOND) == t.expiresAt * SECOND;
    hide Wrap64;
  }

  // ----- Challenges and bundles -----

  function Bundles(cfg: Config, run: Run): nat {
    if run == [] then 0
    else Bundles(cfg, run[..|run| - 1]) + if ReplyTo(cfg, run, |run| - 1).Bundled? then 1 else 0
  }

  function Challenges(cfg: Config, run: Run): nat {
    if run == [] then 0
    else Challenges(cfg, run[..|run| - 1]) + if ReplyTo(cfg, run, |run| - 1).Challenged? then 1 else 0
  }

  function AcceptedTokens(cfg: Config, run: Run): seq<Token> {
    if run == [] then []
    else
      var k := |run| - 1;
      AcceptedTokens(cfg, run[..k]) + if TokenAccepted(cfg, run, k) then [run[k].1.token.value] else []
  }

  lemma {:induction false} AcceptedWith(cfg: Config, run: Run, n: nat) returns (i: nat)
    requires n < |AcceptedTokens(cfg, run)|
    ensures i < |run| && TokenAccepted(cfg, run, i) && run[i].1.token.value == AcceptedTokens(cfg, run)[n]
    decreases |run|
  {
    var k := |run| - 1;
    if n < |AcceptedTokens(cfg, run[..k])| {
      i := AcceptedWith(cfg, run[..k], n);
      assert run[..k][..i] == run[..i];
    } else {
      i := k;
    }
  }

  /** Every token presented has an expiry that fits 64 bits in nanoseconds. */
  ghost predicate AllFit(run: Run) {
    forall i :: 0 <= i < |run| && run[i].1.token.Some? ==> Fits(run[i].1.token.value)
  }

  /** The accepted tokens are all different. */
  lemma {:induction false} AcceptedTokensDistinct(cfg: Config, run: Run)
    requires ClockMonotone(run) && AllFit(run)
    ensures Distinct(AcceptedTokens(cfg, run))
    decreases |run|
  {
    if run != [] {
      var k := |run| - 1;
      AcceptedTokensDistinct(cfg, run[..k]);
      var before := AcceptedTokens(cfg, run[..k]);
      if TokenAccepted(cfg, run, k) {
        forall n | 0 <= n < |before| ensures before[n] != run[k].1.token.value {
          var i := AcceptedWith(cfg, run[..k], n);
          assert run[..k][..i] == run[..i];
          TokenAcceptedOnce(cfg, run, i, k);
        }
      }
    }
  }

  lemma IssueSize(cs: map<string, Pending>, now: int, c: string, joiner: string)
    ensures |Issue(cs, now, c, joiner).Keys| <= |cs.Keys| + 1
  {
    SubsetSize(Issue(cs, now, c, joiner).Keys, cs.Keys + {c});
  }

  /** A bundle closes an open challenge, and only an issued challenge opens one. */
  lemma StepAccounting(s: Server, now: int, cfg: Config, r: Request)
    ensures var (s', reply) := Handle(s, now, cfg, r);
            |s'.challenges.Keys| + (if reply.Bundled? then 1 else 0) <=
            |s.challenges.Keys| + (if reply.Challenged? then 1 else 0)
  {
    hide Valid, Marked, Unexpired;
    if r.random.Some? { IssueSize(s.challenges, now, r.random.value, r.joiner); }
    hide Issue;
    var left := (s.challenges - {r.challenge}).Keys;
    SubsetSize(left, s.challenges.Keys);
    if r.challenge in s.challenges { assert left + {r.challenge} == s.challenges.Keys; }
  }

  /** Bundles issued, plus challenges still open, never exceed challenges issued; and every
      challenge takes an accepted token of its own. */
  lemma {:induction false} IssueAccounting(cfg: Config, run: Run)
    ensures Bundles(cfg, run) + |After(cfg, run).challenges.Keys| <= Challenges(cfg, run)
    ensures Challenges(cfg, run) <= |AcceptedTokens(cfg, run)|
    decreases |run|
  {
    if run != [] {
      var k := |run| - 1;
      IssueAccounting(cfg, run[..k]);
      StepAccounting(After(cfg, run[..k]), run[k].0, cfg, run[k].1);
      assert ReplyTo(cfg, run, k).Challenged? ==> TokenAccepted(cfg, run, k);
      hide Handle, TokenAccepted;
    }
  }

  /** Request `i` was answered with this challenge, asked for by this joiner, and gave it 60 s. */
  ghost predicate IssuedAt(cfg: Config, run: Run, i: nat, challenge: string, joiner: string, expiresAt: int) {
    && i < |run| && ReplyTo(cfg, run, i) == Challenged(challenge)
    && run[i].1.joiner == joiner && expiresAt == run[i].0 + CHALLENGE_TTL
  }

  /** An open challenge has an issue since when it has been open. */
  lemma {:induction false} OpenChallengeIssued(cfg: Config, run: Run, c: string) returns (i: nat)
    requires c in After(cfg, run).challenges
    ensures IssuedAt(cfg, run, i, c, After(cfg, run).challenges[c].joiner, After(cfg, run).challenges[c].expiresAt)
    ensures forall k :: i < k <= |run| ==> c in After(cfg, run[..k]).challenges
    decreases |run|
  {
    var k := |run| - 1;
    assert run[..|run|] == run;
    if ReplyTo(cfg, run, k) == Challenged(c) {
      i := k;
    } else {
      i := OpenChallengeIssued(cfg, run[..k], c);
      assert run[..k][..i] == run[..i];
      forall n | i < n <= |run| ensures c in After(cfg, run[..n]).challenges {
        if n <= k { assert run[..k][..n] == run[..n]; }
      }
    }
  }

  /** A bundle goes to the key that was named when its challenge was issued, at most 60 s earlier, and the
      challenge has been open ever since. */
  lemma BundleFollowsChallenge(cfg: Config, run: Run, j: nat) returns (i: nat)
    requires ClockMonotone(run) && j < |run| && ReplyTo(cfg, run, j).Bundled?
    ensures i < j && ReplyTo(cfg, run, i) == Challenged(run[j].1.challenge)
    ensures run[i].1.joiner == run[j].1.joiner == ReplyTo(cfg, run, j).joiner
    ensures run[i].0 <= run[j].0 <= run[i].0 + 60 * SECOND
    ensures Valid(cfg, run[j].0, run[j].1) && run[j].1.response != "" && run[j].1.responseOk
    ensures forall k :: i < k <= j ==> run[j].1.challenge in After(cfg, run[..k]).challenges
  {
    i := OpenChallengeIssued(cfg, run[..j], run[j].1.challenge);
    assert run[..j][..i] == run[..i];
    forall k | i < k <= j ensures run[j].1.challenge in After(cfg, run[..k]).challenges {
      assert run[..j][..k] == run[..k];
    }
  }

  /** Different bundles follow different issues: a challenge yields one bundle. */
  lemma BundlesFollowDifferent(cfg: Config, run: Run, j: nat, j': nat) returns (i: nat, i': nat)
    requires ClockMonotone(run) && j < j' < |run| && ReplyTo(cfg, run, j).Bundled? && ReplyTo(cfg, run, j').Bundled?
    ensures i < j && ReplyTo(cfg, run, i) == Challenged(run[j].1.challenge)
    ensures i' < j' && ReplyTo(cfg, run, i') == Challenged(run[j'].1.challenge)
    ensures i != i'
  {
    i := BundleFollowsChallenge(cfg, run, j);
    i' := BundleFollowsChallenge(cfg, run, j');
    BundleCloses(cfg, run, j);
  }

  lemma BundleCloses(cfg: Config, run: Run, j: nat)
    requires j < |run| && ReplyTo(cfg, run, j).Bundled?
    ensures run[j].1.challenge !in After(cfg, run[..j + 1]).challenges
  {
    assert run[..j + 1][..j] == run[..j];
  }
}
