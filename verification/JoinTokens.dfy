/** What a token's signature pins down, and how often one signed token can be used. */
module JoinTokens {
  import opened Arithmetic
  import opened Bytes
  import opened Collections
  import opened JoinProtocol
  import opened JoinRuns
  import opened Options

  /** The expiry is a signed 64-bit integer. */
  predicate InRange(t: Token) {
    -(TWO63 as int) <= t.expiresAt < TWO63
  }

  lemma Pow256To8()
    ensures Pow(256, 8) == TWO64
  {
    assert Pow(256, 4) == 0x1_0000_0000;
    PowAdd(256, 4, 4);
  }

  /** The signature pins down the expiry, and nonce and fingerprint together. */
  lemma MaterialIff(t: Token, u: Token)
    requires InRange(t) && InRange(u)
    ensures Material(t) == Material(u) <==>
              t.expiresAt == u.expiresAt && t.nonce + t.serverFp == u.nonce + u.serverFp
  {
    hide Encode, Material, Pow;
    MaterialParts(t);
    MaterialParts(u);
    Pow256To8();
    if Material(t) == Material(u) {
      EncodeInjective(t.expiresAt % TWO64, u.expiresAt % TWO64, 8);
    }
  }

  lemma MaterialParts(t: Token)
    ensures |Material(t)| >= 12 && Material(t)[4..12] == Encode(t.expiresAt % TWO64, 8)
    ensures Material(t)[12..] == t.nonce + t.serverFp
    ensures Material(t) == Encode(TOKEN_VERSION, 4) + Encode(t.expiresAt % TWO64, 8) + (t.nonce + t.serverFp)
  {
    hide Encode;
  }

  /** Two tokens for this server with the same signed material, of which both or neither name the server,
      are the same token. */
  lemma SameReading(serverKey: seq<byte>, t: Token, u: Token)
    requires InRange(t) && InRange(u) && ForServer(t, serverKey) && ForServer(u, serverKey)
    requires Material(t) == Material(u) && (t.serverFp == [] <==> u.serverFp == [])
    ensures t == u
  {
    MaterialIff(t, u);
    hide Material;
    assert t.serverFp == u.serverFp;
    assert (t.nonce + t.serverFp)[..|t.nonce|] == t.nonce && (u.nonce + u.serverFp)[..|u.nonce|] == u.nonce;
  }

  /** The signed material of a token issued for this server has exactly two readings that the server takes
      for its own: the issued one, and the one in which the fingerprint is part of the nonce. */
  lemma TwoReadings(serverKey: seq<byte>, t: Token, u: Token)
    requires InRange(t) && InRange(u) && serverKey != [] && t.serverFp == serverKey && ForServer(u, serverKey)
    ensures Material(u) == Material(t) <==> u == t || u == Token(t.nonce + serverKey, t.expiresAt, [])
  {
    MaterialIff(t, u);
    hide Material;
    if u.serverFp == [] {
      assert u.nonce + u.serverFp == u.nonce;
    } else {
      assert (t.nonce + serverKey)[..|t.nonce|] == t.nonce && (u.nonce + serverKey)[..|u.nonce|] == u.nonce;
    }
  }

  // ----- Uses of one signed token over a run -----

  /** Step 1 accepted request `i`, whose token has this signed material. */
  predicate AcceptedAs(cfg: Config, run: Run, i: nat, m: seq<byte>)
    requires i < |run|
  {
    TokenAccepted(cfg, run, i) && Material(run[i].1.token.value) == m
  }

  /** When one signed token is accepted twice, one of the two readings names the server and the other does
      not: tokens that name it are single-use among themselves, and so are tokens that do not. */
  lemma AcceptedTwice(cfg: Config, run: Run, i: nat, j: nat, m: seq<byte>)
    requires ClockMonotone(run) && AllFit(run) && i < j < |run|
    requires AcceptedAs(cfg, run, i, m) && AcceptedAs(cfg, run, j, m)
    ensures run[i].1.token.value.serverFp == [] <==> run[j].1.token.value.serverFp != []
  {
    var t, u := run[i].1.token.value, run[j].1.token.value;
    TokenAcceptedOnce(cfg, run, i, j);
    hide Material, TokenAccepted;
    assert Fits(t) && Fits(u);
    if t.serverFp == [] <==> u.serverFp == [] {
      AcceptedForServer(cfg, run, i);
      AcceptedForServer(cfg, run, j);
      SameReading(cfg.serverKey, t, u);
    }
  }

  lemma AcceptedForServer(cfg: Config, run: Run, i: nat)
    requires i < |run| && TokenAccepted(cfg, run, i)
    ensures ForServer(run[i].1.token.value, cfg.serverKey)
  {
  }

  /** One signed token is accepted at most twice. */
  lemma AtMostTwice(cfg: Config, run: Run, i: nat, j: nat, k: nat, m: seq<byte>)
    requires ClockMonotone(run) && AllFit(run) && i < j < k < |run|
    requires AcceptedAs(cfg, run, i, m) && AcceptedAs(cfg, run, j, m)
    ensures !AcceptedAs(cfg, run, k, m)
  {
    if AcceptedAs(cfg, run, k, m) {
      AcceptedTwice(cfg, run, i, j, m);
      AcceptedTwice(cfg, run, j, k, m);
      AcceptedTwice(cfg, run, i, k, m);
    }
  }

  /** The signed materials of the accepted tokens that name no server, or of those that name it. */
  function Materials(cfg: Config, run: Run, bare: bool): seq<seq<byte>> {
    if run == [] then []
    else
      var k := |run| - 1;
      var counts := TokenAccepted(cfg, run, k) && (run[k].1.token.value.serverFp == [] <==> bare);
      Materials(cfg, run[..k], bare) + if counts then [Material(run[k].1.token.value)] else []
  }

  lemma {:induction false} MaterialOf(cfg: Config, run: Run, bare: bool, n: nat) returns (i: nat)
    requires n < |Materials(cfg, run, bare)|
    ensures i < |run| && AcceptedAs(cfg, run, i, Materials(cfg, run, bare)[n])
    ensures run[i].1.token.value.serverFp == [] <==> bare
    decreases |run|
  {
    hide Material;
    var k := |run| - 1;
    if n < |Materials(cfg, run[..k], bare)| {
      i := MaterialOf(cfg, run[..k], bare, n);
      assert run[..k][..i] == run[..i];
    } else {
      i := k;
    }
  }

  lemma {:induction false} MaterialsDistinct(cfg: Config, run: Run, bare: bool)
    requires ClockMonotone(run) && AllFit(run)
    ensures Distinct(Materials(cfg, run, bare))
    decreases |run|
  {
    hide Material;
    if run != [] {
      var k := |run| - 1;
      MaterialsDistinct(cfg, run[..k], bare);
      var before := Materials(cfg, run[..k], bare);
      if TokenAccepted(cfg, run, k) && (run[k].1.token.value.serverFp == [] <==> bare) {
        var m := Material(run[k].1.token.value);
        forall n | 0 <= n < |before| ensures before[n] != m {
          var i := MaterialOf(cfg, run[..k], bare, n);
          SameAcceptance(cfg, run, k, i);
          if before[n] == m { AcceptedTwice(cfg, run, i, k, m); }
        }
      }
    }
  }

  lemma SameAcceptance(cfg: Config, run: Run, k: nat, i: nat)
    requires i < k <= |run|
    ensures TokenAccepted(cfg, run[..k], i) <==> TokenAccepted(cfg, run, i)
  {
    assert run[..k][..i] == run[..i];
  }

  lemma {:induction false} MaterialsCount(cfg: Config, run: Run)
    ensures |AcceptedTokens(cfg, run)| == |Materials(cfg, run, true)| + |Materials(cfg, run, false)|
    decreases |run|
  {
    hide Material, TokenAccepted;
    if run != [] { MaterialsCount(cfg, run[..|run| - 1]); }
  }

  /** Only signed material is presented with a valid signature: `issued` is all that was ever signed. */
  ghost predicate Authentic(cfg: Config, run: Run, issued: set<seq<byte>>) {
    forall i :: 0 <= i < |run| && run[i].1.token.Some? ==>
      var material := Material(run[i].1.token.value);
      run[i].1.signature == cfg.mac(material) ==> material in issued
  }

  lemma AcceptedIsIssued(cfg: Config, run: Run, issued: set<seq<byte>>, i: nat)
    requires Authentic(cfg, run, issued) && i < |run| && TokenAccepted(cfg, run, i)
    ensures Material(run[i].1.token.value) in issued
  {
    hide Material;
  }

  /** Over every run, bundles and challenges are at most twice the tokens issued. */
  lemma BundlesPerIssuedToken(cfg: Config, run: Run, issued: set<seq<byte>>)
    requires ClockMonotone(run) && AllFit(run) && Authentic(cfg, run, issued)
    ensures Bundles(cfg, run) <= Challenges(cfg, run) <= 2 * |issued|
  {
    hide Material, TokenAccepted, Authentic;
    IssueAccounting(cfg, run);
    MaterialsCount(cfg, run);
    MaterialsWithin(cfg, run, issued, true);
    MaterialsWithin(cfg, run, issued, false);
  }

  lemma MaterialsWithin(cfg: Config, run: Run, issued: set<seq<byte>>, bare: bool)
    requires ClockMonotone(run) && AllFit(run) && Authentic(cfg, run, issued)
    ensures |Materials(cfg, run, bare)| <= |issued|
  {
    hide Material, TokenAccepted, Authentic, Materials;
    MaterialsDistinct(cfg, run, bare);
    forall m | m in Materials(cfg, run, bare) ensures m in issued {
      var n :| 0 <= n < |Materials(cfg, run, bare)| && Materials(cfg, run, bare)[n] == m;
      var i := MaterialOf(cfg, run, bare, n);
      AcceptedIsIssued(cfg, run, issued, i);
    }
    DistinctWithin(Materials(cfg, run, bare), issued);
  }

  // ----- The bound is reached -----

  function Ask(cfg: Config, t: Token, challenge: string): Request {
    Request(true, Some(t), cfg.mac(Material(t)), "joiner", Some(challenge), "", "", false)
  }

  function Answer(cfg: Config, t: Token, challenge: string): Request {
    Request(true, Some(t), cfg.mac(Material(t)), "joiner", None, challenge, "response", true)
  }

  /** A fresh nonce gets a challenge, and the answer to it a bundle. */
  lemma AskAndAnswer(cfg: Config, s: Server, t: Token, challenge: string)
    requires Live(t, 0) && ForServer(t, cfg.serverKey) && t.nonce !in s.used && challenge !in s.challenges
    requires s.challenges == map[]
    ensures var (s1, r1) := Handle(s, 0, cfg, Ask(cfg, t, challenge));
            var (s2, r2) := Handle(s1, 0, cfg, Answer(cfg, t, challenge));
            && r1 == Challenged(challenge) && r2 == Bundled("joiner")
            && s2.challenges == map[] && s2.used.Keys <= s.used.Keys + {t.nonce}
  {
    hide Material, KeepUntil;
  }

  /** A token issued for this server and its other reading each get a bundle. */
  lemma BothReadingsAccepted(cfg: Config, nonce: seq<byte>, expiresAt: nat)
    requires cfg.serverKey != [] && 0 < expiresAt
    ensures var t, u := Token(nonce, expiresAt, cfg.serverKey), Token(nonce + cfg.serverKey, expiresAt, []);
            var run := [(0, Ask(cfg, t, "c")), (0, Answer(cfg, t, "c")),
                        (0, Ask(cfg, u, "d")), (0, Answer(cfg, u, "d"))];
            && Material(u) == Material(t) && ClockMonotone(run)
            && ReplyTo(cfg, run, 1).Bundled? && ReplyTo(cfg, run, 3).Bundled?
  {
    var t, u := Token(nonce, expiresAt, cfg.serverKey), Token(nonce + cfg.serverKey, expiresAt, []);
    var run := [(0, Ask(cfg, t, "c")), (0, Answer(cfg, t, "c")), (0, Ask(cfg, u, "d")), (0, Answer(cfg, u, "d"))];
    assert Material(u) == Material(t);
    hide Material, Handle;
    assert run[..0] == [];
    AfterStep(cfg, run, 0);
    AfterStep(cfg, run, 1);
    AfterStep(cfg, run, 2);
    AskAndAnswer(cfg, Server(map[], map[]), t, "c");
    assert |nonce + cfg.serverKey| != |nonce|;
    AskAndAnswer(cfg, After(cfg, run[..2]), u, "d");
  }
}
