/** Coordinator-free address claims: every node repeatedly re-picks its address against
    what it has heard the smaller keys claim. `pick` is the deterministic salted search. */
module AddressClaims {
  import opened Options
  import opened Bytes
  import opened KeyOrder

  type Addr = seq<byte>

  type Pick = (Key, set<Addr>) -> Option<Addr>

  /** The addresses claimed by keys smaller than `k`: the only ones `k` yields to. */
  function LowerClaims(claims: map<Key, Addr>, k: Key): set<Addr> {
    set j | j in claims && Less(j, k) :: claims[j]
  }

  /** Somebody claims the address whose key comes before `k` in the order of characters. */
  ghost predicate ClaimedBelow(claims: map<Key, Addr>, k: Key, ip: Addr) {
    exists j, i: nat :: j in claims && claims[j] == ip && SmallerAt(j, k, i)
  }

  lemma LowerClaimsIff(claims: map<Key, Addr>, k: Key, ip: Addr)
    ensures ip in LowerClaims(claims, k) <==> ClaimedBelow(claims, k, ip)
  {
    hide Less, SmallerAt;
    forall j | j in claims ensures Less(j, k) <==> exists i: nat :: SmallerAt(j, k, i) {
      LessIff(j, k);
    }
  }

  datatype Assigned = Assigned(result: map<Key, Addr>, claimed: set<Addr>)

  /** The canonical assignment: keys in the given order, each avoiding everything claimed before. */
  function Assign(pick: Pick, ks: seq<Key>): Option<Assigned> {
    if ks == [] then Some(Assigned(map[], {}))
    else
      match Assign(pick, ks[..|ks| - 1])
      case None => None
      case Some(a) =>
        match pick(ks[|ks| - 1], a.claimed)
        case None => None
        case Some(ip) => Some(Assigned(a.result[ks[|ks| - 1] := ip], a.claimed + {ip}))
  }

  ghost function ClaimsOf(claims: map<Key, Addr>, ks: seq<Key>): set<Addr> {
    set k | k in ks && k in claims :: claims[k]
  }

  /** Every key's claim is what it would pick against the keys before it. */
  ghost predicate Settled(pick: Pick, ks: seq<Key>, claims: map<Key, Addr>) {
    forall i :: 0 <= i < |ks| ==> ks[i] in claims && pick(ks[i], ClaimsOf(claims, ks[..i])) == Some(claims[ks[i]])
  }

  /** No node would change its claim if it re-ran the allocation now. */
  ghost predicate Stable(pick: Pick, claims: map<Key, Addr>) {
    forall k :: k in claims ==> pick(k, LowerClaims(claims, k)) == Some(claims[k])
  }

  ghost predicate Lists(ks: seq<Key>, keys: set<Key>) {
    StrictlySorted(ks) && forall k :: k in ks <==> k in keys
  }

  lemma PrefixSorted(ks: seq<Key>, n: nat)
    requires StrictlySorted(ks) && n <= |ks|
    ensures StrictlySorted(ks[..n])
  {
  }

  lemma NotAmongSmaller(ks: seq<Key>, i: nat)
    requires StrictlySorted(ks) && i < |ks|
    ensures ks[i] !in ks[..i]
  {
    LessIrreflexive(ks[i]);
  }

  lemma ClaimsExtend(claims: map<Key, Addr>, ks: seq<Key>, k: Key, ip: Addr)
    requires k !in ks
    ensures ClaimsOf(claims[k := ip], ks) == ClaimsOf(claims, ks)
    ensures ClaimsOf(claims[k := ip], ks + [k]) == ClaimsOf(claims, ks) + {ip}
  {
    var c := claims[k := ip];
    assert forall x :: x in ks ==> (x in c <==> x in claims) && (x in c ==> c[x] == claims[x]);
    assert c[k] == ip && k in ks + [k];
  }

  lemma SettledExtend(pick: Pick, ks: seq<Key>, claims: map<Key, Addr>, k: Key, ip: Addr)
    requires Settled(pick, ks, claims) && k !in ks && pick(k, ClaimsOf(claims, ks)) == Some(ip)
    ensures Settled(pick, ks + [k], claims[k := ip])
  {
    hide ClaimsOf;
    var ks', c := ks + [k], claims[k := ip];
    forall i | 0 <= i < |ks'| ensures ks'[i] in c && pick(ks'[i], ClaimsOf(c, ks'[..i])) == Some(c[ks'[i]]) {
      assert ks'[..i] == ks[..i];
      ClaimsExtend(claims, ks[..i], k, ip);
      if i < |ks| { assert ks'[i] == ks[i]; } else { assert ks[..i] == ks; }
    }
  }

  lemma SettledPrefix(pick: Pick, ks: seq<Key>, claims: map<Key, Addr>, n: nat)
    requires Settled(pick, ks, claims) && n <= |ks|
    ensures Settled(pick, ks[..n], claims)
  {
    forall i | 0 <= i < n
      ensures ks[..n][i] in claims && pick(ks[..n][i], ClaimsOf(claims, ks[..n][..i])) == Some(claims[ks[..n][i]])
    {
      assert ks[..n][..i] == ks[..i];
    }
  }

  lemma {:induction false} AssignSettles(pick: Pick, ks: seq<Key>)
    requires StrictlySorted(ks) && Assign(pick, ks).Some?
    ensures var a := Assign(pick, ks).value;
            && (forall k :: k in ks <==> k in a.result)
            && a.claimed == ClaimsOf(a.result, ks)
            && Settled(pick, ks, a.result)
    decreases |ks|
  {
    if ks != [] {
      hide Less, ClaimsOf, Settled;
      var n := |ks| - 1;
      var before, k := ks[..n], ks[n];
      PrefixSorted(ks, n);
      AssignSettles(pick, before);
      NotAmongSmaller(ks, n);
      var b, a := Assign(pick, before).value, Assign(pick, ks).value;
      assert ks == before + [k];
      ClaimsExtend(b.result, before, k, a.result[k]);
      SettledExtend(pick, before, b.result, k, a.result[k]);
    } else {
      assert Settled(pick, ks, map[]);
    }
  }

  lemma {:induction false} SettledIsAssigned(pick: Pick, ks: seq<Key>, claims: map<Key, Addr>)
    requires StrictlySorted(ks) && Settled(pick, ks, claims)
    ensures Assign(pick, ks) == Some(Assigned(map k | k in ks && k in claims :: claims[k], ClaimsOf(claims, ks)))
    decreases |ks|
  {
    if ks != [] {
      var n := |ks| - 1;
      var before, k := ks[..n], ks[n];
      assert k in claims && pick(k, ClaimsOf(claims, before)) == Some(claims[k]);
      PrefixSorted(ks, n);
      NotAmongSmaller(ks, n);
      SettledPrefix(pick, ks, claims, n);
      hide Less, Settled;
      SettledIsAssigned(pick, before, claims);
      assert ks == before + [k];
      hide ClaimsOf, StrictlySorted;
      RestrictExtend(claims, before, k);
    } else {
      assert ClaimsOf(claims, ks) == {};
    }
  }

  lemma RestrictExtend(claims: map<Key, Addr>, ks: seq<Key>, k: Key)
    requires k in claims
    ensures (map x | x in ks + [k] && x in claims :: claims[x]) ==
            (map x | x in ks && x in claims :: claims[x])[k := claims[k]]
    ensures ClaimsOf(claims, ks + [k]) == ClaimsOf(claims, ks) + {claims[k]}
  {
  }

  /** The keys smaller than `ks[i]` are those listed before it. */
  lemma LowerIsPrefix(ks: seq<Key>, i: nat, claims: map<Key, Addr>)
    requires StrictlySorted(ks) && i < |ks| && forall k :: k in claims ==> k in ks
    ensures LowerClaims(claims, ks[i]) == ClaimsOf(claims, ks[..i])
  {
    forall k | k in ks ensures Less(k, ks[i]) <==> k in ks[..i] {
      var j :| 0 <= j < |ks| && ks[j] == k;
      if j < i { assert ks[..i][j] == k; }
      else if Less(k, ks[i]) {
        if j > i { LessTransitive(ks[i], k, ks[i]); }
        LessIrreflexive(ks[i]);
      }
    }
  }

  lemma SettledIffStable(pick: Pick, ks: seq<Key>, claims: map<Key, Addr>)
    requires Lists(ks, claims.Keys)
    ensures Settled(pick, ks, claims) <==> Stable(pick, claims)
  {
    forall i | 0 <= i < |ks| ensures LowerClaims(claims, ks[i]) == ClaimsOf(claims, ks[..i]) {
      LowerIsPrefix(ks, i, claims);
    }
    if Settled(pick, ks, claims) {
      forall k | k in claims ensures pick(k, LowerClaims(claims, k)) == Some(claims[k]) {
        var i :| 0 <= i < |ks| && ks[i] == k;
      }
    }
  }

  /** The canonical assignment is stable, and it is the only stable one. */
  lemma StableIffAssigned(pick: Pick, ks: seq<Key>, claims: map<Key, Addr>)
    requires Lists(ks, claims.Keys)
    ensures Stable(pick, claims) <==> Assign(pick, ks).Some? && Assign(pick, ks).value.result == claims
  {
    SettledIffStable(pick, ks, claims);
    if Stable(pick, claims) {
      SettledIsAssigned(pick, ks, claims);
      assert (map k | k in ks && k in claims :: claims[k]) == claims;
    }
    if Assign(pick, ks).Some? && Assign(pick, ks).value.result == claims {
      AssignSettles(pick, ks);
    }
  }

  /** If `pick` never returns a taken address, no two keys share one. */
  lemma SettledInjective(pick: Pick, ks: seq<Key>, claims: map<Key, Addr>)
    requires Settled(pick, ks, claims)
    requires forall k, taken :: pick(k, taken).Some? ==> pick(k, taken).value !in taken
    ensures forall i, j :: 0 <= i < j < |ks| ==> claims[ks[i]] != claims[ks[j]]
  {
    forall i, j | 0 <= i < j < |ks| ensures claims[ks[i]] != claims[ks[j]] {
      assert ks[i] in ks[..j];
      assert claims[ks[i]] in ClaimsOf(claims, ks[..j]);
      assert pick(ks[j], ClaimsOf(claims, ks[..j])).value !in ClaimsOf(claims, ks[..j]);
    }
  }

  /** A complete assignment serves every key with a pick of its own. */
  lemma AssignSound(pick: Pick, ks: seq<Key>)
    requires StrictlySorted(ks) && Assign(pick, ks).Some?
    requires forall k, taken :: pick(k, taken).Some? ==> pick(k, taken).value !in taken
    ensures var m := Assign(pick, ks).value.result;
            && (forall k :: k in ks <==> k in m)
            && (forall j, k :: j in m && k in m && j != k ==> m[j] != m[k])
            && (forall k :: k in m ==> exists taken :: pick(k, taken) == Some(m[k]))
  {
    AssignSettles(pick, ks);
    hide Assign, StrictlySorted;
    var m := Assign(pick, ks).value.result;
    SettledInjective(pick, ks, m);
    hide ClaimsOf;
    forall j, k | j in m && k in m && j != k ensures m[j] != m[k] {
      var i :| 0 <= i < |ks| && ks[i] == j;
      var l :| 0 <= l < |ks| && ks[l] == k;
    }
    forall k | k in m ensures exists taken :: pick(k, taken) == Some(m[k]) {
      var i :| 0 <= i < |ks| && ks[i] == k;
      assert pick(k, ClaimsOf(m, ks[..i])) == Some(m[k]);
    }
  }
}

/** Self-stabilisation: from arbitrary claims and arbitrary beliefs about them, fair rounds of
    gossip and re-allocation reach the canonical assignment. Claims travel as messages that are
    delivered in any order, any number of times or never, up to `d` rounds after they were sent. */
module Convergence {
  import opened Arithmetic
  import opened Options
  import opened KeyOrder
  import opened AddressClaims

  /** A claim on its way, and the round it was sent in. */
  datatype Message = Message(sent: nat, from: Key, ip: Addr)

  /** What every node claims, what it has last heard from the others, the claims on their way, and how
      many rounds there have been. */
  datatype Mesh = Mesh(claim: map<Key, Addr>, heard: map<Key, map<Key, Addr>>, flight: set<Message>, round: nat)

  datatype Move =
    | Tell(node: Key)
    | Hear(node: Key, message: Message)
    | Reallocate(node: Key)

  function HeardBy(m: Mesh, k: Key): map<Key, Addr> {
    if k in m.heard then m.heard[k] else map[]
  }

  /** Only a claim on its way can be heard. A failed allocation keeps the current claim. */
  function Apply(pick: Pick, m: Mesh, s: Move): Mesh {
    match s
    case Tell(k) => if k in m.claim then m.(flight := m.flight + {Message(m.round, k, m.claim[k])}) else m
    case Hear(k, x) => if x in m.flight then m.(heard := m.heard[k := HeardBy(m, k)[x.from := x.ip]]) else m
    case Reallocate(k) =>
      match pick(k, LowerClaims(HeardBy(m, k), k))
      case Some(ip) => m.(claim := m.claim[k := ip])
      case None => m
  }

  function ApplyAll(pick: Pick, m: Mesh, ss: seq<Move>): Mesh {
    if ss == [] then m else Apply(pick, ApplyAll(pick, m, ss[..|ss| - 1]), ss[|ss| - 1])
  }

  /** A new round begins: claims that are more than `d` rounds old are gone. */
  function Begin(d: nat, m: Mesh): Mesh {
    m.(round := m.round + 1, flight := set x | x in m.flight && x.sent + d >= m.round + 1)
  }

  function ApplyRounds(pick: Pick, d: nat, m: Mesh, rounds: seq<seq<Move>>): Mesh {
    if rounds == [] then m
    else ApplyAll(pick, Begin(d, ApplyRounds(pick, d, m, rounds[..|rounds| - 1])), rounds[|rounds| - 1])
  }

  /** Moves of members of the mesh, hearing from members of the mesh. */
  ghost predicate AmongMembers(ks: seq<Key>, ss: seq<Move>) {
    forall s :: s in ss ==> s.node in ks && (s.Hear? ==> s.message.from in ks)
  }

  /** Move `p` lets `k` hear a claim of `j` that is on its way. */
  ghost predicate HearsAt(pick: Pick, m: Mesh, ss: seq<Move>, k: Key, j: Key, p: nat) {
    && p < |ss| && ss[p].Hear? && ss[p].node == k && ss[p].message.from == j
    && ss[p].message in ApplyAll(pick, m, ss[..p]).flight
  }

  ghost predicate ReallocatesAt(pick: Pick, ks: seq<Key>, m: Mesh, ss: seq<Move>, k: Key, q: nat) {
    && q < |ss| && ss[q] == Reallocate(k)
    && forall j :: j in ks && j != k ==> exists p: nat :: HearsAt(pick, m, ss[..q], k, j, p)
  }

  /** In the round every node re-allocates at least once after hearing from every other node. */
  ghost predicate FairRound(pick: Pick, ks: seq<Key>, m: Mesh, ss: seq<Move>) {
    && AmongMembers(ks, ss)
    && forall k :: k in ks ==> exists q: nat :: ReallocatesAt(pick, ks, m, ss, k, q)
  }

  ghost predicate FairRounds(pick: Pick, d: nat, ks: seq<Key>, m: Mesh, rounds: seq<seq<Move>>) {
    forall r :: 0 <= r < |rounds| ==> FairRound(pick, ks, Begin(d, ApplyRounds(pick, d, m, rounds[..r])), rounds[r])
  }

  /** Node `ks[i]` has heard the final claims of all smaller keys. */
  ghost predicate HeardFinal(ks: seq<Key>, final: map<Key, Addr>, m: Mesh, i: nat)
    requires i < |ks|
  {
    forall l :: 0 <= l < i ==> IsHeard(m, ks[i], ks[l], final)
  }

  ghost predicate IsHeard(m: Mesh, k: Key, j: Key, final: map<Key, Addr>) {
    j in final && j in HeardBy(m, k) && HeardBy(m, k)[j] == final[j]
  }

  ghost predicate Claims(m: Mesh, k: Key, final: map<Key, Addr>) {
    k in final && k in m.claim && m.claim[k] == final[k]
  }

  /** The `n` smallest keys have their final address and know the addresses of the keys before them. */
  ghost predicate FinalUpTo(ks: seq<Key>, final: map<Key, Addr>, m: Mesh, n: nat) {
    && n <= |ks|
    && (forall k, j :: j in HeardBy(m, k) ==> j in ks)
    && forall i :: 0 <= i < n ==> Claims(m, ks[i], final) && HeardFinal(ks, final, m, i)
  }

  /** Nothing on its way is from the future. The claims of the `f` smallest keys that are on their way are
      final, and so are those of the `n` smallest that were sent in round `since` or later. */
  ghost predicate FlightOk(ks: seq<Key>, final: map<Key, Addr>, m: Mesh, f: nat, n: nat, since: nat) {
    && f <= |ks| && n <= |ks|
    && (forall x :: x in m.flight ==> x.sent <= m.round)
    && forall l, x: Message :: (0 <= l < f || (0 <= l < n && x.sent >= since)) && x in m.flight && x.from == ks[l] ==>
         ks[l] in final && x.ip == final[ks[l]]
  }

  ghost predicate Canonical(pick: Pick, ks: seq<Key>, final: map<Key, Addr>) {
    Lists(ks, final.Keys) && Settled(pick, ks, final)
  }

  /** A node that has heard the final claims of the smaller keys picks its final address. */
  lemma FinalPick(pick: Pick, ks: seq<Key>, final: map<Key, Addr>, m: Mesh, i: nat)
    requires Canonical(pick, ks, final) && i < |ks| && HeardFinal(ks, final, m, i)
    requires forall j :: j in HeardBy(m, ks[i]) ==> j in ks
    ensures pick(ks[i], LowerClaims(HeardBy(m, ks[i]), ks[i])) == Some(final[ks[i]])
  {
    var h := HeardBy(m, ks[i]);
    LowerIsPrefix(ks, i, h);
    forall k | k in ks[..i] ensures k in h && h[k] == final[k] {
      var l :| 0 <= l < i && ks[l] == k;
      assert IsHeard(m, ks[i], ks[l], final);
    }
    assert ClaimsOf(h, ks[..i]) == ClaimsOf(final, ks[..i]);
  }

  /** Hearing never spoils what was heard from a key whose claims on their way are final. */
  lemma HeardStays(pick: Pick, ks: seq<Key>, final: map<Key, Addr>, m: Mesh, f: nat, n: nat, since: nat,
                   s: Move, k: Key, l: nat)
    requires FlightOk(ks, final, m, f, n, since) && l < f
    requires IsHeard(m, k, ks[l], final) || (s.Hear? && s.node == k && s.message.from == ks[l] && s.message in m.flight)
    ensures IsHeard(Apply(pick, m, s), k, ks[l], final)
  {
  }

  lemma SortedKeysDiffer(ks: seq<Key>, i: nat, j: nat)
    requires StrictlySorted(ks) && i < |ks| && j < |ks| && ks[i] == ks[j]
    ensures i == j
  {
    LessIrreflexive(ks[i]);
  }

  lemma FlightStays(pick: Pick, ks: seq<Key>, final: map<Key, Addr>, m: Mesh, f: nat, n: nat, since: nat, s: Move)
    requires FinalUpTo(ks, final, m, n) && FlightOk(ks, final, m, f, n, since) && f <= n
    ensures FlightOk(ks, final, Apply(pick, m, s), f, n, since)
  {
    forall l, x: Message |
      (0 <= l < f || (0 <= l < n && x.sent >= since)) && x in Apply(pick, m, s).flight && x.from == ks[l]
      ensures ks[l] in final && x.ip == final[ks[l]]
    {
      assert Claims(m, ks[l], final);
      assert x in m.flight || x.ip == m.claim[ks[l]];
    }
  }

  /** No move of any node, and no claim on its way, disturbs the final ones. */
  lemma FinalStays(pick: Pick, ks: seq<Key>, final: map<Key, Addr>, m: Mesh, f: nat, n: nat, since: nat, s: Move)
    requires Canonical(pick, ks, final) && FinalUpTo(ks, final, m, n) && AmongMembers(ks, [s])
    requires FlightOk(ks, final, m, f, n, since) && f <= n <= f + 1
    ensures FinalUpTo(ks, final, Apply(pick, m, s), n) && FlightOk(ks, final, Apply(pick, m, s), f, n, since)
  {
    assert s in [s];
    FlightStays(pick, ks, final, m, f, n, since, s);
    var m' := Apply(pick, m, s);
    forall k, j | j in HeardBy(m', k) ensures j in ks {
      assert j in HeardBy(m, k) || (s.Hear? && s.message.from == j);
    }
    forall i | 0 <= i < n ensures Claims(m', ks[i], final) && HeardFinal(ks, final, m', i) {
      assert Claims(m, ks[i], final) && HeardFinal(ks, final, m, i);
      forall l | 0 <= l < i ensures IsHeard(m', ks[i], ks[l], final) {
        assert IsHeard(m, ks[i], ks[l], final);
        HeardStays(pick, ks, final, m, f, n, since, s, ks[i], l);
      }
      if s == Reallocate(ks[i]) { FinalPick(pick, ks, final, m, i); }
    }
  }

  lemma {:induction false} MovesKeepFinal(pick: Pick, ks: seq<Key>, final: map<Key, Addr>, m: Mesh,
                                          f: nat, n: nat, since: nat, ss: seq<Move>)
    requires Canonical(pick, ks, final) && FinalUpTo(ks, final, m, n) && AmongMembers(ks, ss)
    requires FlightOk(ks, final, m, f, n, since) && f <= n <= f + 1
    ensures FinalUpTo(ks, final, ApplyAll(pick, m, ss), n) && FlightOk(ks, final, ApplyAll(pick, m, ss), f, n, since)
    ensures ApplyAll(pick, m, ss).round == m.round
    decreases |ss|
  {
    hide Canonical, FinalUpTo, FlightOk;
    if ss != [] {
      MovesKeepFinal(pick, ks, final, m, f, n, since, ss[..|ss| - 1]);
      FinalStays(pick, ks, final, ApplyAll(pick, m, ss[..|ss| - 1]), f, n, since, ss[|ss| - 1]);
    }
  }

  lemma BeginKeeps(d: nat, ks: seq<Key>, final: map<Key, Addr>, m: Mesh, f: nat, n: nat, since: nat)
    requires FinalUpTo(ks, final, m, n) && FlightOk(ks, final, m, f, n, since)
    ensures FinalUpTo(ks, final, Begin(d, m), n) && FlightOk(ks, final, Begin(d, m), f, n, since)
    ensures m.round + 1 >= since + d ==> FlightOk(ks, final, Begin(d, m), n, n, since)
  {
    var m' := Begin(d, m);
    assert forall k :: HeardBy(m', k) == HeardBy(m, k);
    forall i | 0 <= i < n ensures Claims(m', ks[i], final) && HeardFinal(ks, final, m', i) {
      assert Claims(m, ks[i], final) && HeardFinal(ks, final, m, i);
      forall l | 0 <= l < i ensures IsHeard(m', ks[i], ks[l], final) {
        assert IsHeard(m, ks[i], ks[l], final);
      }
    }
  }

  /** A round keeps what is final. */
  lemma RoundKeepsFinal(pick: Pick, d: nat, ks: seq<Key>, final: map<Key, Addr>, m: Mesh,
                        f: nat, n: nat, since: nat, ss: seq<Move>)
    requires Canonical(pick, ks, final) && FinalUpTo(ks, final, m, n) && AmongMembers(ks, ss)
    requires FlightOk(ks, final, m, f, n, since) && f <= n <= f + 1
    ensures var m' := ApplyAll(pick, Begin(d, m), ss);
            FinalUpTo(ks, final, m', n) && FlightOk(ks, final, m', f, n, since) && m'.round == m.round + 1
  {
    BeginKeeps(d, ks, final, m, f, n, since);
    MovesKeepFinal(pick, ks, final, Begin(d, m), f, n, since, ss);
  }

  /** Once `k` has heard from a final key in the round, it keeps knowing its final claim. */
  lemma {:induction false} HeardInRound(pick: Pick, ks: seq<Key>, final: map<Key, Addr>, m: Mesh, n: nat, since: nat,
                                        ss: seq<Move>, k: Key, l: nat, p: nat)
    requires Canonical(pick, ks, final) && FinalUpTo(ks, final, m, n) && FlightOk(ks, final, m, n, n, since)
    requires AmongMembers(ks, ss) && l < n && HearsAt(pick, m, ss, k, ks[l], p)
    ensures IsHeard(ApplyAll(pick, m, ss), k, ks[l], final)
    decreases |ss|
  {
    hide Canonical, FinalUpTo, FlightOk, Apply, IsHeard;
    var before, s := ss[..|ss| - 1], ss[|ss| - 1];
    MovesKeepFinal(pick, ks, final, m, n, n, since, before);
    if p < |before| {
      assert before[..p] == ss[..p];
      HeardInRound(pick, ks, final, m, n, since, before, k, l, p);
    }
    LengthOf(ks, final, m, n);
    HeardStays(pick, ks, final, ApplyAll(pick, m, before), n, n, since, s, k, l);
  }

  lemma LengthOf(ks: seq<Key>, final: map<Key, Addr>, m: Mesh, n: nat)
    requires FinalUpTo(ks, final, m, n)
    ensures n <= |ks|
  {
  }

  lemma {:induction false} ApplySplit(pick: Pick, m: Mesh, a: seq<Move>, b: seq<Move>)
    ensures ApplyAll(pick, m, a + b) == ApplyAll(pick, ApplyAll(pick, m, a), b)
    decreases |b|
  {
    if b == [] {
      assert a + b == a;
    } else {
      ApplySplit(pick, m, a, b[..|b| - 1]);
      assert (a + b)[..|a + b| - 1] == a + b[..|b| - 1];
    }
  }

  /** When the `n`-th key reallocates in a fair round it knows the final claim of every smaller key. */
  lemma HeardSmaller(pick: Pick, ks: seq<Key>, final: map<Key, Addr>, m: Mesh, n: nat, since: nat,
                     ss: seq<Move>, q: nat)
    requires Canonical(pick, ks, final) && FinalUpTo(ks, final, m, n) && FlightOk(ks, final, m, n, n, since)
    requires n < |ks| && AmongMembers(ks, ss) && ReallocatesAt(pick, ks, m, ss, ks[n], q)
    ensures HeardFinal(ks, final, ApplyAll(pick, m, ss[..q]), n)
  {
    assert StrictlySorted(ks);
    hide Canonical, FinalUpTo, FlightOk, IsHeard, ApplyAll, StrictlySorted;
    forall l | 0 <= l < n ensures IsHeard(ApplyAll(pick, m, ss[..q]), ks[n], ks[l], final) {
      if ks[l] == ks[n] { SortedKeysDiffer(ks, l, n); }
      var p: nat :| HearsAt(pick, m, ss[..q], ks[n], ks[l], p);
      HeardInRound(pick, ks, final, m, n, since, ss[..q], ks[n], l, p);
    }
  }

  /** One fair round makes the next smallest key final, once every claim of the final keys that is on its
      way is their final one. */
  lemma RoundProgress(pick: Pick, ks: seq<Key>, final: map<Key, Addr>, m: Mesh, n: nat, since: nat, ss: seq<Move>)
    requires Canonical(pick, ks, final) && FinalUpTo(ks, final, m, n) && n < |ks| && FairRound(pick, ks, m, ss)
    requires FlightOk(ks, final, m, n, n, since)
    ensures var m' := ApplyAll(pick, m, ss);
            FinalUpTo(ks, final, m', n + 1) && FlightOk(ks, final, m', n, n + 1, m'.round + 1) && m'.round == m.round
  {
    hide Canonical, FinalUpTo, FlightOk, HeardFinal, Apply, StrictlySorted, HearsAt;
    assert ks[n] in ks;
    var q: nat :| ReallocatesAt(pick, ks, m, ss, ks[n], q);
    var heard, rest := ss[..q], ss[q + 1..];
    assert ss == heard + [ss[q]] + rest;
    var m1 := ApplyAll(pick, m, heard);
    MovesKeepFinal(pick, ks, final, m, n, n, since, heard);
    HeardSmaller(pick, ks, final, m, n, since, ss, q);
    NextIsFinal(pick, ks, final, m1, n, since);
    MovesKeepFinal(pick, ks, final, Apply(pick, m1, ss[q]), n, n + 1, m.round + 1, rest);
    ApplySplit(pick, m, heard + [ss[q]], rest);
    assert (heard + [ss[q]])[..q] == heard;
  }

  lemma NextIsFinal(pick: Pick, ks: seq<Key>, final: map<Key, Addr>, m: Mesh, n: nat, since: nat)
    requires Canonical(pick, ks, final) && FinalUpTo(ks, final, m, n) && FlightOk(ks, final, m, n, n, since)
    requires n < |ks| && HeardFinal(ks, final, m, n)
    ensures var m' := Apply(pick, m, Reallocate(ks[n]));
            FinalUpTo(ks, final, m', n + 1) && FlightOk(ks, final, m', n, n + 1, m'.round + 1) && m'.round == m.round
  {
    FinalPick(pick, ks, final, m, n);
    assert Reallocate(ks[n]).node in ks;
    FinalStays(pick, ks, final, m, n, n, since, Reallocate(ks[n]));
    var m' := Apply(pick, m, Reallocate(ks[n]));
    assert forall l :: 0 <= l < n && IsHeard(m, ks[n], ks[l], final) ==> IsHeard(m', ks[n], ks[l], final);
  }

  lemma RoundStep(pick: Pick, d: nat, ks: seq<Key>, m: Mesh, rounds: seq<seq<Move>>, r: nat)
    requires FairRounds(pick, d, ks, m, rounds) && r < |rounds|
    ensures var before := ApplyRounds(pick, d, m, rounds[..r]);
            && ApplyRounds(pick, d, m, rounds[..r + 1]) == ApplyAll(pick, Begin(d, before), rounds[r])
            && FairRound(pick, ks, Begin(d, before), rounds[r]) && AmongMembers(ks, rounds[r])
  {
    assert rounds[..r + 1][..r] == rounds[..r];
    assert FairRound(pick, ks, Begin(d, ApplyRounds(pick, d, m, rounds[..r])), rounds[r]);
  }

  /** After the first `at` rounds the `n` smallest keys are final, and so is all they said since. */
  ghost predicate Settling(pick: Pick, d: nat, ks: seq<Key>, final: map<Key, Addr>, m: Mesh, rounds: seq<seq<Move>>,
                           n: nat, at: nat, since: nat)
    requires at <= |rounds|
  {
    var m' := ApplyRounds(pick, d, m, rounds[..at]);
    m'.round == m.round + at && FinalUpTo(ks, final, m', n) && FlightOk(ks, final, m', Before(n), n, since)
  }

  function Before(n: nat): nat {
    if n == 0 then 0 else n - 1
  }

  /** Within a phase nothing that is final is lost. */
  lemma {:induction false} WithinPhase(pick: Pick, d: nat, ks: seq<Key>, final: map<Key, Addr>, m: Mesh,
                                       rounds: seq<seq<Move>>, n: nat, at: nat, since: nat, q: nat)
    requires Canonical(pick, ks, final) && FairRounds(pick, d, ks, m, rounds)
    requires at + q <= |rounds| && Settling(pick, d, ks, final, m, rounds, n, at, since)
    ensures Settling(pick, d, ks, final, m, rounds, n, at + q, since)
    decreases q
  {
    hide Canonical, FairRounds, FairRound, FinalUpTo, FlightOk, AmongMembers, ApplyRounds;
    if q > 0 {
      WithinPhase(pick, d, ks, final, m, rounds, n, at, since, q - 1);
      var r := at + (q - 1);
      RoundStep(pick, d, ks, m, rounds, r);
      RoundKeepsFinal(pick, d, ks, final, ApplyRounds(pick, d, m, rounds[..r]), Before(n), n, since, rounds[r]);
    }
  }

  /** One phase of `d + 1` fair rounds makes the next smallest key final: by its last round older claims of
      the final keys are gone. */
  lemma PhaseProgress(pick: Pick, d: nat, ks: seq<Key>, final: map<Key, Addr>, m: Mesh, rounds: seq<seq<Move>>,
                      n: nat, at: nat)
    requires Canonical(pick, ks, final) && FairRounds(pick, d, ks, m, rounds) && n < |ks| && at + d + 1 <= |rounds|
    requires Settling(pick, d, ks, final, m, rounds, n, at, m.round + at + 1)
    ensures Settling(pick, d, ks, final, m, rounds, n + 1, at + d + 1, m.round + at + d + 1 + 1)
  {
    hide Canonical, FairRounds, FairRound, FinalUpTo, FlightOk, AmongMembers, ApplyRounds;
    WithinPhase(pick, d, ks, final, m, rounds, n, at, m.round + at + 1, d);
    var r, since := at + d, m.round + at + 1;
    var before := ApplyRounds(pick, d, m, rounds[..r]);
    RoundStep(pick, d, ks, m, rounds, r);
    BeginKeeps(d, ks, final, before, Before(n), n, since);
    RoundProgress(pick, ks, final, Begin(d, before), n, since, rounds[r]);
  }

  lemma PhaseLength(n: nat, k: nat, d: nat)
    requires n < k
    ensures (n + 1) * (d + 1) == n * (d + 1) + d + 1 <= k * (d + 1)
  {
    MulOrder(n + 1, k, d + 1);
  }

  /** The starting point may be anything, as long as nobody has heard of strangers and nothing on its way is
      from the future. */
  ghost predicate Start(ks: seq<Key>, m: Mesh) {
    (forall k, j :: j in HeardBy(m, k) ==> j in ks) && forall x :: x in m.flight ==> x.sent <= m.round
  }

  lemma NothingSettled(pick: Pick, d: nat, ks: seq<Key>, final: map<Key, Addr>, m: Mesh, rounds: seq<seq<Move>>)
    requires Start(ks, m)
    ensures Settling(pick, d, ks, final, m, rounds, 0, 0, m.round + 1)
  {
    assert rounds[..0] == [];
  }

  /** After `n` phases of `d + 1` fair rounds the `n` smallest keys are final. */
  lemma {:induction false} RoundsMakeFinal(pick: Pick, d: nat, ks: seq<Key>, final: map<Key, Addr>, m: Mesh,
                                           rounds: seq<seq<Move>>, n: nat)
    requires Canonical(pick, ks, final) && Start(ks, m) && FairRounds(pick, d, ks, m, rounds)
    requires n <= |ks| && n * (d + 1) <= |rounds|
    ensures Settling(pick, d, ks, final, m, rounds, n, n * (d + 1), m.round + n * (d + 1) + 1)
    decreases n
  {
    hide Canonical, FairRounds, Settling, Start;
    if n == 0 {
      NothingSettled(pick, d, ks, final, m, rounds);
    } else {
      PhaseLength(n - 1, n, d);
      RoundsMakeFinal(pick, d, ks, final, m, rounds, n - 1);
      PhaseProgress(pick, d, ks, final, m, rounds, n - 1, (n - 1) * (d + 1));
    }
  }

  lemma AllClaim(ks: seq<Key>, final: map<Key, Addr>, m: Mesh)
    requires FinalUpTo(ks, final, m, |ks|)
    ensures forall k :: k in ks ==> Claims(m, k, final)
  {
    forall k | k in ks ensures Claims(m, k, final) {
      var i :| 0 <= i < |ks| && ks[i] == k;
      assert Claims(m, ks[i], final);
    }
  }

  lemma {:induction false} LaterKeeps(pick: Pick, d: nat, ks: seq<Key>, final: map<Key, Addr>, m: Mesh,
                                      f: nat, n: nat, since: nat, later: seq<seq<Move>>)
    requires Canonical(pick, ks, final) && FinalUpTo(ks, final, m, n)
    requires forall ss :: ss in later ==> AmongMembers(ks, ss)
    requires FlightOk(ks, final, m, f, n, since) && f <= n <= f + 1
    ensures var m' := ApplyRounds(pick, d, m, later);
            FinalUpTo(ks, final, m', n) && FlightOk(ks, final, m', f, n, since)
    decreases |later|
  {
    hide Canonical, FinalUpTo, FlightOk, AmongMembers;
    if later != [] {
      var r := |later| - 1;
      assert later[r] in later;
      LaterKeeps(pick, d, ks, final, m, f, n, since, later[..r]);
      RoundKeepsFinal(pick, d, ks, final, ApplyRounds(pick, d, m, later[..r]), f, n, since, later[r]);
    }
  }

  /** With claims up to `d` rounds late, `d + 1` fair rounds per node end with every node on its canonical
      address, and nothing any node does in later rounds, fair or not, changes that. */
  lemma Converges(pick: Pick, d: nat, ks: seq<Key>, m: Mesh, rounds: seq<seq<Move>>, later: seq<seq<Move>>)
    requires StrictlySorted(ks) && Assign(pick, ks).Some? && |rounds| == |ks| * (d + 1)
    requires Start(ks, m) && FairRounds(pick, d, ks, m, rounds) && forall ss :: ss in later ==> AmongMembers(ks, ss)
    ensures var m' := ApplyRounds(pick, d, ApplyRounds(pick, d, m, rounds), later);
            var final := Assign(pick, ks).value.result;
            forall k :: k in ks ==> Claims(m', k, final)
  {
    var n, at, final := |ks|, |ks| * (d + 1), Assign(pick, ks).value.result;
    AssignSettles(pick, ks);
    assert Canonical(pick, ks, final);
    hide Assign, Settled, Canonical, FairRounds, FlightOk, FinalUpTo, AmongMembers, ApplyRounds, Start;
    RoundsMakeFinal(pick, d, ks, final, m, rounds, n);
    assert rounds[..at] == rounds;
    var m1 := ApplyRounds(pick, d, m, rounds);
    LaterKeeps(pick, d, ks, final, m1, Before(n), n, m.round + at + 1, later);
    AllClaim(ks, final, ApplyRounds(pick, d, m1, later));
  }
}
