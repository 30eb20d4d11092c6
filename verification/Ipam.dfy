/** Deterministic addresses inside the TUN subnet. `hash(key, salt)` stands for the first
    eight bytes of the SHA-256 of the key and, for salts above 0, the salt. */
module Ipam {
  import opened Arithmetic
  import opened Collections
  import opened Options
  import opened Bytes
  import opened KeyOrder
  import opened AddressClaims
  import opened Convergence

  const MAX_SALT_ITERATIONS: nat := 1000

  type Hash = (Key, nat) -> nat

  datatype Error = InvalidMask | TooLarge | TooSmall | BadHostCount | NoFreeSlot

  datatype Allocator = Allocator(network: seq<byte>, hostBits: nat, usableHosts: nat)

  /** What ParseCIDR guarantees: the host bits fit the address and are zero in the network address. */
  ghost predicate MaskedTo(network: seq<byte>, hostBits: nat) {
    hostBits <= 8 * |network| && Value(network) % PowOf2(hostBits) == 0
  }

  function PowOf2(n: nat): (p: nat)
    ensures p > 0
  {
    PowPositive(2, n);
    Pow(2, n)
  }

  ghost predicate Valid(a: Allocator) {
    && 1 <= a.hostBits <= 62
    && MaskedTo(a.network, a.hostBits)
    && a.usableHosts == PowOf2(a.hostBits) - (if a.hostBits >= 2 then 2 else 0)
  }

  /** `1 << n` in a signed 64-bit integer. */
  function ShiftedOne(n: nat): int
    requires n <= 63
  {
    var p: int := PowOf2(n);
    if n == 63 then -p else p
  }

  /** Accepts exactly the subnets with 1 to 62 host bits: with 63 the shift turns negative. */
  function NewAllocator(network: seq<byte>, maskOnes: nat, maskBits: nat): (r: Result<Allocator, Error>)
    requires maskOnes <= maskBits && MaskedTo(network, maskBits - maskOnes)
    ensures r.Ok? <==> maskBits != 0 && 1 <= maskBits - maskOnes <= 62
    ensures r.Ok? ==> Valid(r.value) && r.value.network == network && r.value.hostBits == maskBits - maskOnes
  {
    var hostBits := maskBits - maskOnes;
    if maskBits == 0 then Err(InvalidMask)
    else if hostBits > 63 then Err(TooLarge)
    else
      var totalAddrs := ShiftedOne(hostBits);
      PowGrows(hostBits);
      if totalAddrs < 2 then Err(TooSmall)
      else Ok(Allocator(network, hostBits, if hostBits >= 2 then totalAddrs - 2 else totalAddrs))
  }

  lemma {:induction false} PowGrows(n: nat)
    ensures n >= 1 ==> PowOf2(n) >= 2
    ensures n >= 2 ==> PowOf2(n) >= 4
  {
    if n >= 1 { PowPositive(2, n - 1); }
    if n >= 2 { PowPositive(2, n - 2); }
  }

  lemma PowSixtyThree()
    ensures Pow(2, 63) == TWO63
  {
    assert Pow(2, 3) == 8;
    PowAdd(2, 3, 4);
    assert Pow(2, 7) == 0x80;
    hide Pow;
    PowAdd(2, 7, 7);
    PowAdd(2, 14, 7);
    PowAdd(2, 21, 21);
    PowAdd(2, 42, 21);
  }

  lemma PowBelow(n: nat)
    requires n <= 63
    ensures PowOf2(n) <= TWO63
  {
    PowSixtyThree();
    PowAdd(2, n, 63 - n);
    PowPositive(2, 63 - n);
    MulOrder(1, Pow(2, 63 - n), Pow(2, n));
  }

  // ----- The host count of a running node -----

  const DEFAULT_HOSTS: nat := 254

  /** The host count a running node passes on, from its configured subnet. */
  function UsableHostsInSubnet(maskOnes: nat, maskBits: nat): int {
    if maskBits == 0 || maskOnes >= maskBits then DEFAULT_HOSTS
    else
      var hostBits := maskBits - maskOnes;
      var hosts := Wrap64((if hostBits <= 63 then ShiftedOne(hostBits) else 0) - 2);
      if hosts < 1 then DEFAULT_HOSTS else hosts
  }

  /** It is the allocator's if and only if there are two host bits or more, and it is in range in no other
      case: with one host bit the allocator refuses every allocation. */
  lemma LiveHostCount(network: seq<byte>, maskOnes: nat, maskBits: nat)
    requires maskOnes <= maskBits && MaskedTo(network, maskBits - maskOnes)
    requires NewAllocator(network, maskOnes, maskBits).Ok?
    ensures var a, hosts := NewAllocator(network, maskOnes, maskBits).value, UsableHostsInSubnet(maskOnes, maskBits);
            && (hosts == a.usableHosts <==> maskBits - maskOnes >= 2) && (maskBits - maskOnes == 1 ==> hosts == 254)
            && (1 <= hosts <= a.usableHosts <==> maskBits - maskOnes >= 2)
  {
    var hostBits := maskBits - maskOnes;
    PowGrows(hostBits);
    PowBelow(hostBits);
    assert hostBits == 1 ==> PowOf2(hostBits) == 2;
  }

  // ----- Host numbers -----

  function Offset(a: Allocator, hostNum: nat): int {
    if a.hostBits >= 2 then hostNum else hostNum - 1
  }

  function HostIP(a: Allocator, hostNum: nat): Addr
    requires 1 <= hostNum
  {
    Encode(Value(a.network) + Offset(a, hostNum), |a.network|)
  }

  lemma {:induction false} Pow256(n: nat)
    ensures Pow(256, n) == Pow(2, 8 * n)
  {
    if n > 0 {
      Pow256(n - 1);
      PowAdd(2, 8, 8 * (n - 1));
      assert Pow(2, 8) == 256 by {
        assert Pow(2, 4) == 16;
        PowAdd(2, 4, 4);
      }
    }
  }

  lemma AlignedRoom(x: nat, d: nat, k: nat)
    requires d > 0 && x < d * k && x % d == 0
    ensures x + d <= d * k
  {
    var q: nat := x / d;
    assert x == d * q;
    if q >= k { MulOrder(k, q, d); }
    else { MulOrder(q + 1, k, d); }
  }

  /** The whole subnet lies within the address space, so the carry never runs off the front. */
  lemma SubnetRoom(a: Allocator)
    requires Valid(a)
    ensures Value(a.network) + PowOf2(a.hostBits) <= Pow(256, |a.network|)
  {
    var n := 8 * |a.network|;
    Pow256(|a.network|);
    PowAdd(2, a.hostBits, n - a.hostBits);
    ValueBound(a.network);
    AlignedRoom(Value(a.network), PowOf2(a.hostBits), Pow(2, n - a.hostBits));
  }

  /** Every host number denotes a different address of the subnet, never the network
      or broadcast address of a subnet that has them. */
  lemma HostAddress(a: Allocator, hostNum: nat)
    requires Valid(a) && 1 <= hostNum <= a.usableHosts
    ensures var v := Value(HostIP(a, hostNum));
            && v == Value(a.network) + (if a.hostBits >= 2 then hostNum else hostNum - 1)
            && Value(a.network) <= v < Value(a.network) + PowOf2(a.hostBits)
            && (a.hostBits >= 2 ==> v != Value(a.network) && v != Value(a.network) + PowOf2(a.hostBits) - 1)
  {
    SubnetRoom(a);
    EncodeValue(Value(a.network) + Offset(a, hostNum), |a.network|);
  }

  /** What a carry is worth at the given place. */
  function Carried(carry: nat, place: nat): nat {
    carry * Pow(256, place)
  }

  lemma CarryArithmetic(x: int, carry: int, q: int, r: int, w: int)
    requires x + carry == 256 * q + r
    ensures (r - x) * w + q * (256 * w) == carry * w
  {
    assert carry * w == (256 * q + r - x) * w;
  }

  lemma CarryStep(s: seq<byte>, i: nat, carry: nat)
    requires i < |s|
    ensures var val := s[i] + carry;
            Value(s[i := (val % 256) as byte]) + Carried(val / 256, |s| - i) == Value(s) + Carried(carry, |s| - 1 - i)
  {
    var val, w := s[i] + carry, Pow(256, |s| - 1 - i);
    UpdateValue(s, i, val % 256);
    assert Pow(256, |s| - i) == 256 * w;
    hide Value, Pow;
    CarryArithmetic(s[i], carry, val / 256, val % 256, w);
  }

  /** A carry left over after the first byte means the sum did not fit. */
  lemma CarryOut(carry: nat, n: nat)
    requires carry > 0
    ensures Carried(carry, n) >= Pow(256, n)
  {
    MulOrder(1, carry, Pow(256, n));
  }

  /** The carry loop: adds `offset` to the address in place, from the last byte forwards; only a
      carry out of the first byte is lost. */
  method AddOffset(result: array<byte>, offset: nat)
    modifies result
    ensures exists lost: nat :: Value(result[..]) + Carried(lost, result.Length) == Value(old(result[..])) + offset
    ensures Value(old(result[..])) + offset < Pow(256, result.Length) ==>
              Value(result[..]) == Value(old(result[..])) + offset
  {
    assert Carried(offset, 0) == offset && forall k :: Carried(0, k) == 0;
    hide Carried, Value, Pow;
    var carry: nat := offset;
    var i := result.Length - 1;
    while i >= 0 && carry > 0
      invariant -1 <= i < result.Length
      invariant Value(result[..]) + Carried(carry, result.Length - 1 - i) == Value(old(result[..])) + offset
    {
      var val: nat := result[i] + carry;
      ghost var before := result[..];
      CarryStep(before, i, carry);
      result[i] := val % 256;
      assert result[..] == before[i := (val % 256) as byte];
      carry := val / 256;
      i := i - 1;
    }
    assert Value(result[..]) + Carried(carry, result.Length) == Value(old(result[..])) + offset;
    if carry > 0 { CarryOut(carry, result.Length); }
  }

  method HostNumberToIP(a: Allocator, hostNum: int) returns (ip: Option<Addr>)
    requires Valid(a)
    ensures ip.Some? <==> 1 <= hostNum <= a.usableHosts
    ensures ip.Some? ==> ip.value == HostIP(a, hostNum)
  {
    if hostNum < 1 || hostNum > a.usableHosts {
      return None;
    }
    var offset := hostNum - 1;
    if a.hostBits >= 2 {
      offset := hostNum;
    }
    var network := a.network;
    var result := new byte[|network|](i requires 0 <= i < |network| => network[i]);
    assert result[..] == network;
    SubnetRoom(a);
    AddOffset(result, offset);
    HostAddress(a, hostNum);
    ValueInjective(result[..], HostIP(a, hostNum));
    ip := Some(result[..]);
  }

  // ----- The salted search -----

  function HashToSlot(hash: Hash, key: Key, salt: nat, hostCount: nat): (slot: nat)
    requires hostCount >= 1
    ensures slot < hostCount
  {
    hash(key, salt) % hostCount
  }

  function CandidateIP(a: Allocator, hash: Hash, hostCount: nat, key: Key, salt: nat): Addr
    requires hostCount >= 1
  {
    HostIP(a, HashToSlot(hash, key, salt, hostCount) + 1)
  }

  function PickFrom(a: Allocator, hash: Hash, hostCount: nat, key: Key, taken: set<Addr>, salt: nat): Option<Addr>
    requires hostCount >= 1
    decreases MAX_SALT_ITERATIONS + 1 - salt
  {
    if salt > MAX_SALT_ITERATIONS then None
    else if CandidateIP(a, hash, hostCount, key, salt) !in taken then Some(CandidateIP(a, hash, hostCount, key, salt))
    else PickFrom(a, hash, hostCount, key, taken, salt + 1)
  }

  /** The address a key picks when the addresses in `taken` are off limits. */
  function PickFor(a: Allocator, hash: Hash, hostCount: nat): Pick
    requires hostCount >= 1
  {
    (key, taken) => PickFrom(a, hash, hostCount, key, taken, 0)
  }

  /** A picked address is free and belongs to a host number within the host count. */
  lemma {:induction false} PickIsFree(a: Allocator, hash: Hash, hostCount: nat, key: Key, taken: set<Addr>, salt: nat)
    requires hostCount >= 1
    ensures var p := PickFrom(a, hash, hostCount, key, taken, salt);
            p.Some? ==> p.value !in taken && exists h :: 1 <= h <= hostCount && p.value == HostIP(a, h)
    decreases MAX_SALT_ITERATIONS + 1 - salt
  {
    if salt <= MAX_SALT_ITERATIONS {
      if CandidateIP(a, hash, hostCount, key, salt) in taken {
        PickIsFree(a, hash, hostCount, key, taken, salt + 1);
      }
    }
  }

  /** The address of the slot that the key hashes to with this salt. */
  ghost function SaltedIP(a: Allocator, hash: Hash, hostCount: nat, key: Key, salt: nat): Addr
    requires hostCount >= 1
  {
    HostIP(a, hash(key, salt) % hostCount + 1)
  }

  /** From `salt` on, `t` is the first salt that leads to an address no smaller key claims. */
  ghost predicate FirstUnclaimed(a: Allocator, hash: Hash, hostCount: nat, key: Key, claims: map<Key, Addr>,
                                 salt: nat, t: nat)
    requires hostCount >= 1
  {
    && salt <= t <= 1000 && !ClaimedBelow(claims, key, SaltedIP(a, hash, hostCount, key, t))
    && forall u: nat :: salt <= u < t ==> ClaimedBelow(claims, key, SaltedIP(a, hash, hostCount, key, u))
  }

  /** A node yields to smaller keys only: it gets the first address over the salts that none of them claims,
      and none exactly when they claim the addresses of all 1001 salts. */
  lemma {:induction false} PickYields(a: Allocator, hash: Hash, hostCount: nat, key: Key, claims: map<Key, Addr>,
                                      salt: nat) returns (t: nat)
    requires hostCount >= 1
    ensures match PickFrom(a, hash, hostCount, key, LowerClaims(claims, key), salt)
            case Some(ip) =>
              FirstUnclaimed(a, hash, hostCount, key, claims, salt, t) && ip == SaltedIP(a, hash, hostCount, key, t)
            case None =>
              forall u: nat :: salt <= u <= 1000 ==> ClaimedBelow(claims, key, SaltedIP(a, hash, hostCount, key, u))
    decreases MAX_SALT_ITERATIONS + 1 - salt
  {
    hide LowerClaims, ClaimedBelow, HostIP;
    t := salt;
    if salt <= MAX_SALT_ITERATIONS {
      assert CandidateIP(a, hash, hostCount, key, salt) == SaltedIP(a, hash, hostCount, key, salt);
      LowerClaimsIff(claims, key, SaltedIP(a, hash, hostCount, key, salt));
      if SaltedIP(a, hash, hostCount, key, salt) in LowerClaims(claims, key) {
        t := PickYields(a, hash, hostCount, key, claims, salt + 1);
      }
    }
  }

  /** The answer is the first address over the salts that no smaller key claims; it is an error exactly when
      the smaller keys claim the addresses of all 1001 salts. */
  ghost predicate Yields(a: Allocator, hash: Hash, hostCount: nat, key: Key, claims: map<Key, Addr>,
                         r: Result<Addr, Error>)
    requires hostCount >= 1
  {
    match r
    case Ok(ip) =>
      exists t: nat ::
        FirstUnclaimed(a, hash, hostCount, key, claims, 0, t) && ip == SaltedIP(a, hash, hostCount, key, t)
    case Err(_) =>
      forall u: nat :: u <= 1000 ==> ClaimedBelow(claims, key, SaltedIP(a, hash, hostCount, key, u))
  }

  function Answered(ip: Option<Addr>): Result<Addr, Error> {
    match ip
    case Some(x) => Ok(x)
    case None => Err(NoFreeSlot)
  }

  lemma SearchYields(a: Allocator, hash: Hash, hostCount: nat, key: Key, claims: map<Key, Addr>)
    requires hostCount >= 1
    ensures Yields(a, hash, hostCount, key, claims, Answered(PickFor(a, hash, hostCount)(key, LowerClaims(claims, key))))
  {
    var t := PickYields(a, hash, hostCount, key, claims, 0);
    hide PickFrom, LowerClaims, FirstUnclaimed, SaltedIP, ClaimedBelow;
  }

  // ----- Allocation -----

  /** Yields only to smaller keys: the result is the salted search against their claims. */
  method AllocateWithPeers(a: Allocator, hash: Hash, pubKey: Key, hostCount: int, peerIPs: map<Key, Addr>)
    returns (r: Result<Addr, Error>)
    requires Valid(a)
    ensures !(1 <= hostCount <= a.usableHosts) ==> r == Err(BadHostCount)
    ensures 1 <= hostCount <= a.usableHosts ==>
              && r == Answered(PickFor(a, hash, hostCount)(pubKey, LowerClaims(peerIPs, pubKey)))
              && Yields(a, hash, hostCount, pubKey, peerIPs, r)
  {
    if hostCount < 1 || hostCount > a.usableHosts {
      return Err(BadHostCount);
    }
    hide Yields;
    SearchYields(a, hash, hostCount, pubKey, peerIPs);
    var claimed := ClaimedBy(peerIPs);
    ghost var lower := LowerClaims(peerIPs, pubKey);
    assert lower <= claimed;
    assert PickFor(a, hash, hostCount)(pubKey, lower) == PickFrom(a, hash, hostCount, pubKey, lower, 0);
    hide LowerClaims, PickFor, HostIP;
    for salt := 0 to MAX_SALT_ITERATIONS + 1
      invariant PickFor(a, hash, hostCount)(pubKey, lower) == PickFrom(a, hash, hostCount, pubKey, lower, salt)
    {
      var slot := HashToSlot(hash, pubKey, salt, hostCount);
      var candidate := HostNumberToIP(a, slot + 1);
      assert candidate.value == CandidateIP(a, hash, hostCount, pubKey, salt);
      if candidate.value !in claimed {
        return Ok(candidate.value);
      }
      var mustYield := MustYield(pubKey, candidate.value, peerIPs);
      if !mustYield {
        return Ok(candidate.value);
      }
    }
    return Err(NoFreeSlot);
  }

  method ClaimedBy(peerIPs: map<Key, Addr>) returns (claimed: set<Addr>)
    ensures forall ip :: ip in claimed <==> exists k :: k in peerIPs && peerIPs[k] == ip
  {
    claimed := {};
    var left := peerIPs.Keys;
    while left != {}
      invariant left <= peerIPs.Keys
      invariant forall ip :: ip in claimed <==> exists k :: k in peerIPs && k !in left && peerIPs[k] == ip
    {
      var k :| k in left;
      left := left - {k};
      claimed := claimed + {peerIPs[k]};
      assert k in peerIPs && k !in left;
    }
  }

  /** Some peer with a smaller key claims the address. */
  method MustYield(pubKey: Key, candidate: Addr, peerIPs: map<Key, Addr>) returns (yes: bool)
    ensures yes <==> candidate in LowerClaims(peerIPs, pubKey)
  {
    var left := peerIPs.Keys;
    while left != {}
      invariant left <= peerIPs.Keys
      invariant forall k :: k in peerIPs && k !in left && peerIPs[k] == candidate ==> !Less(k, pubKey)
    {
      var k :| k in left;
      left := left - {k};
      if peerIPs[k] == candidate && Less(k, pubKey) {
        return true;
      }
    }
    return false;
  }

  method AllocateAll(a: Allocator, hash: Hash, pubKeys: seq<Key>) returns (r: Result<map<Key, Addr>, Error>)
    requires Valid(a)
    ensures pubKeys == [] ==> r == Ok(map[])
    ensures |pubKeys| > a.usableHosts ==> r == Err(BadHostCount)
    ensures 1 <= |pubKeys| <= a.usableHosts ==>
              match Assign(PickFor(a, hash, |pubKeys|), Sort(pubKeys))
              case Some(x) => r == Ok(x.result)
              case None => r == Err(NoFreeSlot)
  {
    var hostCount := |pubKeys|;
    if hostCount == 0 {
      return Ok(map[]);
    }
    if hostCount > a.usableHosts {
      return Err(BadHostCount);
    }
    var sorted := Sort(pubKeys);
    var claimed: set<Addr> := {};
    var result: map<Key, Addr> := map[];
    ghost var pick := PickFor(a, hash, hostCount);
    assert Assign(pick, sorted[..0]) == Some(Assigned(result, claimed));
    hide PickFor, Valid, Sort;
    for i := 0 to |sorted|
      invariant Assign(pick, sorted[..i]) == Some(Assigned(result, claimed))
    {
      assert sorted[..i + 1][..i] == sorted[..i];
      var ip := AllocateWithClaimed(a, hash, sorted[i], hostCount, claimed);
      if ip.None? {
        AssignFailsEarly(pick, sorted, i + 1);
        return Err(NoFreeSlot);
      }
      result := result[sorted[i] := ip.value];
      claimed := claimed + {ip.value};
    }
    assert sorted[..|sorted|] == sorted;
    return Ok(result);
  }

  method AllocateWithClaimed(a: Allocator, hash: Hash, pubKey: Key, hostCount: nat, claimed: set<Addr>)
    returns (ip: Option<Addr>)
    requires Valid(a) && 1 <= hostCount <= a.usableHosts
    ensures ip == PickFor(a, hash, hostCount)(pubKey, claimed)
  {
    for salt := 0 to MAX_SALT_ITERATIONS + 1
      invariant PickFor(a, hash, hostCount)(pubKey, claimed) == PickFrom(a, hash, hostCount, pubKey, claimed, salt)
    {
      var slot := HashToSlot(hash, pubKey, salt, hostCount);
      var candidate := HostNumberToIP(a, slot + 1);
      if candidate.value !in claimed {
        return candidate;
      }
    }
    return None;
  }

  lemma {:induction false} AssignFailsEarly(pick: Pick, ks: seq<Key>, n: nat)
    requires n <= |ks| && Assign(pick, ks[..n]).None?
    ensures Assign(pick, ks).None?
    decreases |ks|
  {
    if n < |ks| {
      assert ks[..|ks| - 1][..n] == ks[..n];
      AssignFailsEarly(pick, ks[..|ks| - 1], n);
    } else {
      assert ks[..n] == ks;
    }
  }

  // ----- What AllocateAll promises -----

  lemma PicksAreHosts(a: Allocator, hash: Hash, hostCount: nat, k: Key, taken: set<Addr>)
    requires Valid(a) && 1 <= hostCount <= a.usableHosts && PickFor(a, hash, hostCount)(k, taken).Some?
    ensures PickFor(a, hash, hostCount)(k, taken).value !in taken
    ensures exists h :: 1 <= h <= a.usableHosts && PickFor(a, hash, hostCount)(k, taken).value == HostIP(a, h)
  {
    PickIsFree(a, hash, hostCount, k, taken, 0);
  }

  /** Whatever the host count: all keys served, no two share an address, and every address is a usable
      host address of the subnet. */
  lemma LiveAssignmentSound(a: Allocator, hash: Hash, hostCount: nat, keys: seq<Key>)
    requires Valid(a) && Distinct(keys) && 1 <= hostCount <= a.usableHosts
    requires Assign(PickFor(a, hash, hostCount), Sort(keys)).Some?
    ensures var m := Assign(PickFor(a, hash, hostCount), Sort(keys)).value.result;
            && (forall k :: k in keys <==> k in m)
            && (forall j, k :: j in m && k in m && j != k ==> m[j] != m[k])
            && (forall k :: k in m ==> exists h :: 1 <= h <= a.usableHosts && m[k] == HostIP(a, h))
  {
    SortDistinct(keys);
    hide Sort, Distinct, Valid, HostIP, PickFor, Assign;
    var pick, ks := PickFor(a, hash, hostCount), Sort(keys);
    forall k, taken | pick(k, taken).Some? ensures pick(k, taken).value !in taken {
      PicksAreHosts(a, hash, hostCount, k, taken);
    }
    AssignSound(pick, ks);
    var m := Assign(pick, ks).value.result;
    forall k | k in m ensures exists h :: 1 <= h <= a.usableHosts && m[k] == HostIP(a, h) {
      var taken :| pick(k, taken) == Some(m[k]);
      PicksAreHosts(a, hash, hostCount, k, taken);
    }
  }

  /** On distinct keys AllocateAll's result is such an assignment. */
  lemma AllocationSound(a: Allocator, hash: Hash, keys: seq<Key>)
    requires Valid(a) && Distinct(keys) && 1 <= |keys| <= a.usableHosts
    requires Assign(PickFor(a, hash, |keys|), Sort(keys)).Some?
    ensures var m := Assign(PickFor(a, hash, |keys|), Sort(keys)).value.result;
            && (forall k :: k in keys <==> k in m)
            && (forall j, k :: j in m && k in m && j != k ==> m[j] != m[k])
            && (forall k :: k in m ==> exists h :: 1 <= h <= a.usableHosts && m[k] == HostIP(a, h))
  {
    hide Sort, Distinct, Valid, HostIP, PickFor, Assign;
    LiveAssignmentSound(a, hash, |keys|, keys);
  }

  /** The order in which the keys are given does not matter. */
  lemma AllocationOrderFree(a: Allocator, hash: Hash, keys: seq<Key>, keys': seq<Key>)
    requires keys != [] && multiset(keys) == multiset(keys')
    ensures |keys| == |keys'|
    ensures Assign(PickFor(a, hash, |keys|), Sort(keys)) == Assign(PickFor(a, hash, |keys'|), Sort(keys'))
  {
    assert |multiset(keys)| == |keys| && |multiset(keys')| == |keys'|;
    SortOrderFree(keys, keys');
  }

  /** Whatever host count the nodes use, the canonical assignment for that count is the one under
      which no node would move. */
  lemma LiveClaimsStableIff(a: Allocator, hash: Hash, hostCount: nat, keys: seq<Key>, claims: map<Key, Addr>)
    requires 1 <= hostCount && Distinct(keys) && forall k :: k in keys <==> k in claims
    ensures var pick := PickFor(a, hash, hostCount);
            Stable(pick, claims) <==> Assign(pick, Sort(keys)).Some? && Assign(pick, Sort(keys)).value.result == claims
  {
    SortDistinct(keys);
    StableIffAssigned(PickFor(a, hash, hostCount), Sort(keys), claims);
  }

  /** The smaller key wins: of two keys that hash to the same slot first, the one with the smaller character
      at their first difference has its address, if no key before it has, and the other one has not. */
  lemma SmallerKeyWins(a: Allocator, hash: Hash, hostCount: nat, keys: seq<Key>, j: Key, k: Key, i: nat)
    requires Valid(a) && Distinct(keys) && 1 <= hostCount <= a.usableHosts
    requires Assign(PickFor(a, hash, hostCount), Sort(keys)).Some?
    requires j in keys && k in keys && SmallerAt(j, k, i) && hash(j, 0) % hostCount == hash(k, 0) % hostCount
    requires var m := Assign(PickFor(a, hash, hostCount), Sort(keys)).value.result;
             !ClaimedBelow(m, j, SaltedIP(a, hash, hostCount, j, 0))
    ensures var m := Assign(PickFor(a, hash, hostCount), Sort(keys)).value.result;
            && j in m && m[j] == SaltedIP(a, hash, hostCount, j, 0)
            && k in m && m[k] != SaltedIP(a, hash, hostCount, k, 0)
  {
    assert j != k && SaltedIP(a, hash, hostCount, j, 0) == SaltedIP(a, hash, hostCount, k, 0);
    LiveAssignmentSound(a, hash, hostCount, keys);
    var m := Assign(PickFor(a, hash, hostCount), Sort(keys)).value.result;
    LiveClaimsStableIff(a, hash, hostCount, keys, m);
    hide Sort, Distinct, Valid, HostIP, Assign, ClaimedBelow, LowerClaims, SmallerAt, SaltedIP;
    assert PickFrom(a, hash, hostCount, j, LowerClaims(m, j), 0) == Some(m[j]);
    hide PickFrom;
    var t := PickYields(a, hash, hostCount, j, m, 0);
  }

  /** With the host count of AllocateAll, this is what AllocateAll computes. */
  lemma AllocationIsTheStableOne(a: Allocator, hash: Hash, keys: seq<Key>, claims: map<Key, Addr>)
    requires keys != [] && Distinct(keys) && forall k :: k in keys <==> k in claims
    ensures var pick := PickFor(a, hash, |keys|);
            Stable(pick, claims) <==> Assign(pick, Sort(keys)).Some? && Assign(pick, Sort(keys)).value.result == claims
  {
    LiveClaimsStableIff(a, hash, |keys|, keys, claims);
  }

  /** Running nodes, which all use one host count, converge from any claims and beliefs on the canonical
      assignment for that count, even when claims are `d` rounds late: no two share an address, and every
      address is a usable host address. */
  lemma NodesConverge(a: Allocator, hash: Hash, hostCount: nat, d: nat, keys: seq<Key>, m: Mesh,
                      rounds: seq<seq<Move>>, later: seq<seq<Move>>)
    requires Valid(a) && 1 <= hostCount <= a.usableHosts && Distinct(keys)
    requires Assign(PickFor(a, hash, hostCount), Sort(keys)).Some? && |rounds| == |keys| * (d + 1)
    requires Start(Sort(keys), m) && FairRounds(PickFor(a, hash, hostCount), d, Sort(keys), m, rounds)
    requires forall ss :: ss in later ==> AmongMembers(Sort(keys), ss)
    ensures var pick := PickFor(a, hash, hostCount);
            var final, m' := Assign(pick, Sort(keys)).value.result, ApplyRounds(pick, d, m, rounds);
            && (forall k :: k in keys ==> Claims(ApplyRounds(pick, d, m', later), k, final))
            && (forall j, k :: j in keys && k in keys && j != k ==> j in final && k in final && final[j] != final[k])
            && (forall k :: k in keys ==> k in final && exists h :: 1 <= h <= a.usableHosts && final[k] == HostIP(a, h))
  {
    SortDistinct(keys);
    SortLength(keys);
    LiveAssignmentSound(a, hash, hostCount, keys);
    hide Sort, Distinct, Valid, HostIP, PickFor, Assign, FairRounds, ApplyRounds, AmongMembers, Start;
    Converges(PickFor(a, hash, hostCount), d, Sort(keys), m, rounds, later);
  }

  lemma SortLength(keys: seq<Key>)
    ensures |Sort(keys)| == |keys|
  {
    SortSorts(keys);
    assert |multiset(Sort(keys))| == |Sort(keys)| && |multiset(keys)| == |keys|;
  }

  /** The nodes' assignment is AllocateAll's if and only if no running node would move away from the latter. */
  lemma LiveAgreesIff(a: Allocator, hash: Hash, hostCount: nat, keys: seq<Key>)
    requires 1 <= hostCount && keys != [] && Distinct(keys)
    requires Assign(PickFor(a, hash, |keys|), Sort(keys)).Some?
    ensures var all := Assign(PickFor(a, hash, |keys|), Sort(keys)).value.result;
            var live := Assign(PickFor(a, hash, hostCount), Sort(keys));
            (live.Some? && live.value.result == all) <==> Stable(PickFor(a, hash, hostCount), all)
  {
    SortDistinct(keys);
    AssignSettles(PickFor(a, hash, |keys|), Sort(keys));
    LiveClaimsStableIff(a, hash, hostCount, keys, Assign(PickFor(a, hash, |keys|), Sort(keys)).value.result);
  }

  /** It need not be: a node alone in a subnet with two usable hosts takes the second one, where AllocateAll
      gives it the first. */
  lemma LiveCanDiffer()
    ensures var a, hash, keys := Allocator([10, 0, 0, 0], 2, 2), (key: Key, salt: nat) => 1, ["k"];
            && Valid(a) && HostIP(a, 1) != HostIP(a, 2)
            && Assign(PickFor(a, hash, |keys|), Sort(keys)) == Some(Assigned(map["k" := HostIP(a, 1)], {HostIP(a, 1)}))
            && Assign(PickFor(a, hash, a.usableHosts), Sort(keys)) ==
               Some(Assigned(map["k" := HostIP(a, 2)], {HostIP(a, 2)}))
  {
    var a, hash, keys := Allocator([10, 0, 0, 0], 2, 2), (key: Key, salt: nat) => 1, ["k"];
    assert PowOf2(2) == 4 by { assert Pow(2, 1) == 2; }
    assert Value([10, 0, 0, 0]) % 4 == 0 by { TenNet(); }
    HostAddress(a, 1);
    HostAddress(a, 2);
    assert HostIP(a, 1) != HostIP(a, 2);
    assert Sort(keys) == ["k"] by { assert keys[1..] == []; }
    OneKey(PickFor(a, hash, 1), "k", HostIP(a, 1));
    OneKey(PickFor(a, hash, 2), "k", HostIP(a, 2));
  }

  lemma TenNet()
    ensures Value([10, 0, 0, 0]) == 10 * 0x100_0000
  {
    assert [10, 0, 0, 0][..3] == [10, 0, 0] && [10, 0, 0][..2] == [10, 0] && [10, 0][..1] == [10];
  }

  lemma OneKey(pick: Pick, k: Key, ip: Addr)
    requires pick(k, {}) == Some(ip)
    ensures Assign(pick, [k]) == Some(Assigned(map[k := ip], {ip}))
  {
    var ks, none: seq<Key> := [k], [];
    assert ks[..0] == none && Assign(pick, none) == Some(Assigned(map[], {}));
    assert map[][k := ip] == map[k := ip] && {} + {ip} == {ip};
  }
}
