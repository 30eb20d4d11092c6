/** Allocation seen from the hashes alone: which slot every key ends up in, and when two host counts give
    the same addresses. */
module HostSlots {
  import opened Options
  import opened Collections
  import opened KeyOrder
  import opened AddressClaims
  import opened Ipam

  /** The first slot, over the salts, that is not taken. */
  function FreeSlot(hash: Hash, hostCount: nat, key: Key, taken: set<nat>, salt: nat): Option<nat>
    requires hostCount >= 1
    decreases MAX_SALT_ITERATIONS + 1 - salt
  {
    if salt > MAX_SALT_ITERATIONS then None
    else
      var slot := HashToSlot(hash, key, salt, hostCount);
      if slot !in taken then Some(slot) else FreeSlot(hash, hostCount, key, taken, salt + 1)
  }

  /** Salt `t` is the first one, from `salt` on, that hashes to a free slot. */
  ghost predicate FirstFree(hash: Hash, hostCount: nat, key: Key, taken: set<nat>, salt: nat, t: nat)
    requires hostCount >= 1
  {
    && salt <= t <= 1000 && hash(key, t) % hostCount !in taken
    && forall u: nat :: salt <= u < t ==> hash(key, u) % hostCount in taken
  }

  lemma {:induction false} FreeSlotIff(hash: Hash, hostCount: nat, key: Key, taken: set<nat>, salt: nat, slot: nat)
    requires hostCount >= 1
    ensures FreeSlot(hash, hostCount, key, taken, salt) == Some(slot) <==>
            exists t :: FirstFree(hash, hostCount, key, taken, salt, t) && hash(key, t) % hostCount == slot
    decreases MAX_SALT_ITERATIONS + 1 - salt
  {
    if salt <= MAX_SALT_ITERATIONS {
      var here := hash(key, salt) % hostCount;
      if here in taken {
        FreeSlotIff(hash, hostCount, key, taken, salt + 1, slot);
        forall t: nat
          ensures FirstFree(hash, hostCount, key, taken, salt, t) <==>
                  FirstFree(hash, hostCount, key, taken, salt + 1, t)
        {
          FirstFreeLater(hash, hostCount, key, taken, salt, t);
        }
      } else {
        assert FirstFree(hash, hostCount, key, taken, salt, salt);
        assert forall t: nat :: FirstFree(hash, hostCount, key, taken, salt, t) ==> t == salt;
      }
    }
  }

  lemma FirstFreeLater(hash: Hash, hostCount: nat, key: Key, taken: set<nat>, salt: nat, t: nat)
    requires hostCount >= 1 && hash(key, salt) % hostCount in taken
    ensures FirstFree(hash, hostCount, key, taken, salt, t) <==> FirstFree(hash, hostCount, key, taken, salt + 1, t)
  {
    assert t > salt || !FirstFree(hash, hostCount, key, taken, salt, t);
  }

  ghost function SlotSet(slots: seq<nat>): set<nat> {
    set h | h in slots
  }

  /** The slots of the keys in the given order, each avoiding the slots before. */
  ghost function Slots(hash: Hash, hostCount: nat, ks: seq<Key>): Option<seq<nat>>
    requires hostCount >= 1
  {
    if ks == [] then Some([])
    else
      match Slots(hash, hostCount, ks[..|ks| - 1])
      case None => None
      case Some(slots) =>
        match FreeSlot(hash, hostCount, ks[|ks| - 1], SlotSet(slots), 0)
        case None => None
        case Some(slot) => Some(slots + [slot])
  }

  lemma {:induction false} FreeSlotBound(hash: Hash, hostCount: nat, key: Key, taken: set<nat>, salt: nat)
    requires hostCount >= 1
    ensures var s := FreeSlot(hash, hostCount, key, taken, salt); s.Some? ==> s.value < hostCount
    decreases MAX_SALT_ITERATIONS + 1 - salt
  {
    if salt <= MAX_SALT_ITERATIONS { FreeSlotBound(hash, hostCount, key, taken, salt + 1); }
  }

  lemma {:induction false} SlotsBound(hash: Hash, hostCount: nat, ks: seq<Key>)
    requires hostCount >= 1 && Slots(hash, hostCount, ks).Some?
    ensures var slots := Slots(hash, hostCount, ks).value;
            |slots| == |ks| && forall h :: h in slots ==> h < hostCount
    decreases |ks|
  {
    if ks != [] {
      var before := ks[..|ks| - 1];
      SlotsBound(hash, hostCount, before);
      FreeSlotBound(hash, hostCount, ks[|ks| - 1], SlotSet(Slots(hash, hostCount, before).value), 0);
    }
  }

  // ----- Slots and addresses -----

  lemma HostInjective(a: Allocator, g: nat, h: nat)
    requires Valid(a) && 1 <= g <= a.usableHosts && 1 <= h <= a.usableHosts && HostIP(a, g) == HostIP(a, h)
    ensures g == h
  {
    hide HostIP, Valid;
    HostAddress(a, g);
    HostAddress(a, h);
  }

  ghost function Addresses(a: Allocator, slots: set<nat>): set<Addr> {
    set h | h in slots :: HostIP(a, h + 1)
  }

  ghost function AddressOf(a: Allocator, slot: Option<nat>): Option<Addr> {
    match slot
    case None => None
    case Some(h) => Some(HostIP(a, h + 1))
  }

  lemma AddressTaken(a: Allocator, slots: set<nat>, h: nat)
    requires Valid(a) && h < a.usableHosts && forall g :: g in slots ==> g < a.usableHosts
    ensures HostIP(a, h + 1) in Addresses(a, slots) <==> h in slots
  {
    hide Valid, HostIP;
    if HostIP(a, h + 1) in Addresses(a, slots) {
      var g :| g in slots && HostIP(a, g + 1) == HostIP(a, h + 1);
      HostInjective(a, g + 1, h + 1);
    }
  }

  /** The search among addresses is the search among slots. */
  lemma {:induction false} PickIsSlot(a: Allocator, hash: Hash, hostCount: nat, key: Key, taken: set<nat>, salt: nat)
    requires Valid(a) && 1 <= hostCount <= a.usableHosts && forall g :: g in taken ==> g < a.usableHosts
    ensures PickFrom(a, hash, hostCount, key, Addresses(a, taken), salt) ==
            AddressOf(a, FreeSlot(hash, hostCount, key, taken, salt))
    decreases MAX_SALT_ITERATIONS + 1 - salt
  {
    hide Valid, HostIP, Addresses;
    if salt <= MAX_SALT_ITERATIONS {
      AddressTaken(a, taken, HashToSlot(hash, key, salt, hostCount));
      PickIsSlot(a, hash, hostCount, key, taken, salt + 1);
    }
  }

  /** Every key has the address of its slot. */
  ghost predicate Housed(a: Allocator, ks: seq<Key>, slots: seq<nat>, result: map<Key, Addr>) {
    |slots| == |ks| && forall i :: 0 <= i < |ks| ==> ks[i] in result && result[ks[i]] == HostIP(a, slots[i] + 1)
  }

  lemma AddressesGrow(a: Allocator, slots: seq<nat>, h: nat)
    ensures Addresses(a, SlotSet(slots + [h])) == Addresses(a, SlotSet(slots)) + {HostIP(a, h + 1)}
  {
    hide HostIP;
    assert SlotSet(slots + [h]) == SlotSet(slots) + {h};
  }

  lemma {:induction false} AssignHouses(a: Allocator, hash: Hash, hostCount: nat, ks: seq<Key>)
    requires Valid(a) && 1 <= hostCount <= a.usableHosts && StrictlySorted(ks)
    ensures var all, slots := Assign(PickFor(a, hash, hostCount), ks), Slots(hash, hostCount, ks);
            && (all.Some? <==> slots.Some?)
            && (all.Some? ==> Housed(a, ks, slots.value, all.value.result) &&
                              all.value.claimed == Addresses(a, SlotSet(slots.value)))
    decreases |ks|
  {
    hide Valid, HostIP, Addresses, SlotSet, Less, PickFrom, FreeSlot;
    if ks == [] {
      NoAddresses(a);
    } else {
      var n := |ks| - 1;
      PrefixSorted(ks, n);
      NotAmongSmaller(ks, n);
      AssignHouses(a, hash, hostCount, ks[..n]);
      var before := Slots(hash, hostCount, ks[..n]);
      if before.Some? {
        SlotsBound(hash, hostCount, ks[..n]);
        SetBound(before.value, hostCount);
        PickIsSlot(a, hash, hostCount, ks[n], SlotSet(before.value), 0);
        var slot := FreeSlot(hash, hostCount, ks[n], SlotSet(before.value), 0);
        if slot.Some? { AddressesGrow(a, before.value, slot.value); }
      }
    }
  }

  lemma NoAddresses(a: Allocator)
    ensures Addresses(a, SlotSet([])) == {}
  {
    assert SlotSet([]) == {};
  }

  lemma SetBound(slots: seq<nat>, bound: nat)
    requires forall h :: h in slots ==> h < bound
    ensures forall h :: h in SlotSet(slots) ==> h < bound
  {
  }

  // ----- Two host counts -----

  /** The `i`-th key finds the same slot with both host counts, next to the keys before it. */
  ghost predicate SameSlot(hash: Hash, c: nat, c': nat, ks: seq<Key>, i: nat)
    requires c >= 1 && c' >= 1 && i < |ks|
  {
    Slots(hash, c, ks[..i]).Some? &&
    var taken := SlotSet(Slots(hash, c, ks[..i]).value);
    FreeSlot(hash, c', ks[i], taken, 0) == FreeSlot(hash, c, ks[i], taken, 0)
  }

  lemma {:induction false} SlotsAgree(hash: Hash, c: nat, c': nat, ks: seq<Key>)
    requires c >= 1 && c' >= 1 && Slots(hash, c, ks).Some?
    ensures Slots(hash, c', ks) == Slots(hash, c, ks) <==> forall i :: 0 <= i < |ks| ==> SameSlot(hash, c, c', ks, i)
    decreases |ks|
  {
    if ks != [] {
      var n := |ks| - 1;
      hide FreeSlot, SlotSet;
      SlotsAgree(hash, c, c', ks[..n]);
      forall i | 0 <= i < n ensures SameSlot(hash, c, c', ks[..n], i) == SameSlot(hash, c, c', ks, i) {
        assert ks[..n][..i] == ks[..i];
      }
      assert (forall i :: 0 <= i < |ks| ==> SameSlot(hash, c, c', ks, i)) <==>
             (forall i :: 0 <= i < n ==> SameSlot(hash, c, c', ks[..n], i)) && SameSlot(hash, c, c', ks, n);
      LastSlots(hash, c, c', ks);
    }
  }

  lemma LastSlots(hash: Hash, c: nat, c': nat, ks: seq<Key>)
    requires c >= 1 && c' >= 1 && ks != [] && Slots(hash, c, ks).Some?
    ensures var n := |ks| - 1;
            Slots(hash, c', ks) == Slots(hash, c, ks) <==>
            Slots(hash, c', ks[..n]) == Slots(hash, c, ks[..n]) && SameSlot(hash, c, c', ks, n)
  {
    hide FreeSlot, SlotSet;
    var n := |ks| - 1;
    var s := Slots(hash, c, ks).value;
    assert s[..|s| - 1] == Slots(hash, c, ks[..n]).value;
    if Slots(hash, c', ks).Some? {
      var s' := Slots(hash, c', ks).value;
      assert s'[..|s'| - 1] == Slots(hash, c', ks[..n]).value;
      assert s[|s| - 1] == FreeSlot(hash, c, ks[n], SlotSet(s[..|s| - 1]), 0).value;
      assert s'[|s'| - 1] == FreeSlot(hash, c', ks[n], SlotSet(s'[..|s'| - 1]), 0).value;
    }
  }

  lemma HousedSame(a: Allocator, ks: seq<Key>, slots: seq<nat>, slots': seq<nat>, result: map<Key, Addr>)
    requires Valid(a) && Housed(a, ks, slots, result) && Housed(a, ks, slots', result)
    requires forall h :: h in slots || h in slots' ==> h < a.usableHosts
    ensures slots == slots'
  {
    hide Valid, HostIP;
    forall i | 0 <= i < |ks| ensures slots[i] == slots'[i] {
      assert slots[i] in slots && slots'[i] in slots';
      HostInjective(a, slots[i] + 1, slots'[i] + 1);
    }
  }

  lemma SameHoused(a: Allocator, ks: seq<Key>, slots: seq<nat>, result: map<Key, Addr>, result': map<Key, Addr>)
    requires Housed(a, ks, slots, result) && Housed(a, ks, slots, result')
    requires forall k :: (k in ks <==> k in result) && (k in ks <==> k in result')
    ensures result == result'
  {
    hide HostIP;
    forall k | k in ks ensures result[k] == result'[k] {
      var i :| 0 <= i < |ks| && ks[i] == k;
    }
  }

  /** Running nodes and AllocateAll settle on the same addresses if and only if every key finds the same slot
      with both host counts, next to the slots of the smaller keys. */
  lemma LiveSlotsAgreeIff(a: Allocator, hash: Hash, hostCount: nat, keys: seq<Key>)
    requires Valid(a) && 1 <= hostCount <= a.usableHosts && 1 <= |keys| <= a.usableHosts && Distinct(keys)
    requires Assign(PickFor(a, hash, |keys|), Sort(keys)).Some?
    ensures var all := Assign(PickFor(a, hash, |keys|), Sort(keys)).value.result;
            var live := Assign(PickFor(a, hash, hostCount), Sort(keys));
            (live.Some? && live.value.result == all) <==>
            forall i :: 0 <= i < |Sort(keys)| ==> SameSlot(hash, |keys|, hostCount, Sort(keys), i)
    ensures hostCount == |keys| ==>
              forall i :: 0 <= i < |Sort(keys)| ==> SameSlot(hash, |keys|, hostCount, Sort(keys), i)
  {
    var ks := Sort(keys);
    SortDistinct(keys);
    hide Sort, Distinct, Valid, Housed, SameSlot, Slots, SlotSet, Addresses, PickFor, StrictlySorted;
    AssignHouses(a, hash, |keys|, ks);
    AssignHouses(a, hash, hostCount, ks);
    SlotsAgree(hash, |keys|, hostCount, ks);
    AssignSettles(PickFor(a, hash, |keys|), ks);
    SlotsBound(hash, |keys|, ks);
    var all, live := Assign(PickFor(a, hash, |keys|), ks).value.result, Assign(PickFor(a, hash, hostCount), ks);
    var slots := Slots(hash, |keys|, ks).value;
    hide Assign;
    if live.Some? {
      AssignSettles(PickFor(a, hash, hostCount), ks);
      SlotsBound(hash, hostCount, ks);
      var slots' := Slots(hash, hostCount, ks).value;
      if live.value.result == all { HousedSame(a, ks, slots, slots', all); }
      if slots == slots' { SameHoused(a, ks, slots, all, live.value.result); }
    }
  }
}
