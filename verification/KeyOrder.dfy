/** Public keys in lexicographic order, and sorting by it. */
module KeyOrder {
  import opened Collections

  type Key = string

  predicate Less(a: Key, b: Key) {
    b != [] && (a == [] || a[0] < b[0] || (a[0] == b[0] && Less(a[1..], b[1..])))
  }

  /** The keys agree before position `i`, where `a` ends or has the smaller character. */
  ghost predicate SmallerAt(a: Key, b: Key, i: nat) {
    i <= |a| && i < |b| && a[..i] == b[..i] && (i == |a| || a[i] < b[i])
  }

  /** The order is that of the first difference. */
  lemma {:induction false} LessIff(a: Key, b: Key)
    ensures Less(a, b) <==> exists i: nat :: SmallerAt(a, b, i)
  {
    if a == [] || b == [] || a[0] != b[0] {
      assert b != [] ==> (SmallerAt(a, b, 0) <==> Less(a, b));
      assert forall i: nat :: SmallerAt(a, b, i) && i > 0 ==> a[..i][0] == b[..i][0];
    } else {
      LessIff(a[1..], b[1..]);
      if i: nat :| SmallerAt(a[1..], b[1..], i) { SmallerShift(a, b, i); }
      if i: nat :| SmallerAt(a, b, i) {
        assert i > 0;
        SmallerShift(a, b, i - 1);
      }
    }
  }

  lemma SmallerShift(a: Key, b: Key, i: nat)
    requires a != [] && b != [] && a[0] == b[0]
    ensures SmallerAt(a, b, i + 1) <==> SmallerAt(a[1..], b[1..], i)
  {
    if i + 1 <= |a| && i + 1 <= |b| {
      assert a[..i + 1] == [a[0]] + a[1..][..i] && b[..i + 1] == [b[0]] + b[1..][..i];
    }
  }

  lemma {:induction false} LessIrreflexive(a: Key)
    ensures !Less(a, a)
  {
    if a != [] { LessIrreflexive(a[1..]); }
  }

  lemma {:induction false} LessTotal(a: Key, b: Key)
    ensures a == b || Less(a, b) || Less(b, a)
  {
    if a != [] && b != [] && a[0] == b[0] {
      LessTotal(a[1..], b[1..]);
      assert a == [a[0]] + a[1..] && b == [b[0]] + b[1..];
    }
  }

  lemma {:induction false} LessTransitive(a: Key, b: Key, c: Key)
    requires Less(a, b) && Less(b, c)
    ensures Less(a, c)
  {
    if a != [] && a[0] == b[0] == c[0] { LessTransitive(a[1..], b[1..], c[1..]); }
  }

  /** No key comes before its predecessor; equal keys may repeat. */
  ghost predicate Sorted(ks: seq<Key>) {
    forall i, j :: 0 <= i < j < |ks| ==> !Less(ks[j], ks[i])
  }

  ghost predicate StrictlySorted(ks: seq<Key>) {
    forall i, j :: 0 <= i < j < |ks| ==> Less(ks[i], ks[j])
  }

  function Insert(k: Key, ks: seq<Key>): seq<Key> {
    if ks == [] then [k] else if Less(ks[0], k) then [ks[0]] + Insert(k, ks[1..]) else [k] + ks
  }

  function Sort(ks: seq<Key>): seq<Key> {
    if ks == [] then [] else Insert(ks[0], Sort(ks[1..]))
  }

  lemma {:induction false} InsertSorted(k: Key, ks: seq<Key>)
    requires Sorted(ks)
    ensures Sorted(Insert(k, ks)) && multiset(Insert(k, ks)) == multiset{k} + multiset(ks)
  {
    if ks != [] {
      assert ks == [ks[0]] + ks[1..];
      if Less(ks[0], k) {
        InsertSorted(k, ks[1..]);
        var r := Insert(k, ks[1..]);
        forall j | 0 <= j < |r| ensures !Less(r[j], ks[0]) {
          assert r[j] in multiset(r);
          if r[j] == k { if Less(k, ks[0]) { LessTransitive(ks[0], k, ks[0]); LessIrreflexive(ks[0]); } }
          else { assert r[j] in ks[1..]; }
        }
      } else {
        forall j | 0 <= j < |ks| ensures !Less(ks[j], k) {
          if Less(ks[j], k) {
            LessTotal(ks[0], k);
            if Less(k, ks[0]) { LessTransitive(ks[j], k, ks[0]); }
            LessIrreflexive(k);
          }
        }
      }
    }
  }

  lemma {:induction false} SortSorts(ks: seq<Key>)
    ensures Sorted(Sort(ks)) && multiset(Sort(ks)) == multiset(ks)
  {
    if ks != [] {
      SortSorts(ks[1..]);
      InsertSorted(ks[0], Sort(ks[1..]));
      assert ks == [ks[0]] + ks[1..];
    }
  }

  lemma SortedHead(a: seq<Key>, b: seq<Key>)
    requires Sorted(a) && Sorted(b) && multiset(a) == multiset(b) && a != [] && b != []
    ensures a[0] == b[0]
  {
    assert a[0] in multiset(b) && b[0] in multiset(a);
    var i :| 0 <= i < |b| && b[i] == a[0];
    var j :| 0 <= j < |a| && a[j] == b[0];
    LessTotal(a[0], b[0]);
  }

  /** A sorted sequence is determined by its multiset. */
  lemma {:induction false} SortedUnique(a: seq<Key>, b: seq<Key>)
    requires Sorted(a) && Sorted(b) && multiset(a) == multiset(b)
    ensures a == b
  {
    hide Less;
    if a == [] || b == [] {
      assert |multiset(a)| == |a| && |multiset(b)| == |b|;
    } else {
      SortedHead(a, b);
      SortedTail(a);
      SortedTail(b);
      hide Sorted;
      SortedUnique(a[1..], b[1..]);
      assert a == [a[0]] + a[1..] && b == [b[0]] + b[1..];
    }
  }

  lemma SortedTail(a: seq<Key>)
    requires Sorted(a) && a != []
    ensures Sorted(a[1..]) && multiset(a[1..]) == multiset(a) - multiset{a[0]}
  {
    hide Less;
    assert a == [a[0]] + a[1..];
  }

  /** Sorting forgets the input order. */
  lemma SortOrderFree(a: seq<Key>, b: seq<Key>)
    requires multiset(a) == multiset(b)
    ensures Sort(a) == Sort(b)
  {
    SortSorts(a);
    SortSorts(b);
    SortedUnique(Sort(a), Sort(b));
  }

  lemma {:induction false} DistinctCounts(ks: seq<Key>, k: Key)
    requires Distinct(ks)
    ensures multiset(ks)[k] <= 1
  {
    if ks != [] {
      assert ks == ks[..|ks| - 1] + [ks[|ks| - 1]];
      DistinctCounts(ks[..|ks| - 1], k);
      if k == ks[|ks| - 1] { assert k !in ks[..|ks| - 1]; }
    }
  }

  lemma TwiceCounts(s: seq<Key>, i: nat, j: nat)
    requires i < j < |s| && s[i] == s[j]
    ensures multiset(s)[s[i]] >= 2
  {
    assert s == s[..j] + [s[j]] + s[j + 1..];
    assert s[i] in s[..j];
  }

  lemma SortDistinct(ks: seq<Key>)
    requires Distinct(ks)
    ensures StrictlySorted(Sort(ks)) && forall k :: k in Sort(ks) <==> k in ks
  {
    SortSorts(ks);
    var s := Sort(ks);
    forall i, j | 0 <= i < j < |s| ensures Less(s[i], s[j]) {
      LessTotal(s[i], s[j]);
      if s[i] == s[j] {
        TwiceCounts(s, i, j);
        DistinctCounts(ks, s[i]);
      }
    }
    forall k ensures k in s <==> k in ks {
      assert k in multiset(s) <==> k in multiset(ks);
    }
  }
}
