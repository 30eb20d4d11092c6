/** Big-endian byte strings. */
module Bytes {
  import opened Arithmetic

  type byte = x: int | 0 <= x < 256

  /** The number that `s` spells in big-endian order. */
  function Value(s: seq<byte>): nat {
    if s == [] then 0 else 256 * Value(s[..|s| - 1]) + s[|s| - 1]
  }

  /** The last `n` bytes of `v` in big-endian order. */
  function Encode(v: nat, n: nat): (s: seq<byte>)
    ensures |s| == n
  {
    if n == 0 then [] else Encode(v / 256, n - 1) + [v % 256]
  }

  lemma {:induction false} ValueBound(s: seq<byte>)
    ensures Value(s) < Pow(256, |s|)
  {
    if s != [] { ValueBound(s[..|s| - 1]); }
  }

  lemma {:induction false} EncodeValue(v: nat, n: nat)
    requires v < Pow(256, n)
    ensures Value(Encode(v, n)) == v
  {
    if n > 0 {
      EncodeValue(v / 256, n - 1);
      assert Encode(v, n)[..n - 1] == Encode(v / 256, n - 1);
    }
  }

  /** Byte `i` of `n` is the digit worth 256^(n - 1 - i). */
  lemma {:induction false} EncodeDigit(v: nat, n: nat, i: nat)
    requires i < n
    ensures Pow(256, n - 1 - i) > 0 && Encode(v, n)[i] == v / Pow(256, n - 1 - i) % 256
    decreases n
  {
    if i < n - 1 {
      EncodeDigit(v / 256, n - 1, i);
      DivideTwice(v, Pow(256, n - 2 - i));
    }
  }

  lemma DivideTwice(v: nat, w: nat)
    requires w > 0
    ensures v / 256 / w == v / (256 * w)
  {
    var q, r := v / 256 / w, v / 256 % w;
    assert v / 256 == w * q + r;
    assert v == 256 * w * q + (256 * r + v % 256) && 256 * r + v % 256 < 256 * w;
    QuotientIs(v, 256 * w, q, 256 * r + v % 256);
  }

  lemma QuotientIs(v: nat, d: nat, q: nat, r: nat)
    requires v == d * q + r && r < d
    ensures v / d == q
  {
    var p := v / d;
    assert v == d * p + v % d;
    if p > q { MulOrder(q + 1, p, d); }
    if p < q { MulOrder(p + 1, q, d); }
  }

  /** Equally long byte strings that spell the same number are the same. */
  lemma {:induction false} ValueInjective(s: seq<byte>, t: seq<byte>)
    requires |s| == |t| && Value(s) == Value(t)
    ensures s == t
  {
    if s != [] {
      var n := |s| - 1;
      ValueInjective(s[..n], t[..n]);
      assert s == s[..n] + [s[n]] && t == t[..n] + [t[n]];
    }
  }

  lemma {:induction false} EncodeInjective(v: nat, w: nat, n: nat)
    requires v < Pow(256, n) && w < Pow(256, n) && Encode(v, n) == Encode(w, n)
    ensures v == w
  {
    EncodeValue(v, n);
    EncodeValue(w, n);
  }

  /** Replacing one byte changes the number by the difference times the place's weight. */
  lemma {:induction false} UpdateValue(s: seq<byte>, i: nat, x: byte)
    requires i < |s|
    ensures Value(s[i := x]) == Value(s) + (x - s[i]) * Pow(256, |s| - 1 - i)
    decreases |s|
  {
    var n := |s| - 1;
    if i == n {
      assert s[i := x][..n] == s[..n];
    } else {
      UpdateValue(s[..n], i, x);
      assert s[i := x][..n] == s[..n][i := x];
      var w := Pow(256, n - 1 - i);
      assert Pow(256, n - i) == 256 * w;
      assert 256 * ((x - s[i]) * w) == (x - s[i]) * (256 * w);
    }
  }
}
