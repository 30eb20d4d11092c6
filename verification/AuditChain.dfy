/** The audit log's lines: splitting, scanning and checking the hash chain. The JSON codec,
    white-space trimming and SHA-256 are functions of the model's parameter `Codec`. */
module AuditChain {
  import opened Arithmetic
  import opened Options
  import opened Bytes

  const NEWLINE: byte := 10

  type Line = seq<byte>

  /** `fields` stands for everything an entry carries besides its place in the chain. */
  datatype Entry = Entry(sequence: nat, prevHash: string, fields: string)

  datatype Codec = Codec(encode: Entry -> Line, parse: Line -> Option<Entry>, trim: Line -> Line, hash: Line -> string)

  /** Encoded entries are single lines without outer white space, and parsing recovers their place. */
  ghost predicate Faithful(c: Codec) {
    forall e: Entry :: e.sequence < TWO64 ==>
      var l := c.encode(e);
      && l != [] && NEWLINE !in l && c.trim(l) == l
      && c.parse(l).Some? && c.parse(l).value.sequence == e.sequence && c.parse(l).value.prevHash == e.prevHash
  }

  // ----- Lines -----

  function Split(d: seq<byte>): (r: seq<Line>)
    ensures r != []
  {
    if d == [] then [[]]
    else
      var rest := Split(d[1..]);
      if d[0] == NEWLINE then [[]] + rest else [[d[0]] + rest[0]] + rest[1..]
  }

  /** Cut at newlines, after dropping one trailing newline. */
  function SplitLines(d: seq<byte>): seq<Line> {
    if d == [] then []
    else if d[|d| - 1] == NEWLINE then Split(d[..|d| - 1])
    else Split(d)
  }

  function Render(lines: seq<Line>): seq<byte> {
    if lines == [] then [] else Render(lines[..|lines| - 1]) + lines[|lines| - 1] + [NEWLINE]
  }

  lemma {:induction false} SplitOne(l: Line)
    requires NEWLINE !in l
    ensures Split(l) == [l]
  {
    if l != [] {
      SplitOne(l[1..]);
      assert [l[0]] + l[1..] == l;
    }
  }

  lemma {:induction false} SplitAppend(a: seq<byte>, l: Line)
    requires NEWLINE !in l
    ensures Split(a + [NEWLINE] + l) == Split(a) + [l]
    decreases |a|
  {
    var d := a + [NEWLINE] + l;
    if a == [] {
      assert d[1..] == l;
      SplitOne(l);
    } else {
      SplitAppend(a[1..], l);
      assert d[1..] == a[1..] + [NEWLINE] + l;
    }
  }

  ghost predicate OneLiners(lines: seq<Line>) {
    forall i :: 0 <= i < |lines| ==> NEWLINE !in lines[i]
  }

  /** Reading back a file of complete lines gives those lines. */
  lemma {:induction false} SplitRender(lines: seq<Line>)
    requires OneLiners(lines)
    ensures SplitLines(Render(lines)) == lines
    decreases |lines|
  {
    if lines != [] {
      var n := |lines| - 1;
      var before, last := lines[..n], lines[n];
      SplitRender(before);
      var d := Render(lines);
      assert d[..|d| - 1] == Render(before) + last;
      if before == [] {
        assert Render(before) + last == last;
        SplitOne(last);
        assert lines == [last];
      } else {
        var b := Render(before);
        assert b == b[..|b| - 1] + [NEWLINE];
        assert b + last == b[..|b| - 1] + [NEWLINE] + last;
        SplitAppend(b[..|b| - 1], last);
        assert lines == before + [last];
      }
    }
  }

  // ----- The chain -----

  /** The trimmed lines that are not blank. */
  function Records(c: Codec, lines: seq<Line>): seq<Line> {
    if lines == [] then []
    else
      var rest := Records(c, lines[1..]);
      if c.trim(lines[0]) == [] then rest else [c.trim(lines[0])] + rest
  }

  function PrevHashAt(c: Codec, records: seq<Line>, i: nat): string
    requires i <= |records|
  {
    if i == 0 then "" else c.hash(records[i - 1])
  }

  /** A 64-bit counter after `n` steps. */
  function Wrap(n: nat): nat {
    n % TWO64
  }

  lemma WrapNext(n: nat)
    ensures Wrap(Wrap(n) + 1) == Wrap(n + 1)
  {
  }

  /** The sequence number of record `i`, counting from 1. */
  function SequenceAt(i: nat): nat {
    Wrap(i + 1)
  }

  predicate Follows(c: Codec, line: Line, prevHash: string, sequence: nat) {
    c.parse(line).Some? && c.parse(line).value.prevHash == prevHash && c.parse(line).value.sequence == sequence
  }

  /** Record `i` parses, names the hash of the record before it and has the next sequence number. */
  predicate Linked(c: Codec, records: seq<Line>, i: nat)
    requires i < |records|
  {
    Follows(c, records[i], PrevHashAt(c, records, i), SequenceAt(i))
  }

  ghost predicate Chained(c: Codec, records: seq<Line>) {
    forall i :: 0 <= i < |records| ==> Linked(c, records, i)
  }

  /** The record parses, counts on from 1 modulo 2^64, and names the hash of the one before. */
  ghost predicate Continues(c: Codec, records: seq<Line>, i: nat)
    requires i < |records|
  {
    match c.parse(records[i])
    case None => false
    case Some(e) =>
      && e.sequence == (i + 1) % 0x1_0000_0000_0000_0000
      && e.prevHash == if i == 0 then "" else c.hash(records[i - 1])
  }

  lemma ChainedIff(c: Codec, records: seq<Line>)
    ensures Chained(c, records) <==> forall i :: 0 <= i < |records| ==> Continues(c, records, i)
  {
    forall i | 0 <= i < |records| ensures Linked(c, records, i) <==> Continues(c, records, i) {}
    hide Linked, Continues;
  }

  /** Records are taken line by line: blank lines are skipped, others trimmed. */
  lemma {:induction false} RecordsSplit(c: Codec, a: seq<Line>, b: seq<Line>)
    ensures Records(c, a + b) == Records(c, a) + Records(c, b)
    decreases |a|
  {
    if a == [] {
      assert a + b == b;
    } else {
      RecordsSplit(c, a[1..], b);
      assert (a + b)[1..] == a[1..] + b && (a + b)[0] == a[0];
    }
  }

  lemma RecordsOne(c: Codec, l: Line)
    ensures Records(c, [l]) == if c.trim(l) == [] then [] else [c.trim(l)]
  {
    assert [l][1..] == [];
  }

  function VerifyFrom(c: Codec, lines: seq<Line>, expectedPrev: string, expectedSeq: nat): bool
    decreases |lines|
  {
    if lines == [] then true
    else
      var line := c.trim(lines[0]);
      if line == [] then VerifyFrom(c, lines[1..], expectedPrev, expectedSeq)
      else Follows(c, line, expectedPrev, expectedSeq) && VerifyFrom(c, lines[1..], c.hash(line), Wrap(expectedSeq + 1))
  }

  /** Accepts a file if and only if its records form an unbroken chain from sequence 1. */
  method VerifyHashChain(c: Codec, data: seq<byte>) returns (ok: bool)
    ensures ok <==> Chained(c, Records(c, SplitLines(data)))
  {
    var lines := SplitLines(data);
    VerifyMeansChained(c, [], lines);
    assert [] + Records(c, lines) == Records(c, lines);
    hide Records, Chained, SplitLines, Follows;
    var expectedPrev := "";
    var expectedSeq: nat := 1;
    for i := 0 to |lines|
      invariant VerifyFrom(c, lines, "", 1) == VerifyFrom(c, lines[i..], expectedPrev, expectedSeq)
    {
      assert lines[i..][1..] == lines[i + 1..];
      var line := c.trim(lines[i]);
      if |line| == 0 {
        continue;
      }
      if !Follows(c, line, expectedPrev, expectedSeq) {
        return false;
      }
      expectedPrev := c.hash(line);
      expectedSeq := Wrap(expectedSeq + 1);
    }
    return true;
  }

  lemma {:induction false} VerifyMeansChained(c: Codec, seen: seq<Line>, lines: seq<Line>)
    requires Chained(c, seen)
    ensures VerifyFrom(c, lines, PrevHashAt(c, seen, |seen|), SequenceAt(|seen|)) <==>
              Chained(c, seen + Records(c, lines))
    decreases |lines|
  {
    if lines == [] {
      assert seen + [] == seen;
    } else {
      var line, rest := c.trim(lines[0]), Records(c, lines[1..]);
      if line == [] {
        VerifyMeansChained(c, seen, lines[1..]);
      } else {
        ChainStep(c, seen, line);
        assert seen + ([line] + rest) == (seen + [line]) + rest;
        if Follows(c, line, PrevHashAt(c, seen, |seen|), SequenceAt(|seen|)) {
          WrapNext(|seen| + 1);
          VerifyMeansChained(c, seen + [line], lines[1..]);
        } else {
          if Chained(c, (seen + [line]) + rest) { ChainPrefix(c, (seen + [line]) + rest, |seen| + 1); }
          assert ((seen + [line]) + rest)[..|seen| + 1] == seen + [line];
        }
      }
    }
  }

  lemma ChainStep(c: Codec, rs: seq<Line>, line: Line)
    requires Chained(c, rs)
    ensures Chained(c, rs + [line]) <==> Follows(c, line, PrevHashAt(c, rs, |rs|), SequenceAt(|rs|))
    ensures PrevHashAt(c, rs + [line], |rs| + 1) == c.hash(line)
  {
    var rs' := rs + [line];
    forall i | 0 <= i < |rs| ensures Linked(c, rs', i) {
      assert Linked(c, rs, i);
      assert rs'[i] == rs[i] && (i > 0 ==> rs'[i - 1] == rs[i - 1]);
    }
    assert Linked(c, rs', |rs|) <==> Follows(c, line, PrevHashAt(c, rs, |rs|), SequenceAt(|rs|));
  }

  ghost predicate Collisionless(c: Codec) {
    forall a, b :: c.hash(a) != "" && (c.hash(a) == c.hash(b) ==> a == b)
  }

  /** Tamper evidence: the last record of an accepted file determines all of its records. */
  lemma {:induction false} LastRecordDetermines(c: Codec, a: seq<Line>, b: seq<Line>)
    requires Collisionless(c) && Chained(c, a) && Chained(c, b) && a != [] && b != []
    requires a[|a| - 1] == b[|b| - 1]
    ensures a == b
    decreases |a|
  {
    var m, n := |a| - 1, |b| - 1;
    assert Linked(c, a, m) && Linked(c, b, n);
    if m > 0 && n > 0 {
      ChainPrefix(c, a, m);
      ChainPrefix(c, b, n);
      LastRecordDetermines(c, a[..m], b[..n]);
    }
    assert a == a[..m] + [a[m]] && b == b[..n] + [b[n]];
  }

  lemma ChainPrefix(c: Codec, rs: seq<Line>, n: nat)
    requires Chained(c, rs) && n <= |rs|
    ensures Chained(c, rs[..n])
  {
    forall i | 0 <= i < n ensures Linked(c, rs[..n], i) {
      assert Linked(c, rs, i);
    }
  }

  // ----- Scanning -----

  /** Sequence number and own hash of the last line that parses. */
  function ScanLines(c: Codec, lines: seq<Line>): Option<(nat, string)> {
    if lines == [] then None
    else
      var line := c.trim(lines[|lines| - 1]);
      if line != [] && c.parse(line).Some? then Some((c.parse(line).value.sequence, c.hash(line)))
      else ScanLines(c, lines[..|lines| - 1])
  }

  /** The last line that parses decides, and there is no result exactly when no line parses. */
  lemma {:induction false} ScanIsLast(c: Codec, lines: seq<Line>) returns (i: nat)
    ensures match ScanLines(c, lines)
            case None => forall j :: 0 <= j < |lines| ==> !Parses(c, lines[j])
            case Some(r) =>
              && i < |lines| && Parses(c, lines[i]) && (forall j :: i < j < |lines| ==> !Parses(c, lines[j]))
              && r == (c.parse(c.trim(lines[i])).value.sequence, c.hash(c.trim(lines[i])))
    decreases |lines|
  {
    i := 0;
    if lines != [] {
      i := |lines| - 1;
      if !Parses(c, lines[i]) { i := ScanIsLast(c, lines[..|lines| - 1]); }
    }
  }

  predicate Parses(c: Codec, line: Line) {
    c.trim(line) != [] && c.parse(c.trim(line)).Some?
  }

  method ScanChain(c: Codec, data: seq<byte>) returns (r: Option<(nat, string)>)
    ensures r == ScanLines(c, SplitLines(data))
  {
    var lines := SplitLines(data);
    r := None;
    for i := 0 to |lines|
      invariant r == ScanLines(c, lines[..i])
    {
      assert lines[..i + 1][..i] == lines[..i];
      var line := c.trim(lines[i]);
      if |line| == 0 {
        continue;
      }
      var entry := c.parse(line);
      if entry.None? {
        continue;
      }
      r := Some((entry.value.sequence, c.hash(line)));
    }
    assert lines[..|lines|] == lines;
  }
}
