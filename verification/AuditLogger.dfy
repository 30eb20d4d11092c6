/** The rotating audit logger. File 0 is the current log and file i is backup number i. */
module AuditLoggers {
  import opened Options
  import opened Bytes
  import opened AuditChain

  type Files = map<nat, seq<byte>>

  const DEFAULT_ROTATES: nat := 5

  datatype Logger = Logger(files: Files, sequence: nat, prevHash: string)

  // ----- What the operations do -----

  function ContentsOf(files: Files, i: nat): seq<byte> {
    if i in files then files[i] else []
  }

  /** Backup `i` moves up by one place, or is deleted if it is the last one allowed. */
  function MovedUp(files: Files, i: nat, maxBackups: nat): Files {
    if i !in files then files
    else if i == maxBackups then files - {i}
    else files[i + 1 := files[i]] - {i}
  }

  /** Backups `i`, `i - 1`, ..., 1 move up in this order. */
  function ShiftedFrom(files: Files, i: nat, maxBackups: nat): Files
    decreases i
  {
    if i == 0 then files else ShiftedFrom(MovedUp(files, i, maxBackups), i - 1, maxBackups)
  }

  function Rotated(files: Files, maxBackups: nat): Files {
    var shifted := ShiftedFrom(files, maxBackups, maxBackups);
    shifted[1 := ContentsOf(shifted, 0)][0 := []]
  }

  function Lookup(files: Files, i: nat): Option<seq<byte>> {
    if i in files then Some(files[i]) else None
  }

  /** No backup is overwritten before it has moved: each ends up exactly one place higher. */
  lemma {:induction false} ShiftEffect(files: Files, i: nat, maxBackups: nat, j: nat)
    requires i <= maxBackups && (i < maxBackups ==> i + 1 !in files)
    ensures Lookup(ShiftedFrom(files, i, maxBackups), j) ==
            if i == 0 || j == 0 || j > i + 1 || j > maxBackups then Lookup(files, j)
            else if j == 1 then None
            else Lookup(files, j - 1)
    decreases i
  {
    if i > 0 {
      ShiftEffect(MovedUp(files, i, maxBackups), i - 1, maxBackups, j);
    }
  }

  /** Rotation empties the current file, makes it backup 1 and keeps the newest `maxBackups` backups in order. */
  lemma RotateEffect(files: Files, maxBackups: nat, j: nat)
    requires maxBackups >= 1
    ensures Lookup(Rotated(files, maxBackups), j) ==
            if j == 0 then Some([])
            else if j == 1 then Some(ContentsOf(files, 0))
            else if j <= maxBackups then Lookup(files, j - 1)
            else Lookup(files, j)
  {
    ShiftEffect(files, maxBackups, maxBackups, j);
    ShiftEffect(files, maxBackups, maxBackups, 0);
  }

  function MaybeRotated(files: Files, maxBytes: int, maxBackups: nat): Files {
    if maxBytes <= 0 || |ContentsOf(files, 0)| < maxBytes then files else Rotated(files, maxBackups)
  }

  function LineFor(c: Codec, l: Logger, fields: string): Line {
    c.encode(Entry(Wrap(l.sequence + 1), l.prevHash, fields))
  }

  function Logged(c: Codec, maxBytes: int, maxBackups: nat, l: Logger, fields: string): Logger {
    var line := LineFor(c, l, fields);
    Logger(MaybeRotated(l.files[0 := ContentsOf(l.files, 0) + line + [NEWLINE]], maxBytes, maxBackups),
           Wrap(l.sequence + 1), c.hash(line))
  }

  /** The newest file that holds a parsable line, looking at the current file and then at backups 1 to 5. */
  function Recovered(c: Codec, files: Files, i: nat): (nat, string)
    decreases DEFAULT_ROTATES + 1 - i
  {
    match ScanLines(c, SplitLines(ContentsOf(files, i)))
    case Some(r) => r
    case None => if i >= DEFAULT_ROTATES then (0, "") else Recovered(c, files, i + 1)
  }

  /** The first of the current file and backups 1 to 5 that holds a parsable line decides. */
  lemma {:induction false} RecoversNewest(c: Codec, files: Files, i: nat) returns (k: nat)
    requires i <= 5
    ensures i <= k <= 6
    ensures forall j :: i <= j < k ==> ScanLines(c, SplitLines(ContentsOf(files, j))).None?
    ensures k <= 5 ==> ScanLines(c, SplitLines(ContentsOf(files, k))) == Some(Recovered(c, files, i))
    ensures k == 6 ==> Recovered(c, files, i) == (0, "")
    decreases 5 - i
  {
    hide ScanLines, SplitLines;
    k := i;
    if ScanLines(c, SplitLines(ContentsOf(files, i))).None? {
      if i == 5 { k := 6; } else { k := RecoversNewest(c, files, i + 1); }
    }
  }

  /** Opening the log again: the file is created if missing and the chain state is read back. */
  function Restarted(c: Codec, l: Logger): Logger {
    var files := l.files[0 := ContentsOf(l.files, 0)];
    var (sequence, prevHash) := Recovered(c, files, 0);
    Logger(files, sequence, prevHash)
  }

  // ----- The logger object -----

  class AuditLogger {
    const codec: Codec
    const maxBytes: int
    const maxBackups: nat
    var files: Files
    var sequence: nat
    var prevHash: string

    ghost function View(): Logger
      reads this
    {
      Logger(files, sequence, prevHash)
    }

    /** `maxBytes <= 0` is a logger without rotation. */
    constructor (codec: Codec, maxBytes: int, maxBackups: nat, files: Files)
      ensures this.codec == codec && this.maxBytes == maxBytes
      ensures this.maxBackups == if maxBackups == 0 then 5 else maxBackups
      ensures View() == Restarted(codec, Logger(files, 0, ""))
    {
      this.codec, this.maxBytes := codec, maxBytes;
      this.maxBackups := if maxBackups == 0 then DEFAULT_ROTATES else maxBackups;
      this.files := files[0 := ContentsOf(files, 0)];
      sequence, prevHash := 0, "";
      new;
      RecoverChain();
    }

    method RecoverChain()
      modifies this
      ensures files == old(files)
      ensures old(sequence) == 0 && old(prevHash) == "" ==> (sequence, prevHash) == Recovered(codec, files, 0)
    {
      hide ScanLines, SplitLines;
      for i := 0 to DEFAULT_ROTATES + 1
        invariant View() == old(View())
        invariant i <= DEFAULT_ROTATES ==> Recovered(codec, files, 0) == Recovered(codec, files, i)
        invariant i == DEFAULT_ROTATES + 1 ==> Recovered(codec, files, 0) == (0, "")
      {
        var r := ScanChain(codec, ContentsOf(files, i));
        if r.Some? {
          sequence, prevHash := r.value.0, r.value.1;
          return;
        }
      }
    }

    method Log(fields: string)
      requires 0 in files
      modifies this
      ensures View() == Logged(codec, maxBytes, maxBackups, old(View()), fields)
    {
      sequence := Wrap(sequence + 1);
      var data := codec.encode(Entry(sequence, prevHash, fields));
      prevHash := codec.hash(data);
      files := files[0 := files[0] + data + [NEWLINE]];
      MaybeRotate();
    }

    method MaybeRotate()
      requires 0 in files
      modifies this`files
      ensures files == MaybeRotated(old(files), maxBytes, maxBackups)
    {
      if maxBytes <= 0 || |files[0]| < maxBytes {
        return;
      }
      for i := maxBackups downto 0
        invariant ShiftedFrom(files, i, maxBackups) == ShiftedFrom(old(files), maxBackups, maxBackups)
      {
        if i + 1 in files {
          if i + 1 == maxBackups {
            files := files - {i + 1};
          } else {
            files := files[i + 2 := files[i + 1]] - {i + 1};
          }
        }
      }
      files := files[1 := ContentsOf(files, 0)][0 := []];
    }
  }
}

/** What survives any sequence of Log, rotation and restart. */
module AuditRetention {
  import opened Options
  import opened Bytes
  import opened AuditChain
  import opened AuditLoggers

  /** Oldest first: the chunk with the highest number comes first. */
  function Flatten(chunks: seq<seq<Line>>): seq<Line> {
    if chunks == [] then [] else Flatten(chunks[1..]) + chunks[0]
  }

  /** Every line ever logged, chained: each encodes the next sequence number and the hash of the line before. */
  ghost predicate History(c: Codec, all: seq<Line>) {
    forall i :: 0 <= i < |all| ==> IsEntry(c, all[i], SequenceAt(i), PrevHashAt(c, all, i))
  }

  ghost predicate IsEntry(c: Codec, line: Line, sequence: nat, prevHash: string) {
    exists fields :: line == c.encode(Entry(sequence, prevHash, fields))
  }

  /** File i holds exactly chunk i, and only the current file may be empty. */
  ghost predicate Holds(files: Files, chunks: seq<seq<Line>>) {
    && |chunks| >= 1
    && (forall i: nat :: Lookup(files, i) == FileFor(chunks, i))
    && (forall i :: 1 <= i < |chunks| ==> chunks[i] != [])
  }

  ghost function FileFor(chunks: seq<seq<Line>>, i: nat): Option<seq<byte>> {
    if i < |chunks| then Some(Render(chunks[i])) else None
  }

  ghost predicate IsSuffix(part: seq<Line>, all: seq<Line>) {
    |part| <= |all| && part == all[|all| - |part|..]
  }

  /** The chain state is that of the last line ever logged. */
  ghost predicate AtEnd(c: Codec, l: Logger, all: seq<Line>) {
    History(c, all) && l.sequence == Wrap(|all|) && l.prevHash == PrevHashAt(c, all, |all|)
  }

  /** Nothing is lost before the backups are full. */
  ghost predicate Retains(c: Codec, maxBackups: nat, l: Logger, all: seq<Line>, chunks: seq<seq<Line>>) {
    && |chunks| <= maxBackups + 1 && Holds(l.files, chunks)
    && IsSuffix(Flatten(chunks), all)
    && (|chunks| <= maxBackups ==> Flatten(chunks) == all) && (|chunks| == 1 ==> chunks[0] == all)
    && AtEnd(c, l, all)
  }

  lemma NextIsEntry(c: Codec, l: Logger, all: seq<Line>, fields: string)
    requires l.sequence == Wrap(|all|) && l.prevHash == PrevHashAt(c, all, |all|)
    ensures IsEntry(c, LineFor(c, l, fields), SequenceAt(|all|), PrevHashAt(c, all, |all|))
    ensures Wrap(l.sequence + 1) == Wrap(|all| + 1)
  {
    hide Wrap, PrevHashAt;
    WrapNext(|all|);
    assert LineFor(c, l, fields) == c.encode(Entry(SequenceAt(|all|), PrevHashAt(c, all, |all|), fields));
  }

  lemma HistoryExtends(c: Codec, all: seq<Line>, line: Line)
    requires History(c, all) && IsEntry(c, line, SequenceAt(|all|), PrevHashAt(c, all, |all|))
    ensures History(c, all + [line])
    ensures PrevHashAt(c, all + [line], |all| + 1) == c.hash(line)
  {
    hide IsEntry, SequenceAt;
    var all' := all + [line];
    forall i | 0 <= i < |all'| ensures IsEntry(c, all'[i], SequenceAt(i), PrevHashAt(c, all', i)) {
      SamePrevHash(c, all, line, i);
      hide PrevHashAt;
      if i < |all| { assert all'[i] == all[i]; }
    }
  }

  lemma SamePrevHash(c: Codec, all: seq<Line>, line: Line, i: nat)
    requires i <= |all|
    ensures PrevHashAt(c, all + [line], i) == PrevHashAt(c, all, i)
  {
  }

  lemma LogAdvances(c: Codec, maxBytes: int, maxBackups: nat, l: Logger, all: seq<Line>, fields: string)
    requires AtEnd(c, l, all)
    ensures AtEnd(c, Logged(c, maxBytes, maxBackups, l, fields), all + [LineFor(c, l, fields)])
  {
    NextIsEntry(c, l, all, fields);
    HistoryExtends(c, all, LineFor(c, l, fields));
    hide History, MaybeRotated, IsEntry, SequenceAt, PrevHashAt, Wrap;
  }

  /** The chunks after the new line is appended to the current one. */
  function Appended(chunks: seq<seq<Line>>, line: Line): seq<seq<Line>>
    requires chunks != []
  {
    [chunks[0] + [line]] + chunks[1..]
  }

  lemma AppendRender(lines: seq<Line>, line: Line)
    ensures Render(lines + [line]) == Render(lines) + line + [NEWLINE]
  {
    assert (lines + [line])[..|lines|] == lines;
  }

  lemma AppendHolds(files: Files, chunks: seq<seq<Line>>, line: Line)
    requires Holds(files, chunks)
    ensures Holds(files[0 := ContentsOf(files, 0) + line + [NEWLINE]], Appended(chunks, line))
  {
    AppendRender(chunks[0], line);
    assert Lookup(files, 0) == FileFor(chunks, 0);
    hide Render;
    var chunks', files' := Appended(chunks, line), files[0 := ContentsOf(files, 0) + line + [NEWLINE]];
    assert forall i :: 1 <= i < |chunks| ==> chunks'[i] == chunks[i];
    forall i: nat ensures Lookup(files', i) == FileFor(chunks', i) {
      assert i > 0 ==> Lookup(files', i) == Lookup(files, i) == FileFor(chunks, i) == FileFor(chunks', i);
    }
  }

  lemma AppendFlatten(chunks: seq<seq<Line>>, line: Line)
    requires chunks != []
    ensures Flatten(Appended(chunks, line)) == Flatten(chunks) + [line]
  {
    assert Appended(chunks, line)[1..] == chunks[1..];
  }

  /** After rotation: an empty current file, and at most `maxBackups` backups. */
  function Shifted(chunks: seq<seq<Line>>, maxBackups: nat): seq<seq<Line>> {
    var all := [[]] + chunks;
    if |all| <= maxBackups + 1 then all else all[..maxBackups + 1]
  }

  lemma RotatedFile(files: Files, chunks: seq<seq<Line>>, maxBackups: nat, i: nat)
    requires Holds(files, chunks) && 1 <= maxBackups && |chunks| <= maxBackups + 1
    ensures Lookup(Rotated(files, maxBackups), i) == FileFor(Shifted(chunks, maxBackups), i)
  {
    assert Render([]) == [];
    hide Render, Rotated;
    RotateEffect(files, maxBackups, i);
    assert Lookup(files, 0) == FileFor(chunks, 0) && Lookup(files, i) == FileFor(chunks, i);
    if i > 0 { assert Lookup(files, i - 1) == FileFor(chunks, i - 1); }
  }

  lemma RotateHolds(files: Files, chunks: seq<seq<Line>>, maxBackups: nat)
    requires Holds(files, chunks) && 1 <= maxBackups && |chunks| <= maxBackups + 1 && chunks[0] != []
    ensures Holds(Rotated(files, maxBackups), Shifted(chunks, maxBackups))
  {
    hide FileFor, Rotated, Lookup;
    var chunks', files' := Shifted(chunks, maxBackups), Rotated(files, maxBackups);
    forall i: nat ensures Lookup(files', i) == FileFor(chunks', i) {
      RotatedFile(files, chunks, maxBackups, i);
    }
  }

  lemma {:induction false} FlattenPrefix(chunks: seq<seq<Line>>, n: nat)
    requires n <= |chunks|
    ensures IsSuffix(Flatten(chunks[..n]), Flatten(chunks))
  {
    if n > 0 {
      FlattenPrefix(chunks[1..], n - 1);
      assert chunks[..n][1..] == chunks[1..][..n - 1];
    }
  }

  lemma RotateFlatten(chunks: seq<seq<Line>>, maxBackups: nat)
    ensures IsSuffix(Flatten(Shifted(chunks, maxBackups)), Flatten(chunks))
    ensures |chunks| <= maxBackups ==> Flatten(Shifted(chunks, maxBackups)) == Flatten(chunks)
  {
    var full := [[]] + chunks;
    assert full[1..] == chunks;
    assert Flatten(full) == Flatten(chunks);
    var n := |Shifted(chunks, maxBackups)|;
    assert Shifted(chunks, maxBackups) == full[..n];
    FlattenPrefix(full, n);
  }

  lemma SuffixOfSuffix(a: seq<Line>, b: seq<Line>, all: seq<Line>)
    requires IsSuffix(a, b) && IsSuffix(b, all)
    ensures IsSuffix(a, all)
  {
  }

  lemma SuffixGrows(part: seq<Line>, all: seq<Line>, line: Line)
    requires IsSuffix(part, all)
    ensures IsSuffix(part + [line], all + [line])
  {
  }

  /** Logging keeps the retained files a contiguous suffix of everything logged. */
  lemma LogKeeps(c: Codec, maxBytes: int, maxBackups: nat, l: Logger, all: seq<Line>, chunks: seq<seq<Line>>,
                 fields: string)
    returns (chunks': seq<seq<Line>>)
    requires Retains(c, maxBackups, l, all, chunks) && maxBackups >= 1
    ensures Retains(c, maxBackups, Logged(c, maxBytes, maxBackups, l, fields), all + [LineFor(c, l, fields)], chunks')
  {
    hide AtEnd, Flatten, Rotated, IsSuffix;
    var line := LineFor(c, l, fields);
    LogAdvances(c, maxBytes, maxBackups, l, all, fields);
    AppendHolds(l.files, chunks, line);
    AppendFlatten(chunks, line);
    SuffixGrows(Flatten(chunks), all, line);
    chunks' := Appended(chunks, line);
    var files := l.files[0 := ContentsOf(l.files, 0) + line + [NEWLINE]];
    hide Holds;
    if !(maxBytes <= 0 || |ContentsOf(files, 0)| < maxBytes) {
      RotateHolds(files, chunks', maxBackups);
      RotateFlatten(chunks', maxBackups);
      SuffixOfSuffix(Flatten(Shifted(chunks', maxBackups)), Flatten(chunks'), all + [line]);
      chunks' := Shifted(chunks', maxBackups);
    }
  }

  // ----- Reading back -----

  lemma HistoryLine(c: Codec, all: seq<Line>, i: nat)
    requires Faithful(c) && History(c, all) && i < |all|
    ensures all[i] != [] && NEWLINE !in all[i] && c.trim(all[i]) == all[i]
    ensures Linked(c, all, i)
  {
    assert IsEntry(c, all[i], SequenceAt(i), PrevHashAt(c, all, i));
    var fields :| all[i] == c.encode(Entry(SequenceAt(i), PrevHashAt(c, all, i), fields));
  }

  lemma {:induction false} InFlatten(chunks: seq<seq<Line>>, i: nat)
    requires i < |chunks|
    ensures forall x :: x in chunks[i] ==> x in Flatten(chunks)
  {
    if i > 0 { InFlatten(chunks[1..], i - 1); }
  }

  lemma CleanChunk(c: Codec, all: seq<Line>, chunks: seq<seq<Line>>, i: nat)
    requires Faithful(c) && History(c, all) && IsSuffix(Flatten(chunks), all) && i < |chunks|
    ensures OneLiners(chunks[i])
  {
    InFlatten(chunks, i);
    forall k | 0 <= k < |chunks[i]| ensures NEWLINE !in chunks[i][k] {
      assert chunks[i][k] in chunks[i];
      assert chunks[i][k] in all;
      var j :| 0 <= j < |all| && all[j] == chunks[i][k];
      HistoryLine(c, all, j);
    }
  }

  /** Scanning the newest non-empty file finds the last line ever logged. */
  lemma ScanFile(c: Codec, maxBackups: nat, l: Logger, all: seq<Line>, chunks: seq<seq<Line>>, i: nat)
    requires Faithful(c) && Retains(c, maxBackups, l, all, chunks) && i < |chunks|
    requires forall j :: 0 <= j < i ==> chunks[j] == []
    ensures chunks[i] == [] ==> ScanLines(c, SplitLines(ContentsOf(l.files, i))) == None
    ensures chunks[i] != [] ==> ScanLines(c, SplitLines(ContentsOf(l.files, i))) == Some((l.sequence, l.prevHash))
  {
    CleanChunk(c, all, chunks, i);
    SplitRender(chunks[i]);
    assert Lookup(l.files, i) == FileFor(chunks, i);
    if chunks[i] != [] {
      LastLine(chunks, i);
      var last := |all| - 1;
      assert all[last] == chunks[i][|chunks[i]| - 1];
      HistoryLine(c, all, last);
    }
    hide Render, SplitLines, Flatten, History;
  }

  lemma {:induction false} LastLine(chunks: seq<seq<Line>>, i: nat)
    requires i < |chunks| && chunks[i] != [] && forall j :: 0 <= j < i ==> chunks[j] == []
    ensures Flatten(chunks) != [] && Flatten(chunks)[|Flatten(chunks)| - 1] == chunks[i][|chunks[i]| - 1]
  {
    if i > 0 { LastLine(chunks[1..], i - 1); }
  }

  lemma RecoversState(c: Codec, maxBackups: nat, l: Logger, all: seq<Line>, chunks: seq<seq<Line>>)
    requires Faithful(c) && Retains(c, maxBackups, l, all, chunks)
    ensures Recovered(c, l.files, 0) == (l.sequence, l.prevHash)
  {
    hide ScanLines, SplitLines, Render, History, Faithful;
    ScanFile(c, maxBackups, l, all, chunks, 0);
    if chunks[0] == [] {
      if |chunks| > 1 {
        ScanFile(c, maxBackups, l, all, chunks, 1);
      } else {
        EmptyFiles(l.files, chunks);
        NothingToRecover(c, l.files, 0);
      }
    }
  }

  lemma EmptyFiles(files: Files, chunks: seq<seq<Line>>)
    requires Holds(files, chunks) && chunks == [[]]
    ensures forall j: nat :: ContentsOf(files, j) == []
  {
    forall j: nat ensures ContentsOf(files, j) == [] {
      assert Lookup(files, j) == FileFor(chunks, j);
    }
  }

  /** A restart changes nothing: sequence number and hash continue where they were. */
  lemma RestartKeeps(c: Codec, maxBackups: nat, l: Logger, all: seq<Line>, chunks: seq<seq<Line>>)
    requires Faithful(c) && Retains(c, maxBackups, l, all, chunks)
    ensures Restarted(c, l) == l
  {
    RecoversState(c, maxBackups, l, all, chunks);
    assert 0 in l.files by { assert Lookup(l.files, 0) == FileFor(chunks, 0); }
    hide Recovered, Retains, Faithful;
    assert l.files[0 := ContentsOf(l.files, 0)] == l.files;
  }

  lemma {:induction false} NothingToRecover(c: Codec, files: Files, i: nat)
    requires i <= DEFAULT_ROTATES && forall j: nat :: j >= i ==> ContentsOf(files, j) == []
    ensures Recovered(c, files, i) == (0, "")
    decreases DEFAULT_ROTATES - i
  {
    if i < DEFAULT_ROTATES { NothingToRecover(c, files, i + 1); }
  }

  // ----- Runs -----

  datatype Op = LogOp(fields: string) | RestartOp

  function Apply(c: Codec, maxBytes: int, maxBackups: nat, l: Logger, op: Op): Logger {
    match op
    case LogOp(fields) => Logged(c, maxBytes, maxBackups, l, fields)
    case RestartOp => Restarted(c, l)
  }

  function ApplyAll(c: Codec, maxBytes: int, maxBackups: nat, ops: seq<Op>): Logger {
    if ops == [] then Logger(map[0 := []], 0, "")
    else Apply(c, maxBytes, maxBackups, ApplyAll(c, maxBytes, maxBackups, ops[..|ops| - 1]), ops[|ops| - 1])
  }

  /** Every line logged in the run. */
  function AllLines(c: Codec, maxBytes: int, maxBackups: nat, ops: seq<Op>): seq<Line> {
    if ops == [] then []
    else
      var before := AllLines(c, maxBytes, maxBackups, ops[..|ops| - 1]);
      match ops[|ops| - 1]
      case LogOp(fields) => before + [LineFor(c, ApplyAll(c, maxBytes, maxBackups, ops[..|ops| - 1]), fields)]
      case RestartOp => before
  }

  /** After any run of logs and restarts the retained files, oldest to newest, are a contiguous
      suffix of the chained history and the logger's state matches its last line. */
  lemma {:induction false} RunRetains(c: Codec, maxBytes: int, maxBackups: nat, ops: seq<Op>)
    returns (chunks: seq<seq<Line>>)
    requires Faithful(c) && maxBackups >= 1
    ensures Retains(c, maxBackups, ApplyAll(c, maxBytes, maxBackups, ops), AllLines(c, maxBytes, maxBackups, ops),
                    chunks)
    decreases |ops|
  {
    if ops == [] {
      chunks := [[]];
      assert Flatten(chunks[1..]) == [] && Render([]) == [];
    } else {
      var before, op := ops[..|ops| - 1], ops[|ops| - 1];
      chunks := RunRetains(c, maxBytes, maxBackups, before);
      var l, all := ApplyAll(c, maxBytes, maxBackups, before), AllLines(c, maxBytes, maxBackups, before);
      match op {
        case LogOp(fields) => chunks := LogKeeps(c, maxBytes, maxBackups, l, all, chunks, fields);
        case RestartOp => RestartKeeps(c, maxBackups, l, all, chunks);
      }
    }
  }

  /** The fields of the log operations, in order. */
  function FieldsOf(ops: seq<Op>): seq<string> {
    if ops == [] then []
    else FieldsOf(ops[..|ops| - 1]) + if ops[|ops| - 1].LogOp? then [ops[|ops| - 1].fields] else []
  }

  /** Line `i` encodes these fields, with its number and the hash of the line before. */
  ghost predicate LineIs(c: Codec, all: seq<Line>, i: nat, fields: string)
    requires i < |all|
  {
    var prevHash := if i == 0 then "" else c.hash(all[i - 1]);
    all[i] == c.encode(Entry((i + 1) % 0x1_0000_0000_0000_0000, prevHash, fields))
  }

  lemma AllLinesStep(c: Codec, maxBytes: int, maxBackups: nat, ops: seq<Op>)
    requires ops != []
    ensures var before, op := ops[..|ops| - 1], ops[|ops| - 1];
            AllLines(c, maxBytes, maxBackups, ops) ==
            AllLines(c, maxBytes, maxBackups, before) +
            if op.LogOp? then [LineFor(c, ApplyAll(c, maxBytes, maxBackups, before), op.fields)] else []
  {
    hide ApplyAll, LineFor;
  }

  /** Line `i` of a run is that of log `i`, and there are no others. */
  lemma {:induction false} LinesExact(c: Codec, maxBytes: int, maxBackups: nat, ops: seq<Op>)
    requires Faithful(c) && maxBackups >= 1
    ensures var all := AllLines(c, maxBytes, maxBackups, ops);
            |all| == |FieldsOf(ops)| && forall i :: 0 <= i < |all| ==> LineIs(c, all, i, FieldsOf(ops)[i])
    decreases |ops|
  {
    hide ApplyAll, Faithful, AllLines, LineFor, LineIs, Retains, AtEnd;
    if ops == [] {
      NoLines(c, maxBytes, maxBackups);
    } else {
      var before, op := ops[..|ops| - 1], ops[|ops| - 1];
      LinesExact(c, maxBytes, maxBackups, before);
      AllLinesStep(c, maxBytes, maxBackups, ops);
      assert AllLines(c, maxBytes, maxBackups, before) + [] == AllLines(c, maxBytes, maxBackups, before);
      if op.LogOp? {
        var chunks := RunRetains(c, maxBytes, maxBackups, before);
        var l, all := ApplyAll(c, maxBytes, maxBackups, before), AllLines(c, maxBytes, maxBackups, before);
        RetainsAtEnd(c, maxBackups, l, all, chunks);
        NextLine(c, l, all, op.fields);
        forall i | 0 <= i < |all| ensures LineIs(c, all + [LineFor(c, l, op.fields)], i, FieldsOf(ops)[i]) {
          LineStays(c, all, LineFor(c, l, op.fields), i, FieldsOf(before)[i]);
        }
      }
    }
  }

  lemma NoLines(c: Codec, maxBytes: int, maxBackups: nat)
    ensures AllLines(c, maxBytes, maxBackups, []) == []
  {
  }

  lemma LineStays(c: Codec, all: seq<Line>, line: Line, i: nat, fields: string)
    requires i < |all| && LineIs(c, all, i, fields)
    ensures LineIs(c, all + [line], i, fields)
  {
    assert (all + [line])[i] == all[i] && (i > 0 ==> (all + [line])[i - 1] == all[i - 1]);
  }

  lemma NextLine(c: Codec, l: Logger, all: seq<Line>, fields: string)
    requires AtEnd(c, l, all)
    ensures LineIs(c, all + [LineFor(c, l, fields)], |all|, fields)
  {
    hide History;
    NextNumber(|all|);
    hide Wrap;
    assert all != [] ==> (all + [LineFor(c, l, fields)])[|all| - 1] == all[|all| - 1];
  }

  lemma NextNumber(n: nat)
    ensures Wrap(Wrap(n) + 1) == (n + 1) % 0x1_0000_0000_0000_0000
  {
    WrapNext(n);
  }

  lemma RetainsAtEnd(c: Codec, maxBackups: nat, l: Logger, all: seq<Line>, chunks: seq<seq<Line>>)
    requires Retains(c, maxBackups, l, all, chunks)
    ensures AtEnd(c, l, all)
  {
  }

  /** Without a size limit nothing ever rotates: the current file holds everything. */
  lemma {:induction false} UnlimitedKeepsAll(c: Codec, maxBytes: int, maxBackups: nat, ops: seq<Op>)
    requires maxBytes <= 0
    ensures ApplyAll(c, maxBytes, maxBackups, ops).files == map[0 := Render(AllLines(c, maxBytes, maxBackups, ops))]
    decreases |ops|
  {
    hide Recovered, LineFor;
    if ops != [] {
      var before := ops[..|ops| - 1];
      UnlimitedKeepsAll(c, maxBytes, maxBackups, before);
      if ops[|ops| - 1].LogOp? {
        AppendRender(AllLines(c, maxBytes, maxBackups, before),
                     LineFor(c, ApplyAll(c, maxBytes, maxBackups, before), ops[|ops| - 1].fields));
      }
      hide Render;
    }
  }

  /** With a limit, the current file is always below it, and every backup has reached it. */
  ghost predicate Sized(files: Files, maxBytes: int) {
    forall i :: i in files ==> if i == 0 then |files[i]| < maxBytes else |files[i]| >= maxBytes
  }

  lemma {:induction false} RunSized(c: Codec, maxBytes: int, maxBackups: nat, ops: seq<Op>)
    requires maxBytes > 0 && maxBackups >= 1
    ensures Sized(ApplyAll(c, maxBytes, maxBackups, ops).files, maxBytes)
    decreases |ops|
  {
    hide Recovered, Logged;
    if ops != [] {
      var before, op := ops[..|ops| - 1], ops[|ops| - 1];
      RunSized(c, maxBytes, maxBackups, before);
      if op.LogOp? { LogSized(c, maxBytes, maxBackups, ApplyAll(c, maxBytes, maxBackups, before), op.fields); }
    }
  }

  lemma LogSized(c: Codec, maxBytes: int, maxBackups: nat, l: Logger, fields: string)
    requires maxBytes > 0 && maxBackups >= 1 && Sized(l.files, maxBytes)
    ensures Sized(Logged(c, maxBytes, maxBackups, l, fields).files, maxBytes)
  {
    var files := l.files[0 := ContentsOf(l.files, 0) + LineFor(c, l, fields) + [NEWLINE]];
    hide LineFor, Rotated;
    if |files[0]| >= maxBytes {
      forall i: nat | i in Rotated(files, maxBackups)
        ensures var f := Rotated(files, maxBackups)[i]; if i == 0 then |f| < maxBytes else |f| >= maxBytes
      {
        RotateEffect(files, maxBackups, i);
      }
    }
  }

  lemma {:induction false} CleanRecords(c: Codec, lines: seq<Line>)
    requires forall i :: 0 <= i < |lines| ==> lines[i] != [] && c.trim(lines[i]) == lines[i]
    ensures Records(c, lines) == lines
  {
    if lines != [] {
      CleanRecords(c, lines[1..]);
      assert lines == [lines[0]] + lines[1..];
    }
  }

  // ----- Which files pass verification -----

  /** Reading back lines of the history gives exactly these lines. */
  lemma ReadBack(c: Codec, all: seq<Line>, lo: nat, hi: nat)
    requires Faithful(c) && History(c, all) && lo <= hi <= |all|
    ensures Records(c, SplitLines(Render(all[lo..hi]))) == all[lo..hi]
  {
    var part := all[lo..hi];
    forall i | 0 <= i < |part| ensures part[i] != [] && NEWLINE !in part[i] && c.trim(part[i]) == part[i] {
      HistoryLine(c, all, lo + i);
    }
    SplitRender(part);
    CleanRecords(c, part);
  }

  lemma PrefixChained(c: Codec, all: seq<Line>, hi: nat)
    requires Faithful(c) && History(c, all) && hi <= |all|
    ensures Chained(c, all[..hi])
  {
    forall i | 0 <= i < hi ensures Linked(c, all[..hi], i) {
      HistoryLine(c, all, i);
    }
  }

  /** A stretch of the history is a chain of its own if and only if it is empty or starts with the first line. */
  lemma PartChainedIff(c: Codec, all: seq<Line>, lo: nat, hi: nat)
    requires Faithful(c) && Collisionless(c) && History(c, all) && lo <= hi <= |all|
    ensures Chained(c, all[lo..hi]) <==> lo == hi || lo == 0
  {
    if lo == 0 {
      PrefixChained(c, all, hi);
    } else if lo < hi {
      HistoryLine(c, all, lo);
      assert all[lo..hi][0] == all[lo];
      assert !Linked(c, all[lo..hi], 0);
    }
  }

  lemma {:induction false} FlattenSnoc(chunks: seq<seq<Line>>, x: seq<Line>)
    ensures Flatten(chunks + [x]) == x + Flatten(chunks)
  {
    if chunks == [] {
      assert ([] + [x])[1..] == [];
    } else {
      FlattenSnoc(chunks[1..], x);
      assert (chunks + [x])[1..] == chunks[1..] + [x];
    }
  }

  /** How many lines the files up to number `i` hold. */
  ghost function HeldUpTo(chunks: seq<seq<Line>>, i: nat): nat
    requires i < |chunks|
  {
    |Flatten(chunks[..i + 1])|
  }

  /** Each file holds a stretch of the history, which ends where the newer files begin. */
  lemma ChunkPlace(chunks: seq<seq<Line>>, all: seq<Line>, i: nat)
    requires IsSuffix(Flatten(chunks), all) && i < |chunks|
    ensures var lo := |all| - HeldUpTo(chunks, i);
            0 <= lo && lo + |chunks[i]| <= |all| && chunks[i] == all[lo..lo + |chunks[i]|]
  {
    hide Flatten;
    FlattenPrefix(chunks, i + 1);
    SuffixOfSuffix(Flatten(chunks[..i + 1]), Flatten(chunks), all);
    assert chunks[..i + 1] == chunks[..i] + [chunks[i]];
    FlattenSnoc(chunks[..i], chunks[i]);
    StartOfSuffix(chunks[i], Flatten(chunks[..i]), all);
  }

  lemma StartOfSuffix(x: seq<Line>, rest: seq<Line>, all: seq<Line>)
    requires IsSuffix(x + rest, all)
    ensures var lo := |all| - |x + rest|; lo + |x| <= |all| && x == all[lo..lo + |x|]
  {
    var lo := |all| - |x + rest|;
    assert x == (x + rest)[..|x|] == all[lo..][..|x|];
  }

  lemma FileReadBack(c: Codec, maxBackups: nat, l: Logger, all: seq<Line>, chunks: seq<seq<Line>>, i: nat)
    requires Faithful(c) && Retains(c, maxBackups, l, all, chunks) && i < |chunks|
    ensures i in l.files && Records(c, SplitLines(l.files[i])) == chunks[i]
  {
    hide Flatten, Render, SplitLines, Records, Faithful, History, IsSuffix, HeldUpTo;
    assert Lookup(l.files, i) == FileFor(chunks, i);
    RetainsHistory(c, maxBackups, l, all, chunks);
    hide Retains;
    ChunkPlace(chunks, all, i);
    var lo := |all| - HeldUpTo(chunks, i);
    ReadBack(c, all, lo, lo + |chunks[i]|);
  }

  /** A file passes verification if and only if it is empty or no line before its own was ever logged. */
  lemma FileVerifiesIff(c: Codec, maxBackups: nat, l: Logger, all: seq<Line>, chunks: seq<seq<Line>>, i: nat)
    requires Faithful(c) && Collisionless(c) && Retains(c, maxBackups, l, all, chunks) && i < |chunks|
    ensures i in l.files
    ensures Chained(c, Records(c, SplitLines(l.files[i]))) <==> chunks[i] == [] || HeldUpTo(chunks, i) == |all|
  {
    hide Retains, Flatten, IsSuffix, Render, SplitLines, Records, Faithful, Collisionless, History, Chained, HeldUpTo;
    FileReadBack(c, maxBackups, l, all, chunks, i);
    RetainsHistory(c, maxBackups, l, all, chunks);
    ChunkPlace(chunks, all, i);
    var lo := |all| - HeldUpTo(chunks, i);
    PartChainedIff(c, all, lo, lo + |chunks[i]|);
  }

  lemma RetainsHistory(c: Codec, maxBackups: nat, l: Logger, all: seq<Line>, chunks: seq<seq<Line>>)
    requires Retains(c, maxBackups, l, all, chunks)
    ensures History(c, all) && IsSuffix(Flatten(chunks), all)
  {
  }

  /** The same after any run of logs and restarts, for every file it leaves. */
  lemma RunVerifiesIff(c: Codec, maxBytes: int, maxBackups: nat, ops: seq<Op>) returns (chunks: seq<seq<Line>>)
    requires Faithful(c) && Collisionless(c) && maxBackups >= 1
    ensures var l, all := ApplyAll(c, maxBytes, maxBackups, ops), AllLines(c, maxBytes, maxBackups, ops);
            && Retains(c, maxBackups, l, all, chunks)
            && forall i :: 0 <= i < |chunks| ==>
                 && i in l.files
                 && (Chained(c, Records(c, SplitLines(l.files[i]))) <==>
                     chunks[i] == [] || HeldUpTo(chunks, i) == |all|)
  {
    hide Faithful, Collisionless, Retains, Chained, Records, SplitLines;
    chunks := RunRetains(c, maxBytes, maxBackups, ops);
    var l, all := ApplyAll(c, maxBytes, maxBackups, ops), AllLines(c, maxBytes, maxBackups, ops);
    forall i | 0 <= i < |chunks|
      ensures i in l.files
      ensures Chained(c, Records(c, SplitLines(l.files[i]))) <==> chunks[i] == [] || HeldUpTo(chunks, i) == |all|
    {
      FileVerifiesIff(c, maxBackups, l, all, chunks, i);
    }
  }

  /** Until the backups are full the oldest file passes, and so does a log that was never rotated,
      however often the logger was restarted. */
  lemma OldestVerifies(c: Codec, maxBackups: nat, l: Logger, all: seq<Line>, chunks: seq<seq<Line>>)
    requires Faithful(c) && Retains(c, maxBackups, l, all, chunks) && |chunks| <= maxBackups
    ensures var i := |chunks| - 1; i in l.files && Chained(c, Records(c, SplitLines(l.files[i])))
  {
    var i := |chunks| - 1;
    FileReadBack(c, maxBackups, l, all, chunks, i);
    ChunkPlace(chunks, all, i);
    assert chunks[..i + 1] == chunks;
    PrefixChained(c, all, |chunks[i]|);
    hide Flatten, Render, SplitLines, Records, Faithful;
    assert all[0..|chunks[i]|] == all[..|chunks[i]|];
  }

  lemma NeverRotatedVerifies(c: Codec, maxBytes: int, maxBackups: nat, ops: seq<Op>)
    requires Faithful(c) && maxBackups >= 1 && 1 !in ApplyAll(c, maxBytes, maxBackups, ops).files
    ensures var l := ApplyAll(c, maxBytes, maxBackups, ops);
            0 in l.files && Chained(c, Records(c, SplitLines(l.files[0])))
  {
    hide Faithful, Chained, Records, SplitLines, ApplyAll;
    var chunks := RunRetains(c, maxBytes, maxBackups, ops);
    var l, all := ApplyAll(c, maxBytes, maxBackups, ops), AllLines(c, maxBytes, maxBackups, ops);
    assert |chunks| == 1 by { assert Lookup(l.files, 1) == FileFor(chunks, 1); }
    OldestVerifies(c, maxBackups, l, all, chunks);
  }

  lemma TwoLogs(c: Codec, maxBytes: int, maxBackups: nat, first: string, second: string)
    ensures var l0, ops := Logger(map[0 := []], 0, ""), [LogOp(first), LogOp(second)];
            var l1 := Logged(c, maxBytes, maxBackups, l0, first);
            && ApplyAll(c, maxBytes, maxBackups, ops) == Logged(c, maxBytes, maxBackups, l1, second)
            && AllLines(c, maxBytes, maxBackups, ops) == [LineFor(c, l0, first), LineFor(c, l1, second)]
  {
    var none: seq<Op>, one, two := [], [LogOp(first)], [LogOp(first), LogOp(second)];
    assert two[..1] == one && one[..0] == none;
    hide Logged, LineFor;
    assert ApplyAll(c, maxBytes, maxBackups, none) == Logger(map[0 := []], 0, "");
    assert AllLines(c, maxBytes, maxBackups, one) == [LineFor(c, Logger(map[0 := []], 0, ""), first)];
  }

  /** With a size limit that the first line just reaches, the file with the second line is rejected: the
      current one if that line stays below the limit, else backup 1. */
  lemma SecondLineRejected(c: Codec, maxBackups: nat, first: string, second: string)
    requires Faithful(c) && Collisionless(c) && maxBackups >= 1
    ensures var l0, ops := Logger(map[0 := []], 0, ""), [LogOp(first), LogOp(second)];
            var a := LineFor(c, l0, first);
            var b := LineFor(c, Logged(c, |a| + 1, maxBackups, l0, first), second);
            var l, i := ApplyAll(c, |a| + 1, maxBackups, ops), if |b| < |a| then 0 else 1;
            i in l.files && !Chained(c, Records(c, SplitLines(l.files[i])))
  {
    hide Logged, LineFor, ApplyAll, AllLines, Faithful, Collisionless, Chained, Records, SplitLines, History, Render;
    hide Retains, Flatten, IsSuffix;
    var l0, ops := Logger(map[0 := []], 0, ""), [LogOp(first), LogOp(second)];
    var a := LineFor(c, l0, first);
    var b := LineFor(c, Logged(c, |a| + 1, maxBackups, l0, first), second);
    TwoLogs(c, |a| + 1, maxBackups, first, second);
    FileOfSecond(c, maxBackups, l0, first, second);
    var chunks := RunRetains(c, |a| + 1, maxBackups, ops);
    RetainsHistory(c, maxBackups, ApplyAll(c, |a| + 1, maxBackups, ops), [a, b], chunks);
    LoneSecondRejected(c, a, b);
  }

  lemma LoneSecondRejected(c: Codec, a: Line, b: Line)
    requires Faithful(c) && Collisionless(c) && History(c, [a, b])
    ensures !Chained(c, Records(c, SplitLines(Render([b]))))
  {
    hide Faithful, Collisionless, Chained, Records, SplitLines, History, Render;
    ReadBack(c, [a, b], 1, 2);
    PartChainedIff(c, [a, b], 1, 2);
    assert [a, b][1..2] == [b];
  }

  lemma FileOfSecond(c: Codec, maxBackups: nat, l0: Logger, first: string, second: string)
    requires maxBackups >= 1 && l0 == Logger(map[0 := []], 0, "")
    ensures var a := LineFor(c, l0, first);
            var l1 := Logged(c, |a| + 1, maxBackups, l0, first);
            var b := LineFor(c, l1, second);
            Lookup(Logged(c, |a| + 1, maxBackups, l1, second).files, if |b| < |a| then 0 else 1) == Some(Render([b]))
  {
    hide LineFor, Logged, Render, Lookup;
    var a := LineFor(c, l0, first);
    FirstIntoEmpty(c, |a| + 1, maxBackups, l0, first);
    FirstIntoEmpty(c, |a| + 1, maxBackups, Logged(c, |a| + 1, maxBackups, l0, first), second);
  }

  /** A line logged into an empty file is alone in it, or alone in backup 1 if it reaches the limit. */
  lemma FirstIntoEmpty(c: Codec, maxBytes: nat, maxBackups: nat, l: Logger, fields: string)
    requires maxBackups >= 1 && maxBytes > 0 && ContentsOf(l.files, 0) == []
    ensures var line, l' := LineFor(c, l, fields), Logged(c, maxBytes, maxBackups, l, fields);
            && Lookup(l'.files, if |line| + 1 < maxBytes then 0 else 1) == Some(Render([line]))
            && (|line| + 1 >= maxBytes ==> ContentsOf(l'.files, 0) == [])
  {
    var line := LineFor(c, l, fields);
    assert Render([line]) == line + [NEWLINE] by {
      AppendRender([], line);
      assert [] + [line] == [line] && Render([]) == [];
    }
    hide LineFor, Render, Rotated;
    var files := l.files[0 := [] + line + [NEWLINE]];
    assert [] + line + [NEWLINE] == line + [NEWLINE];
    RotateEffect(files, maxBackups, 0);
    RotateEffect(files, maxBackups, 1);
  }
}
