/** Framed authenticated encryption over a byte stream. The cipher is a pair of functions. */
module SecureConns {
  import opened Arithmetic
  import opened Options
  import opened Bytes

  const NONCE_SIZE: nat := 12
  const TAG_SIZE: nat := 16
  const KEY_SIZE: nat := 32
  const MAX_MESSAGE_SIZE: nat := 65519

  type CipherKey = seq<byte>

  datatype Aead = Aead(seal: (CipherKey, seq<byte>, seq<byte>) -> seq<byte>,
                       open: (CipherKey, seq<byte>, seq<byte>) -> Option<seq<byte>>)

  datatype Error = TooLarge | Closed | BadKey | Eof | Replay | AuthFailed | ShortBuffer | IoError

  /** Opening undoes sealing, and sealing adds the tag. */
  ghost predicate Correct(a: Aead) {
    forall k, n, p :: |a.seal(k, n, p)| == |p| + TAG_SIZE && a.open(k, n, a.seal(k, n, p)) == Some(p)
  }

  /** Four zero bytes, then the counter. */
  function NonceOf(counter: nat): (n: seq<byte>)
    ensures |n| == NONCE_SIZE
  {
    [0, 0, 0, 0] + Encode(counter, 8)
  }

  function CounterOf(nonce: seq<byte>): nat
    requires |nonce| == NONCE_SIZE
  {
    Value(nonce[4..])
  }

  lemma Pow256Values()
    ensures Pow(256, 2) == 65536 && Pow(256, 8) == TWO64
  {
    assert Pow(256, 4) == 0x1_0000_0000;
    PowAdd(256, 4, 4);
  }

  lemma NonceRoundTrip(counter: nat)
    requires counter < TWO64
    ensures CounterOf(NonceOf(counter)) == counter
  {
    Pow256Values();
    EncodeValue(counter, 8);
    assert NonceOf(counter)[4..] == Encode(counter, 8);
  }

  /** One record on the wire: length, nonce, ciphertext with tag. */
  function Frame(a: Aead, key: CipherKey, counter: nat, p: seq<byte>): seq<byte> {
    var c := a.seal(key, NonceOf(counter), p);
    Encode(|c|, 2) + NonceOf(counter) + c
  }

  /** What one Read makes of the byte stream, before copying to the caller's buffer. */
  datatype Received = Received(result: Result<seq<byte>, Error>, recvNonce: nat, wire: seq<byte>)

  function Receive(a: Aead, key: CipherKey, recvNonce: nat, wire: seq<byte>): Received {
    if |wire| < 2 then Received(Err(Eof), recvNonce, [])
    else
      var len, afterLen := Value(wire[..2]), wire[2..];
      if |afterLen| < NONCE_SIZE then Received(Err(Eof), recvNonce, [])
      else
        var nonce, body := afterLen[..NONCE_SIZE], afterLen[NONCE_SIZE..];
        if CounterOf(nonce) != recvNonce then Received(Err(Replay), recvNonce, body)
        else
          var next := (recvNonce + 1) % TWO64;
          if |body| < len then Received(Err(Eof), next, [])
          else
            match a.open(key, nonce, body[..len])
            case None => Received(Err(AuthFailed), next, body[len..])
            case Some(p) => Received(Ok(p), next, body[len..])
  }

  /** What a read makes of the wire, by position: the length is in bytes 0 and 1, the nonce in bytes 2 to 13.
      A short header or body ends the stream; a counter other than the expected one is a replay, consumes the
      header only and is not counted; every other record is counted, whether it opens or not. */
  lemma ReceiveOutcomes(a: Aead, key: CipherKey, recvNonce: nat, wire: seq<byte>)
    ensures var r := Receive(a, key, recvNonce, wire);
            var whole := |wire| >= 14;
            var expected := whole && Value(wire[6..14]) == recvNonce;
            var end := if whole then 14 + 256 * (wire[0] as int) + (wire[1] as int) else 0;
            && (r.result == Err(Replay) <==> whole && !expected)
            && (r.result == Err(Eof) <==> !whole || (expected && |wire| < end))
            && (r.result == Err(AuthFailed) <==>
                  expected && end <= |wire| && a.open(key, wire[2..14], wire[14..end]).None?)
            && (r.result.Ok? <==> expected && end <= |wire| && a.open(key, wire[2..14], wire[14..end]).Some?)
            && (r.result.Ok? ==> Some(r.result.value) == a.open(key, wire[2..14], wire[14..end]))
            && r.recvNonce == (if expected then (recvNonce + 1) % TWO64 else recvNonce)
            && r.wire == if r.result == Err(Eof) then [] else if !expected then wire[14..] else wire[end..]
  {
    if |wire| >= 14 {
      TwoBytes(wire);
      assert wire[2..][..12] == wire[2..14] && wire[2..][12..] == wire[14..] && wire[2..14][4..] == wire[6..14];
      hide Value;
      var end := 14 + 256 * (wire[0] as int) + (wire[1] as int);
      if end <= |wire| { assert wire[14..][..end - 14] == wire[14..end] && wire[14..][end - 14..] == wire[end..]; }
    }
  }

  lemma TwoBytes(s: seq<byte>)
    requires |s| >= 2
    ensures Value(s[..2]) == 256 * (s[0] as int) + (s[1] as int)
  {
    var one := [s[0]];
    assert s[..2][..1] == one && one[..0] == [];
    assert Value(one) == s[0];
  }

  /** Where the fields of a record are on the wire. */
  lemma FrameLayout(a: Aead, key: CipherKey, counter: nat, p: seq<byte>, i: nat)
    requires i < 8
    ensures var c, f := a.seal(key, NonceOf(counter), p), Frame(a, key, counter, p);
            && |f| == 14 + |c| && f[0] == |c| / 256 % 256 && f[1] == |c| % 256 && f[2..6] == [0, 0, 0, 0]
            && Pow(256, 7 - i) > 0 && f[6 + i] == counter / Pow(256, 7 - i) % 256 && f[14..] == c
  {
    var c, f := a.seal(key, NonceOf(counter), p), Frame(a, key, counter, p);
    EncodeDigit(counter, 8, i);
    EncodeDigit(|c|, 2, 0);
    EncodeDigit(|c|, 2, 1);
    assert Pow(256, 1) == 256 && Pow(256, 0) == 1;
    hide Encode, Pow;
    assert f[..2] == Encode(|c|, 2) && f[2..14] == NonceOf(counter) && f[14..] == c;
    assert f[6 + i] == f[2..14][4 + i] && NonceOf(counter)[..4] == [0, 0, 0, 0] && f[2..6] == f[2..14][..4];
  }

  class SecureConn {
    const aead: Aead
    var sendKey: CipherKey
    var recvKey: CipherKey
    var sendNonce: nat
    var recvNonce: nat
    var closed: bool
    /** Bytes still to arrive from, and handed over to, the underlying connection. */
    var inbound: seq<byte>
    var outbound: seq<byte>

    constructor (aead: Aead, sendKey: CipherKey, recvKey: CipherKey, inbound: seq<byte>)
      requires |sendKey| == KEY_SIZE && |recvKey| == KEY_SIZE
      ensures this.aead == aead && this.sendKey == sendKey && this.recvKey == recvKey
      ensures sendNonce == 0 && recvNonce == 0 && !closed && this.inbound == inbound && outbound == []
    {
      this.aead, this.sendKey, this.recvKey := aead, sendKey, recvKey;
      sendNonce, recvNonce, closed := 0, 0, false;
      this.inbound, outbound := inbound, [];
    }

    method Read(p: array<byte>) returns (n: nat, err: Option<Error>)
      modifies this, p
      ensures unchanged(this`sendKey, this`recvKey, this`sendNonce, this`closed, this`outbound)
      ensures closed ==> n == 0 && err == Some(Closed) && unchanged(this) && unchanged(p)
      ensures !closed ==>
                var r := Receive(aead, recvKey, old(recvNonce), old(inbound));
                && recvNonce == r.recvNonce && inbound == r.wire
                && (r.result.Err? ==> n == 0 && err == Some(r.result.error) && unchanged(p))
                && (r.result.Ok? ==>
                      && n == (if |r.result.value| <= p.Length then |r.result.value| else p.Length)
                      && p[..n] == r.result.value[..n] && p[n..] == old(p[n..])
                      && err == if n < |r.result.value| then Some(ShortBuffer) else None)
    {
      if closed {
        return 0, Some(Closed);
      }
      var lenBuf := ReadFull(2);
      if lenBuf.None? {
        return 0, Some(Eof);
      }
      var ciphertextLen := Value(lenBuf.value);
      var nonceBuf := ReadFull(NONCE_SIZE);
      if nonceBuf.None? {
        return 0, Some(Eof);
      }
      if CounterOf(nonceBuf.value) != recvNonce {
        return 0, Some(Replay);
      }
      recvNonce := (recvNonce + 1) % TWO64;
      var ciphertext := ReadFull(ciphertextLen);
      if ciphertext.None? {
        return 0, Some(Eof);
      }
      var plaintext := aead.open(recvKey, nonceBuf.value, ciphertext.value);
      if plaintext.None? {
        return 0, Some(AuthFailed);
      }
      n := CopyTo(p, plaintext.value);
      err := if n < |plaintext.value| then Some(ShortBuffer) else None;
    }

    /** io.ReadFull: all the bytes, or an error with whatever was there consumed. */
    method ReadFull(n: nat) returns (buf: Option<seq<byte>>)
      modifies this`inbound
      ensures |old(inbound)| >= n ==> buf == Some(old(inbound)[..n]) && inbound == old(inbound)[n..]
      ensures |old(inbound)| < n ==> buf == None && inbound == []
    {
      if |inbound| >= n {
        buf := Some(inbound[..n]);
        inbound := inbound[n..];
      } else {
        buf := None;
        inbound := [];
      }
    }

    static method CopyTo(dst: array<byte>, src: seq<byte>) returns (n: nat)
      modifies dst
      ensures n == if |src| <= dst.Length then |src| else dst.Length
      ensures dst[..n] == src[..n] && dst[n..] == old(dst[n..])
    {
      n := if |src| <= dst.Length then |src| else dst.Length;
      for i := 0 to n
        invariant dst[..i] == src[..i] && dst[i..] == old(dst[i..])
      {
        dst[i] := src[i];
        assert dst[i + 1..] == old(dst[i..])[1..] == old(dst[i + 1..]);
      }
    }

    /** `sent` is how many bytes the underlying connection took; fewer than all is an I/O error. */
    method Write(p: seq<byte>, sent: nat) returns (r: Result<nat, Error>)
      requires Correct(aead)
      modifies this`sendNonce, this`outbound
      ensures |p| > 65519 ==> r == Err(TooLarge) && unchanged(this)
      ensures |p| <= 65519 && closed ==> r == Err(Closed) && unchanged(this)
      ensures |p| <= 65519 && !closed ==>
                var f := Frame(aead, sendKey, old(sendNonce), p);
                && sendNonce == (old(sendNonce) + 1) % TWO64
                && |f| == |p| + 30
                && outbound == old(outbound) + (if sent < |f| then f[..sent] else f)
                && r == if sent < |f| then Err(IoError) else Ok(|p|)
    {
      if |p| > MAX_MESSAGE_SIZE {
        return Err(TooLarge);
      }
      if closed {
        return Err(Closed);
      }
      var nonce := NonceOf(sendNonce);
      sendNonce := (sendNonce + 1) % TWO64;
      var ciphertext := aead.seal(sendKey, nonce, p);
      var record := Encode(|ciphertext|, 2) + nonce + ciphertext;
      if sent < |record| {
        outbound := outbound + record[..sent];
        return Err(IoError);
      }
      outbound := outbound + record;
      return Ok(|p|);
    }

    /** Both keys are replaced or neither; the counters carry on. */
    method SetKeys(sendKey: CipherKey, recvKey: CipherKey) returns (ok: bool)
      modifies this`sendKey, this`recvKey
      ensures ok <==> |sendKey| == 32 && |recvKey| == 32
      ensures if ok then this.sendKey == sendKey && this.recvKey == recvKey else unchanged(this)
    {
      if |sendKey| != KEY_SIZE || |recvKey| != KEY_SIZE {
        return false;
      }
      this.sendKey, this.recvKey := sendKey, recvKey;
      return true;
    }

    method Close()
      modifies this`closed
      ensures closed
    {
      closed := true;
    }
  }

  datatype Use =
    | Reading(room: nat)
    | Writing(message: seq<byte>, sent: nat)
    | Rekeying(send: CipherKey, recv: CipherKey)

  /** Closing is for good: however the connection is used afterwards, every read and write is refused,
      and neither the byte streams nor the counters move. */
  method CloseThenUse(sc: SecureConn, uses: seq<Use>) returns (errors: seq<Option<Error>>)
    requires Correct(sc.aead)
    modifies sc
    ensures sc.closed && |errors| == |uses|
    ensures forall i :: 0 <= i < |uses| ==>
              match uses[i]
              case Reading(_) => errors[i] == Some(Closed)
              case Writing(p, _) => errors[i] == Some(if |p| > MAX_MESSAGE_SIZE then TooLarge else Closed)
              case Rekeying(_, _) => true
    ensures sc.inbound == old(sc.inbound) && sc.outbound == old(sc.outbound)
    ensures sc.sendNonce == old(sc.sendNonce) && sc.recvNonce == old(sc.recvNonce)
  {
    sc.Close();
    errors := [];
    for n := 0 to |uses|
      invariant sc.closed && |errors| == n
      invariant forall i :: 0 <= i < n ==>
                  match uses[i]
                  case Reading(_) => errors[i] == Some(Closed)
                  case Writing(p, _) => errors[i] == Some(if |p| > MAX_MESSAGE_SIZE then TooLarge else Closed)
                  case Rekeying(_, _) => true
      invariant sc.inbound == old(sc.inbound) && sc.outbound == old(sc.outbound)
      invariant sc.sendNonce == old(sc.sendNonce) && sc.recvNonce == old(sc.recvNonce)
    {
      var err := None;
      match uses[n] {
        case Reading(room) =>
          var buffer := new byte[room];
          var count;
          count, err := sc.Read(buffer);
        case Writing(p, sent) =>
          var r := sc.Write(p, sent);
          err := if r.Err? then Some(r.error) else None;
        case Rekeying(send, recv) =>
          var ok := sc.SetKeys(send, recv);
          err := if ok then None else Some(BadKey);
      }
      errors := errors + [err];
    }
  }

  /** Keys of any other size are refused. */
  method NewSecureConn(aead: Aead, sendKey: CipherKey, recvKey: CipherKey, inbound: seq<byte>)
    returns (r: Result<SecureConn, Error>)
    ensures r.Ok? <==> |sendKey| == 32 && |recvKey| == 32
    ensures r.Err? ==> r.error == BadKey
    ensures r.Ok? ==>
              && fresh(r.value) && r.value.aead == aead && r.value.sendKey == sendKey && r.value.recvKey == recvKey
              && r.value.sendNonce == r.value.recvNonce == 0 && !r.value.closed
  {
    if |sendKey| != KEY_SIZE || |recvKey| != KEY_SIZE {
      return Err(BadKey);
    }
    var sc := new SecureConn(aead, sendKey, recvKey, inbound);
    return Ok(sc);
  }
}

/** What a reader can end up with, whatever bytes are put on the wire. */
module SecureStream {
  import opened Arithmetic
  import opened Options
  import opened Bytes
  import opened SecureConns

  /** The nonce and the ciphertext that a read hands to the cipher, if it gets that far. */
  function Opened(recvNonce: nat, wire: seq<byte>): Option<(seq<byte>, seq<byte>)> {
    if |wire| < 2 + NONCE_SIZE then None
    else
      var len, nonce, body := Value(wire[..2]), wire[2..][..NONCE_SIZE], wire[2..][NONCE_SIZE..];
      if CounterOf(nonce) == recvNonce && len <= |body| then Some((nonce, body[..len])) else None
  }

  /** The i-th message of `written` was sealed with counter `base + i`; this is one of those ciphertexts. */
  ghost predicate Genuine(a: Aead, key: CipherKey, base: nat, written: seq<seq<byte>>, nonce: seq<byte>, c: seq<byte>) {
    exists i :: 0 <= i < |written| && nonce == NonceOf(base + i) && c == a.seal(key, NonceOf(base + i), written[i])
  }

  /** Nobody has forged a record on this wire: whatever the next reads hand to the cipher opens only
      if it is one of the sealed ciphertexts. */
  ghost predicate NoForgery(a: Aead, key: CipherKey, base: nat, written: seq<seq<byte>>,
                            recvNonce: nat, wire: seq<byte>, times: nat)
    decreases times
  {
    times > 0 ==>
      var o, r := Opened(recvNonce, wire), Receive(a, key, recvNonce, wire);
      && (o.Some? && a.open(key, o.value.0, o.value.1).Some? ==> Genuine(a, key, base, written, o.value.0, o.value.1))
      && NoForgery(a, key, base, written, r.recvNonce, r.wire, times - 1)
  }

  /** The plaintexts of the successful ones among reads into buffers of the given sizes. */
  function Accepted(a: Aead, key: CipherKey, recvNonce: nat, wire: seq<byte>, buffers: seq<nat>): seq<seq<byte>>
    decreases |buffers|
  {
    if buffers == [] then []
    else
      var r := Receive(a, key, recvNonce, wire);
      var rest := Accepted(a, key, r.recvNonce, r.wire, buffers[1..]);
      if r.result.Ok? && |r.result.value| <= buffers[0] then [r.result.value] + rest else rest
  }

  /** The same for a reader that gives up at the first error. */
  function AcceptedUntilError(a: Aead, key: CipherKey, recvNonce: nat, wire: seq<byte>,
                              buffers: seq<nat>): seq<seq<byte>>
    decreases |buffers|
  {
    if buffers == [] then []
    else
      var r := Receive(a, key, recvNonce, wire);
      if r.result.Ok? && |r.result.value| <= buffers[0]
      then [r.result.value] + AcceptedUntilError(a, key, r.recvNonce, r.wire, buffers[1..])
      else []
  }

  lemma ReceiveOpens(a: Aead, key: CipherKey, recvNonce: nat, wire: seq<byte>)
    ensures var r, o := Receive(a, key, recvNonce, wire), Opened(recvNonce, wire);
            && (r.recvNonce == recvNonce || r.recvNonce == (recvNonce + 1) % TWO64)
            && (r.result.Ok? ==>
                  && o.Some? && |o.value.0| == NONCE_SIZE && CounterOf(o.value.0) == recvNonce
                  && a.open(key, o.value.0, o.value.1) == Some(r.result.value)
                  && r.recvNonce == (recvNonce + 1) % TWO64)
  {
    hide CounterOf, Value;
  }

  /** A successful read returns the message that was sealed with exactly the expected counter. */
  lemma OneRead(a: Aead, key: CipherKey, base: nat, written: seq<seq<byte>>, recvNonce: nat, wire: seq<byte>,
                times: nat)
    requires Correct(a) && NoForgery(a, key, base, written, recvNonce, wire, times) && times > 0
    requires base + |written| <= TWO64 && recvNonce < TWO64
    ensures var r := Receive(a, key, recvNonce, wire);
            && NoForgery(a, key, base, written, r.recvNonce, r.wire, times - 1)
            && (r.recvNonce == recvNonce || r.recvNonce == (recvNonce + 1) % TWO64)
            && (r.result.Ok? ==>
                  && base <= recvNonce < base + |written| && r.result.value == written[recvNonce - base]
                  && r.recvNonce == (recvNonce + 1) % TWO64)
  {
    ReceiveOpens(a, key, recvNonce, wire);
    hide Receive, Opened, NonceOf, CounterOf;
    var r, o := Receive(a, key, recvNonce, wire), Opened(recvNonce, wire);
    if r.result.Ok? {
      var (nonce, c) := o.value;
      var i :| 0 <= i < |written| && nonce == NonceOf(base + i) && c == a.seal(key, NonceOf(base + i), written[i]);
      NonceRoundTrip(base + i);
    }
  }

  /** `got` consists of messages of `written` at strictly increasing positions, none sealed before counter `from`. */
  ghost predicate InOrder(got: seq<seq<byte>>, written: seq<seq<byte>>, base: nat, from: nat, index: seq<nat>) {
    && |index| == |got|
    && (forall j :: 0 <= j < |got| ==> from <= base + index[j] && index[j] < |written| && got[j] == written[index[j]])
    && (forall j, k :: 0 <= j < k < |got| ==> index[j] < index[k])
  }

  lemma InOrderCons(got: seq<seq<byte>>, written: seq<seq<byte>>, base: nat, from: nat, index: seq<nat>)
    requires base <= from < base + |written| && InOrder(got, written, base, from + 1, index)
    ensures InOrder([written[from - base]] + got, written, base, from, [from - base] + index)
  {
  }

  /** Whatever is on the wire, accepted plaintexts are written ones, in order and without repetition. */
  lemma {:induction false} AcceptedInOrder(a: Aead, key: CipherKey, base: nat, written: seq<seq<byte>>,
                                           recvNonce: nat, wire: seq<byte>, buffers: seq<nat>) returns (index: seq<nat>)
    requires Correct(a) && NoForgery(a, key, base, written, recvNonce, wire, |buffers|)
    requires base + |written| <= TWO64 && recvNonce + |buffers| <= TWO64
    ensures InOrder(Accepted(a, key, recvNonce, wire, buffers), written, base, recvNonce, index)
    decreases |buffers|
  {
    hide Receive, NoForgery, Correct;
    if buffers == [] {
      return [];
    }
    var r := Receive(a, key, recvNonce, wire);
    OneRead(a, key, base, written, recvNonce, wire, |buffers|);
    var rest, rest' := buffers[1..], [];
    if rest == [] {
      assert Accepted(a, key, r.recvNonce, r.wire, rest) == [];
    } else {
      rest' := AcceptedInOrder(a, key, base, written, r.recvNonce, r.wire, rest);
    }
    if r.result.Ok? && |r.result.value| <= buffers[0] {
      InOrderCons(Accepted(a, key, r.recvNonce, r.wire, rest), written, base, recvNonce, rest');
      return [recvNonce - base] + rest';
    }
    return rest';
  }

  /** A reader that stops at the first error has a prefix of what was written. */
  lemma {:induction false} AcceptedIsPrefix(a: Aead, key: CipherKey, base: nat, written: seq<seq<byte>>,
                                            recvNonce: nat, wire: seq<byte>, buffers: seq<nat>)
    requires Correct(a) && NoForgery(a, key, base, written, recvNonce, wire, |buffers|)
    requires base + |written| < TWO64 && base <= recvNonce <= base + |written|
    ensures AcceptedUntilError(a, key, recvNonce, wire, buffers) <= written[recvNonce - base..]
    decreases |buffers|
  {
    hide Receive, NoForgery, Correct;
    if buffers != [] {
      var r := Receive(a, key, recvNonce, wire);
      OneRead(a, key, base, written, recvNonce, wire, |buffers|);
      if r.result.Ok? && |r.result.value| <= buffers[0] {
        AcceptedIsPrefix(a, key, base, written, r.recvNonce, r.wire, buffers[1..]);
        var from := recvNonce - base;
        assert written[from..] == [written[from]] + written[from + 1..];
      }
    }
  }

  /** Everything the writer puts on the wire. */
  function Frames(a: Aead, key: CipherKey, counter: nat, messages: seq<seq<byte>>): seq<byte>
    decreases |messages|
  {
    if messages == [] then [] else Frame(a, key, counter, messages[0]) + Frames(a, key, counter + 1, messages[1..])
  }

  lemma FrameParts(a: Aead, key: CipherKey, counter: nat, p: seq<byte>, rest: seq<byte>)
    requires Correct(a) && |p| <= MAX_MESSAGE_SIZE && counter < TWO64
    ensures var c, wire := a.seal(key, NonceOf(counter), p), Frame(a, key, counter, p) + rest;
            && |wire| >= 2 + NONCE_SIZE + |c| && Value(wire[..2]) == |c|
            && wire[2..][..NONCE_SIZE] == NonceOf(counter) && CounterOf(NonceOf(counter)) == counter
            && wire[2..][NONCE_SIZE..] == c + rest && (c + rest)[..|c|] == c && (c + rest)[|c|..] == rest
  {
    var c, wire := a.seal(key, NonceOf(counter), p), Frame(a, key, counter, p) + rest;
    Pow256Values();
    EncodeValue(|c|, 2);
    NonceRoundTrip(counter);
    assert wire[..2] == Encode(|c|, 2);
    assert wire[2..] == NonceOf(counter) + (c + rest);
  }

  lemma OneFrame(a: Aead, key: CipherKey, counter: nat, p: seq<byte>, rest: seq<byte>)
    requires Correct(a) && |p| <= MAX_MESSAGE_SIZE && counter < TWO64
    ensures Receive(a, key, counter, Frame(a, key, counter, p) + rest) == Received(Ok(p), (counter + 1) % TWO64, rest)
  {
    FrameParts(a, key, counter, p, rest);
    hide Frame, NonceOf, CounterOf, Value;
  }

  lemma OneFrameOpens(a: Aead, key: CipherKey, counter: nat, p: seq<byte>, rest: seq<byte>)
    requires Correct(a) && |p| <= MAX_MESSAGE_SIZE && counter < TWO64
    ensures Opened(counter, Frame(a, key, counter, p) + rest) ==
            Some((NonceOf(counter), a.seal(key, NonceOf(counter), p)))
  {
    FrameParts(a, key, counter, p, rest);
    hide Frame, NonceOf, CounterOf, Value;
  }

  /** On an honest wire, with buffers large enough, the reader gets exactly what was written. */
  lemma {:induction false} HonestDelivery(a: Aead, key: CipherKey, counter: nat, messages: seq<seq<byte>>,
                                          buffers: seq<nat>)
    requires Correct(a) && counter + |messages| < TWO64 && |buffers| == |messages|
    requires forall i :: 0 <= i < |messages| ==> |messages[i]| <= MAX_MESSAGE_SIZE && |messages[i]| <= buffers[i]
    ensures AcceptedUntilError(a, key, counter, Frames(a, key, counter, messages), buffers) == messages
    decreases |messages|
  {
    hide Receive, Frame, Correct;
    if messages != [] {
      OneFrame(a, key, counter, messages[0], Frames(a, key, counter + 1, messages[1..]));
      HonestDelivery(a, key, counter + 1, messages[1..], buffers[1..]);
      assert messages == [messages[0]] + messages[1..];
    }
  }

  lemma SilentWire(a: Aead, key: CipherKey, base: nat, written: seq<seq<byte>>, recvNonce: nat, times: nat)
    ensures NoForgery(a, key, base, written, recvNonce, [], times)
    decreases times
  {
    if times > 0 { SilentWire(a, key, base, written, recvNonce, times - 1); }
  }

  /** The writer's own frames meet the assumption about the wire, from any message on, for any number of reads. */
  lemma {:induction false} HonestWire(a: Aead, key: CipherKey, base: nat, written: seq<seq<byte>>, from: nat,
                                      times: nat)
    requires Correct(a) && base + |written| < TWO64 && from <= |written|
    requires forall i :: 0 <= i < |written| ==> |written[i]| <= MAX_MESSAGE_SIZE
    ensures NoForgery(a, key, base, written, base + from, Frames(a, key, base + from, written[from..]), times)
    decreases times
  {
    hide Receive, Opened, Frame, Genuine, NonceOf;
    if from == |written| {
      SilentWire(a, key, base, written, base + from, times);
    } else if times > 0 {
      var p, rest := written[from], Frames(a, key, base + from + 1, written[from + 1..]);
      assert written[from..][1..] == written[from + 1..];
      OneFrame(a, key, base + from, p, rest);
      OneFrameOpens(a, key, base + from, p, rest);
      IsGenuine(a, key, base, written, from);
      hide Correct;
      HonestWire(a, key, base, written, from + 1, times - 1);
    }
  }

  lemma IsGenuine(a: Aead, key: CipherKey, base: nat, written: seq<seq<byte>>, i: nat)
    requires i < |written|
    ensures Genuine(a, key, base, written, NonceOf(base + i), a.seal(key, NonceOf(base + i), written[i]))
  {
  }

  // ----- Counters across key changes -----

  datatype Op = Sealed(message: seq<byte>) | Rekeyed(key: CipherKey)

  /** The key and counter of every seal in a run of writes and key changes. */
  function Seals(key: CipherKey, sendNonce: nat, ops: seq<Op>): seq<(CipherKey, nat)>
    decreases |ops|
  {
    if ops == [] then []
    else match ops[0]
      case Sealed(_) => [(key, sendNonce)] + Seals(key, (sendNonce + 1) % TWO64, ops[1..])
      case Rekeyed(k) => Seals(k, sendNonce, ops[1..])
  }

  lemma {:induction false} SealCounters(key: CipherKey, sendNonce: nat, ops: seq<Op>, i: nat)
    requires sendNonce < TWO64 && i < |Seals(key, sendNonce, ops)|
    ensures Seals(key, sendNonce, ops)[i].1 == (sendNonce + i) % TWO64
    decreases |ops|
  {
    match ops[0] {
      case Sealed(_) =>
        if i > 0 {
          SealCounters(key, (sendNonce + 1) % TWO64, ops[1..], i - 1);
        }
      case Rekeyed(k) => SealCounters(k, sendNonce, ops[1..], i);
    }
  }

  /** However often the keys change, and even if a key comes back, no counter repeats
      if and only if at most 2^64 messages are sealed. */
  lemma CountersUniqueIff(key: CipherKey, sendNonce: nat, ops: seq<Op>)
    requires sendNonce < TWO64
    ensures var s := Seals(key, sendNonce, ops);
            (forall i, j :: 0 <= i < j < |s| ==> s[i].1 != s[j].1) <==> |s| <= TWO64
  {
    var s := Seals(key, sendNonce, ops);
    forall i | 0 <= i < |s| ensures s[i].1 == (sendNonce + i) % TWO64 {
      SealCounters(key, sendNonce, ops, i);
    }
    if |s| > TWO64 {
      assert s[0].1 == s[TWO64].1;
    }
  }
}
