/** The hole-punch coordination frames: built byte by byte by one side, parsed by the other. */
module PunchCodec {
  import opened Arithmetic
  import opened Options
  import opened Bytes

  const MAX_BODY: nat := 512

  /** `inc` is the signed direction in which a symmetric NAT allocates ports. */
  datatype Tail = Tail(tcpPort: nat, srcPort: nat, easySym: bool, inc: int, obsPort: nat)

  const NO_TAIL: Tail := Tail(0, 0, false, 0, 0)

  datatype Params = Params(nonce: nat, endpoint: seq<byte>, tail: Tail, key: seq<byte>)

  ghost predicate TailInRange(t: Tail) {
    t.tcpPort < 65536 && t.srcPort < 65536 && t.obsPort < 65536 && -128 <= t.inc < 128
  }

  ghost predicate InRange(p: Params) {
    p.nonce < 0x1_0000_0000 && TailInRange(p.tail)
  }

  /** Ports, flags and observed port: eight bytes. */
  function TailBytes(t: Tail): (s: seq<byte>)
    ensures |s| == 8
  {
    Encode(t.tcpPort, 2) + Encode(t.srcPort, 2) + [if t.easySym then 1 else 0] + [t.inc % 256] + Encode(t.obsPort, 2)
  }

  function Signed(b: byte): int {
    if b < 128 then b else b - 256
  }

  function ParseTail(s: seq<byte>): Tail
    requires |s| == 8
  {
    Tail(Value(s[..2]), Value(s[2..4]), s[4] == 1, Signed(s[5]), Value(s[6..8]))
  }

  lemma TailRoundTrip(t: Tail)
    requires TailInRange(t)
    ensures ParseTail(TailBytes(t)) == t
  {
    assert Pow(256, 2) == 65536;
    EncodeValue(t.tcpPort, 2);
    EncodeValue(t.srcPort, 2);
    EncodeValue(t.obsPort, 2);
    var s := TailBytes(t);
    assert s[..2] == Encode(t.tcpPort, 2) && s[2..4] == Encode(t.srcPort, 2) && s[6..8] == Encode(t.obsPort, 2);
  }

  // ----- Requests -----

  /** Nonce, endpoint length, endpoint, tail, initiator key. */
  function RequestBody(p: Params): seq<byte>
    requires |p.endpoint| <= 255
  {
    Encode(p.nonce, 4) + [|p.endpoint|] + p.endpoint + TailBytes(p.tail) + p.key
  }

  /** The format before the length byte: nonce, endpoint, tail. */
  function LegacyBody(p: Params): seq<byte> {
    Encode(p.nonce, 4) + p.endpoint + TailBytes(p.tail)
  }

  /** A two-byte field in network order. */
  ghost predicate Word(s: seq<byte>, at: nat, v: nat) {
    at + 2 <= |s| && s[at] == v / 256 % 256 && s[at + 1] == v % 256
  }

  /** Where the fields of a request are on the wire. */
  lemma RequestLayout(p: Params)
    requires InRange(p) && |p.endpoint| <= 255
    ensures var b, end := RequestBody(p), 5 + |p.endpoint|;
            && |b| == end + 8 + |p.key|
            && Word(b, 0, p.nonce / 65536) && Word(b, 2, p.nonce) && b[4] == |p.endpoint| && b[5..end] == p.endpoint
            && Word(b, end, p.tail.tcpPort) && Word(b, end + 2, p.tail.srcPort)
            && b[end + 4] == (if p.tail.easySym then 1 else 0) && b[end + 5] == p.tail.inc % 256
            && Word(b, end + 6, p.tail.obsPort) && b[end + 8..] == p.key
  {
    var b, end := RequestBody(p), 5 + |p.endpoint|;
    assert b[..4] == Encode(p.nonce, 4);
    assert b[end..end + 8] == TailBytes(p.tail);
    NonceWords(p.nonce);
    TailLayout(p.tail);
    hide Encode, TailBytes, RequestBody;
  }

  lemma NonceWords(v: nat)
    ensures Word(Encode(v, 4), 0, v / 65536) && Word(Encode(v, 4), 2, v)
  {
    EncodeWord(v);
    EncodeWord(v / 65536);
    assert Encode(v, 4) == Encode(v / 65536, 2) + Encode(v, 2);
  }

  lemma EncodeWord(v: nat)
    ensures Word(Encode(v, 2), 0, v)
  {
  }

  /** Where the fields of the tail are. */
  lemma TailLayout(t: Tail)
    ensures var s := TailBytes(t);
            && Word(s, 0, t.tcpPort) && Word(s, 2, t.srcPort) && Word(s, 6, t.obsPort)
            && s[4] == (if t.easySym then 1 else 0) && s[5] == t.inc % 256
  {
    EncodeWord(t.tcpPort);
    EncodeWord(t.srcPort);
    EncodeWord(t.obsPort);
    hide Encode;
  }

  predicate HasLengthByte(body: seq<byte>) {
    |body| >= 13 && body[4] > 0 && body[4] < |body| - 12
  }

  /** What the coordinator makes of a request body; None when it drops the connection. */
  function ParseRequest(body: seq<byte>): Option<Params> {
    if |body| < 4 || |body| > MAX_BODY then None
    else
      var nonce := Value(body[..4]);
      if HasLengthByte(body) then
        var end := body[4] as int + 5;
        if |body| >= end + 12
        then Some(Params(nonce, body[5..end], ParseTail(body[end..end + 8]), body[end + 8..]))
        else Some(Params(nonce, body[5..end], NO_TAIL, []))
      else if |body| > 12 then
        var end := |body| - 8;
        Some(Params(nonce, body[4..end], ParseTail(body[end..]), []))
      else Some(Params(nonce, body[4..], NO_TAIL, []))
  }

  /** A key of fewer than four bytes is lost, and an empty endpoint is taken for the old format. */
  predicate Unambiguous(p: Params) {
    p.endpoint != [] && (|p.key| >= 4 || (p.key == [] && p.tail == NO_TAIL))
  }

  /** For every endpoint that fits its length byte and every body within the limit, the request is
      restored in full if and only if it is unambiguous. */
  lemma RequestRoundTripIff(p: Params)
    requires InRange(p) && |p.endpoint| <= 255 && |RequestBody(p)| <= MAX_BODY
    ensures ParseRequest(RequestBody(p)) == Some(p) <==> Unambiguous(p)
  {
    var body, end := RequestBody(p), 5 + |p.endpoint|;
    assert Pow(256, 4) == 0x1_0000_0000;
    EncodeValue(p.nonce, 4);
    TailRoundTrip(p.tail);
    assert body[..4] == Encode(p.nonce, 4) && body[4] == |p.endpoint|;
    assert body[5..end] == p.endpoint;
    assert body[end..end + 8] == TailBytes(p.tail);
    assert body[end + 8..] == p.key;
    hide Encode, Value, TailBytes, ParseTail, RequestBody;
    if p.endpoint == [] {
      assert |ParseRequest(body).value.endpoint| == 1 + |p.key|;
    }
  }

  /** A key-less request of the old format is understood if and only if its endpoint is not empty and no
      longer than the value of its first byte, or that byte is zero. */
  lemma LegacyRoundTripIff(p: Params)
    requires InRange(p) && p.key == [] && |LegacyBody(p)| <= MAX_BODY
    ensures ParseRequest(LegacyBody(p)) == Some(p) <==>
              p.endpoint != [] && (p.endpoint[0] == 0 || |p.endpoint| <= p.endpoint[0])
  {
    var body, end := LegacyBody(p), 4 + |p.endpoint|;
    assert Pow(256, 4) == 0x1_0000_0000;
    EncodeValue(p.nonce, 4);
    TailRoundTrip(p.tail);
    assert body[..4] == Encode(p.nonce, 4) && (p.endpoint != [] ==> body[4] == p.endpoint[0]);
    assert body[4..end] == p.endpoint;
    assert body[end..] == TailBytes(p.tail);
    hide Encode, Value, TailBytes, ParseTail, LegacyBody;
    if HasLengthByte(body) {
      assert |ParseRequest(body).value.endpoint| == body[4];
    }
  }

  // ----- Responses -----

  /** The bytes of "0.0.0.0:0", sent instead of an endpoint of more than 255 bytes. */
  const NO_ENDPOINT: seq<byte> := [48, 46, 48, 46, 48, 46, 48, 58, 48]

  /** What the initiator makes of a response body. */
  function ParseResponse(body: seq<byte>): Option<Params> {
    if |body| < 4 || |body| > MAX_BODY then None
    else
      var nonce := Value(body[..4]);
      if |body| >= 12
      then Some(Params(nonce, body[4..|body| - 8], ParseTail(body[|body| - 8..]), []))
      else Some(Params(nonce, body[4..], NO_TAIL, []))
  }

  /** Responses keep the old layout, and every one of them is restored in full. */
  lemma ResponseRoundTrip(p: Params)
    requires InRange(p) && p.key == [] && |p.endpoint| <= 255
    ensures ParseResponse(LegacyBody(p)) == Some(p)
  {
    var body, end := LegacyBody(p), 4 + |p.endpoint|;
    assert Pow(256, 4) == 0x1_0000_0000;
    EncodeValue(p.nonce, 4);
    TailRoundTrip(p.tail);
    assert body[..4] == Encode(p.nonce, 4);
    assert body[4..end] == p.endpoint;
    assert body[end..] == TailBytes(p.tail);
    hide Encode, Value, TailBytes, ParseTail, LegacyBody;
  }

  // ----- Framing -----

  function Framed(body: seq<byte>): seq<byte> {
    Encode(|body|, 2) + body
  }

  /** Reads the length prefix and then exactly the body, leaving the rest of the stream alone. */
  function Unframe(stream: seq<byte>): Option<(seq<byte>, seq<byte>)> {
    if |stream| < 2 then None
    else
      var n := Value(stream[..2]);
      if n < 4 || n > MAX_BODY || |stream| < 2 + n then None
      else Some((stream[2..2 + n], stream[2 + n..]))
  }

  lemma FrameRoundTrip(body: seq<byte>, rest: seq<byte>)
    requires 4 <= |body| < 65536
    ensures Unframe(Framed(body) + rest) == if |body| <= 512 then Some((body, rest)) else None
  {
    var stream := Framed(body) + rest;
    assert Pow(256, 2) == 65536;
    EncodeValue(|body|, 2);
    assert stream[..2] == Encode(|body|, 2);
    assert stream[2..2 + |body|] == body && stream[2 + |body|..] == rest;
  }

  /** The coordinator takes one frame off the stream and makes `p` of it. */
  ghost predicate Receives(stream: seq<byte>, p: Params, rest: seq<byte>) {
    var u := Unframe(stream);
    u.Some? && u.value.1 == rest && ParseRequest(u.value.0) == Some(p)
  }

  /** Whatever follows on the stream, the coordinator reads back exactly the parameters sent, and leaves
      exactly the rest, if and only if the frame is within the limit and nothing in it is ambiguous. */
  lemma RequestDelivered(p: Params, rest: seq<byte>)
    requires InRange(p) && |p.endpoint| <= 255 && |RequestBody(p)| < 65536
    ensures Receives(Framed(RequestBody(p)) + rest, p, rest) <==>
              |p.endpoint| + |p.key| <= 499 && Unambiguous(p)
  {
    FrameRoundTrip(RequestBody(p), rest);
    if |RequestBody(p)| <= MAX_BODY {
      RequestRoundTripIff(p);
    }
    hide Framed, Unframe, ParseRequest;
  }

  // ----- Building frames in place -----

  method Put(buf: array<byte>, at: nat, data: seq<byte>)
    requires at + |data| <= buf.Length
    modifies buf
    ensures buf[..at + |data|] == old(buf[..at]) + data
  {
    for i := 0 to |data|
      invariant buf[..at + i] == old(buf[..at]) + data[..i]
    {
      buf[at + i] := data[i];
    }
  }

  method PutTail(buf: array<byte>, at: nat, t: Tail)
    requires at + 8 <= buf.Length
    modifies buf
    ensures buf[..at + 8] == old(buf[..at]) + TailBytes(t)
  {
    Put(buf, at, Encode(t.tcpPort, 2));
    Put(buf, at + 2, Encode(t.srcPort, 2));
    Put(buf, at + 4, [0]);
    if t.easySym {
      Put(buf, at + 4, [1]);
    }
    Put(buf, at + 5, [t.inc % 256]);
    Put(buf, at + 6, Encode(t.obsPort, 2));
  }

  method Frame(body: array<byte>) returns (frame: seq<byte>)
    ensures frame == Framed(body[..])
  {
    var req := new byte[2 + body.Length];
    Put(req, 0, Encode(body.Length, 2));
    Put(req, 2, body[..]);
    frame := req[..];
    assert frame == req[..2 + body.Length];
  }

  /** An endpoint of more than 255 bytes is not sent at all. */
  method BuildRequest(p: Params) returns (frame: Option<seq<byte>>)
    ensures frame == if |p.endpoint| > 255 then None else Some(Framed(RequestBody(p)))
  {
    if |p.endpoint| > 255 {
      return None;
    }
    var end := 5 + |p.endpoint|;
    var body := new byte[end + 8 + |p.key|];
    Put(body, 0, Encode(p.nonce, 4));
    Put(body, 4, [|p.endpoint|]);
    Put(body, 5, p.endpoint);
    PutTail(body, end, p.tail);
    Put(body, end + 8, p.key);
    assert body[..] == body[..end + 8 + |p.key|] == RequestBody(p);
    var req := Frame(body);
    return Some(req);
  }

  method BuildResponse(p: Params) returns (frame: seq<byte>)
    ensures frame == Framed(LegacyBody(if |p.endpoint| > 255 then p.(endpoint := NO_ENDPOINT) else p))
  {
    var our := p.endpoint;
    if |our| > 255 {
      our := NO_ENDPOINT;
    }
    var resp := new byte[4 + |our| + 8];
    Put(resp, 0, Encode(p.nonce, 4));
    Put(resp, 4, our);
    PutTail(resp, 4 + |our|, p.tail);
    assert resp[..] == resp[..4 + |our| + 8] == LegacyBody(p.(endpoint := our));
    frame := Frame(resp);
  }
}
