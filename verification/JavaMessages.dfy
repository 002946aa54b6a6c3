/**
 The status exchange of the Java protocol: what each side sends, what each side accepts, and
 the sequential code of the client's probe and of the staging server's connection handler.
 */
module JavaMessages {
  import opened Results
  import opened Bytes
  import opened Streams
  import opened VarInt
  import opened VarIntCodec
  import opened Framing

  const STATUS_PROTOCOL_VERSION: int := -1
  const HANDSHAKE_ID: int := 0
  const STATUS_ID: int := 0
  const PING_ID: int := 1
  const NEXT_STATE_STATUS: int := 1
  const MILLISECOND: int := 1_000_000

  datatype Handshake = Handshake(protocol: int32, host: seq<byte>, port: uint16, nextState: int32)

  // ----- payloads sent

  function HandshakePayload(host: seq<byte>, port: uint16): (p: seq<byte>)
    requires |host| <= MAX_HOST_BYTES
    ensures 1 <= |p| <= MAX_PACKET_LENGTH
  {
    EncodeIsEncoding(STATUS_PROTOCOL_VERSION);
    EncodeIsEncoding(|host|);
    Encode(HANDSHAKE_ID)
    + (Encode(Unsigned(STATUS_PROTOCOL_VERSION))
       + ((Encode(|host|) + host) + (PutUint16(port) + Encode(NEXT_STATE_STATUS))))
  }

  const REQUEST_PAYLOAD: seq<byte> := [0]

  function StatusPayload(json: seq<byte>): (p: seq<byte>)
    requires |json| <= MAX_STATUS_JSON_LENGTH
    ensures 1 <= |p| <= MAX_PACKET_LENGTH
  {
    EncodeIsEncoding(|json|);
    Encode(STATUS_ID) + (Encode(|json|) + json)
  }

  /** Ping and pong share their layout and their packet id. */
  function TokenPayload(token: uint64): (p: seq<byte>)
    ensures |p| == 9
  {
    Encode(PING_ID) + PutBigEndian(token, 8)
  }

  /** The bytes of a handshake: packet 0, version -1, the host with its length, the port with its
      high byte first, and 1 for status. */
  lemma HandshakeBytes(host: seq<byte>, port: uint16)
    requires |host| <= 255
    ensures HandshakePayload(host, port)
         == [0] + [0xff, 0xff, 0xff, 0xff, 0x0f] + Encode(|host|) + host + [port / 256, port % 256] + [1]
  {
    MinusOneEncoded();
    Regroup([0], [0xff, 0xff, 0xff, 0xff, 0x0f], Encode(|host|), host, [port / 256, port % 256], [1]);
  }

  lemma MinusOneEncoded()
    ensures Encode(Unsigned(-1)) == [0xff, 0xff, 0xff, 0xff, 0x0f]
  {
    assert Encode(0x0f) == [0x0f];
    assert Encode(0x7ff) == [0xff] + Encode(0x0f);
    assert Encode(0x3_ffff) == [0xff] + Encode(0x7ff);
    assert Encode(0x1ff_ffff) == [0xff] + Encode(0x3_ffff);
    assert Encode(0xffff_ffff) == [0xff] + Encode(0x1ff_ffff);
  }

  lemma Regroup(a: seq<byte>, b: seq<byte>, c: seq<byte>, d: seq<byte>, e: seq<byte>, f: seq<byte>)
    ensures a + (b + ((c + d) + (e + f))) == a + b + c + d + e + f
  {
  }

  /** A status is packet 0 around the length and the text; a ping and a pong are packet 1 around
      the eight bytes of the token, most significant first. */
  lemma PayloadBytes(json: seq<byte>, token: uint64)
    requires |json| <= 0x10_0000
    ensures StatusPayload(json) == [0] + Encode(|json|) + json
    ensures TokenPayload(token)[0] == 1
    ensures forall k | 1 <= k <= 8 :: TokenPayload(token)[k] == token / Pow256(8 - k) % 256
  {
    forall k | 1 <= k <= 8
      ensures TokenPayload(token)[k] == token / Pow256(8 - k) % 256
    {
      BigEndianBytes(token, 8, k - 1);
    }
  }

  // ----- payloads accepted by the staging server

  /** The front of a handshake: id, protocol version and host, and the bytes behind them. */
  ghost function HandshakeFront(p: seq<byte>, rules: TextRules): Outcome<(int32, seq<byte>, seq<byte>), WireError> {
    match Decode(p)
    case TooLong => Err(VarIntTooLong)
    case Truncated => Err(EndOfStream)
    case Value(id, a) => if id != HANDSHAKE_ID then Err(UnexpectedId(id)) else HandshakeVersion(p[a..], rules)
  }

  ghost function HandshakeVersion(p: seq<byte>, rules: TextRules): Outcome<(int32, seq<byte>, seq<byte>), WireError> {
    match Decode(p)
    case TooLong => Err(VarIntTooLong)
    case Truncated => Err(EndOfStream)
    case Value(protocol, b) =>
      match DecodeString(p[b..], MAX_HOST_BYTES, rules)
      case Failed(e) => Err(e)
      case Parsed(host, h) => Ok((protocol, host, p[b + h..]))
  }

  ghost function HandshakeTail(p: seq<byte>): Outcome<(uint16, int32), WireError> {
    if |p| < 2 then Err(MissingPort)
    else
      match Decode(p[2..])
      case TooLong => Err(VarIntTooLong)
      case Truncated => Err(EndOfStream)
      case Value(state, c) =>
        if state != NEXT_STATE_STATUS then Err(UnexpectedNextState(state))
        else if 2 + c != |p| then Err(TrailingBytes)
        else Ok((Uint16(p[..2]), state))
  }

  /** The server's handshake parse. It skips the two port bytes; they are kept here so that
      what the client put there can be stated. */
  ghost function ParseHandshake(p: seq<byte>, rules: TextRules): Outcome<Handshake, WireError> {
    match HandshakeFront(p, rules)
    case Err(e) => Err(e)
    case Ok((protocol, host, tail)) =>
      match HandshakeTail(tail)
      case Err(e) => Err(e)
      case Ok((port, state)) => Ok(Handshake(protocol, host, port, state))
  }

  ghost function CheckRequest(p: seq<byte>): Outcome<(), WireError> {
    match Decode(p)
    case TooLong => Err(VarIntTooLong)
    case Truncated => Err(EndOfStream)
    case Value(id, n) =>
      if id != STATUS_ID then Err(UnexpectedId(id))
      else if n != |p| then Err(BadPayloadSize)
      else Ok(())
  }

  /** The eight token bytes behind a packet id of one: shared by the server's ping parse and
      the client's pong parse. */
  ghost function ParseToken(p: seq<byte>): Outcome<uint64, WireError> {
    match Decode(p)
    case TooLong => Err(VarIntTooLong)
    case Truncated => Err(EndOfStream)
    case Value(id, n) =>
      if id != PING_ID then Err(UnexpectedId(id))
      else if |p[n..]| != 8 then Err(BadPayloadSize)
      else
        WordWidths();
        BigEndianBound(p[n..]);
        Ok(BigEndian(p[n..]))
  }

  // ----- payloads accepted by the client

  ghost function CheckStatus(p: seq<byte>, rules: TextRules): Outcome<(), WireError> {
    match Decode(p)
    case TooLong => Err(VarIntTooLong)
    case Truncated => Err(EndOfStream)
    case Value(id, n) =>
      if id != STATUS_ID then Err(UnexpectedId(id))
      else
        match DecodeString(p[n..], MAX_STATUS_JSON_LENGTH, rules)
        case Failed(e) => Err(e)
        case Parsed(json, m) =>
          if n + m != |p| then Err(BadFraming)
          else if !rules.jsonObject(json) then Err(NotJsonObject)
          else Ok(())
  }

  ghost function CheckPong(p: seq<byte>, expected: uint64): Outcome<(), WireError> {
    match ParseToken(p)
    case Err(e) => Err(e)
    case Ok(received) => if received != expected then Err(TokenMismatch) else Ok(())
  }

  // ----- each side accepts what the other sends

  lemma HandshakeTailRoundTrip(port: uint16, state: int32)
    requires state == NEXT_STATE_STATUS
    ensures HandshakeTail(PutUint16(port) + Encode(Unsigned(state))) == Ok((port, state))
  {
    var p := PutUint16(port) + Encode(Unsigned(state));
    assert p[..2] == PutUint16(port) && p[2..] == Encode(Unsigned(state)) + [];
    EncodeDecode(state, []);
    Uint16RoundTrip(port);
  }

  /** The three encodings and the host in front of the port, cut at i, j, k and l. */
  ghost predicate FrontAt(b: seq<byte>, i: nat, j: nat, k: nat, l: nat, protocol: int32, host: seq<byte>,
                          rules: TextRules) {
    && i <= j <= k <= l <= |b|
    && IsEncoding(b[..i], 0)
    && IsEncoding(b[i..j], protocol)
    && l - k <= 255 && IsEncoding(b[j..k], l - k)
    && b[k..l] == host && rules.utf8(host)
  }

  lemma SliceOfSlice(b: seq<byte>, i: nat, j: nat, k: nat)
    requires i <= j <= k <= |b|
    ensures b[i..][j - i..k - i] == b[j..k] && b[i..][..j - i] == b[i..j] && b[i..][j - i..] == b[j..]
  {
  }

  lemma StringParses(p: seq<byte>, j: nat, l: nat, host: seq<byte>, rules: TextRules)
    requires j + |host| <= l <= |p| && |host| <= MAX_HOST_BYTES && rules.utf8(host)
    requires IsEncoding(p[j..l - |host|], |host|) && p[l - |host|..l] == host
    ensures DecodeString(p[j..], MAX_HOST_BYTES, rules) == Parsed(host, l - j)
  {
    SliceOfSlice(p, j, l - |host|, l);
    StringExact(p[j..], host, l - j, MAX_HOST_BYTES, rules);
  }

  lemma VersionParses(p: seq<byte>, j: nat, l: nat, protocol: int32, host: seq<byte>, rules: TextRules)
    requires j + |host| <= l <= |p| && |host| <= MAX_HOST_BYTES && rules.utf8(host)
    requires IsEncoding(p[..j], protocol) && IsEncoding(p[j..l - |host|], |host|) && p[l - |host|..l] == host
    ensures HandshakeVersion(p, rules) == Ok((protocol, host, p[l..]))
  {
    DecodeExact(p, protocol, j);
    StringParses(p, j, l, host, rules);
  }

  lemma FrontParses(b: seq<byte>, i: nat, j: nat, k: nat, l: nat, protocol: int32, host: seq<byte>, rules: TextRules)
    requires FrontAt(b, i, j, k, l, protocol, host, rules)
    ensures HandshakeFront(b, rules) == Ok((protocol, host, b[l..]))
  {
    SliceOfSlice(b, i, j, k);
    SliceOfSlice(b, i, k, l);
    SliceOfSlice(b, i, l, |b|);
    VersionParses(b[i..], j - i, l - i, protocol, host, rules);
    DecodeExact(b, HANDSHAKE_ID, i);
  }

  lemma ConcatSlices(i: seq<byte>, e: seq<byte>, l: seq<byte>, host: seq<byte>, tail: seq<byte>)
    ensures var p, a, b, c, d := i + (e + ((l + host) + tail)), |i|, |i + e|, |i + e + l|, |i + e + l + host|;
            p[..a] == i && p[a..b] == e && p[b..c] == l && p[c..d] == host && p[d..] == tail
  {
  }

  /** Any accepted encodings of the three numbers will do. */
  lemma HandshakeFrontParses(i: seq<byte>, e: seq<byte>, l: seq<byte>, protocol: int32, host: seq<byte>,
                             tail: seq<byte>, rules: TextRules)
    requires |host| <= MAX_HOST_BYTES && rules.utf8(host)
    requires IsEncoding(i, HANDSHAKE_ID) && IsEncoding(e, protocol) && IsEncoding(l, |host|)
    ensures HandshakeFront(i + (e + ((l + host) + tail)), rules) == Ok((protocol, host, tail))
  {
    ConcatSlices(i, e, l, host, tail);
    FrontParses(i + (e + ((l + host) + tail)), |i|, |i + e|, |i + e + l|, |i + e + l + host|, protocol, host, rules);
  }

  /** The server reads out of the client's handshake exactly what the client put in. */
  lemma HandshakeRoundTrip(host: seq<byte>, port: uint16, rules: TextRules)
    requires |host| <= MAX_HOST_BYTES && rules.utf8(host)
    ensures ParseHandshake(HandshakePayload(host, port), rules)
         == Ok(Handshake(-1, host, port, 1))
  {
    EncodeIsEncoding(HANDSHAKE_ID);
    EncodeIsEncoding(STATUS_PROTOCOL_VERSION);
    EncodeIsEncoding(|host|);
    HandshakeFrontParses(Encode(HANDSHAKE_ID), Encode(Unsigned(STATUS_PROTOCOL_VERSION)), Encode(|host|),
                         STATUS_PROTOCOL_VERSION, host, PutUint16(port) + Encode(NEXT_STATE_STATUS), rules);
    HandshakeTailRoundTrip(port, NEXT_STATE_STATUS);
  }

  lemma RequestAccepted()
    ensures CheckRequest(REQUEST_PAYLOAD) == Ok(())
  {
    EncodeDecode(STATUS_ID, []);
    assert REQUEST_PAYLOAD == Encode(STATUS_ID) + [];
  }

  lemma TokenRoundTrip(token: uint64)
    ensures ParseToken(TokenPayload(token)) == Ok(token)
  {
    EncodeDecode(PING_ID, PutBigEndian(token, 8));
    assert TokenPayload(token)[|Encode(PING_ID)|..] == PutBigEndian(token, 8);
    Uint64RoundTrip(token);
  }

  /** A status the server may send is accepted by the client iff it is a JSON object. */
  lemma StatusAccepted(json: seq<byte>, rules: TextRules)
    requires |json| <= MAX_STATUS_JSON_LENGTH && rules.utf8(json)
    ensures CheckStatus(StatusPayload(json), rules) == if rules.jsonObject(json) then Ok(()) else Err(NotJsonObject)
  {
    var p1 := Encode(|json|) + json;
    EncodeDecode(STATUS_ID, p1);
    assert StatusPayload(json)[|Encode(STATUS_ID)|..] == p1 == Encode(|json|) + json + [];
    EncodeIsEncoding(|json|);
    StringDecodes(Encode(|json|), json, [], MAX_STATUS_JSON_LENGTH, rules);
  }

  // ----- exact acceptance against any peer

  /** b is an id of zero, then a length, then that many bytes of a UTF-8 JSON object. */
  ghost predicate StatusBodyAt(b: seq<byte>, i: nat, j: nat, rules: TextRules) {
    && i <= j <= |b|
    && IsEncoding(b[..i], 0)
    && |b| - j <= 0x10_0000
    && IsEncoding(b[i..j], |b| - j)
    && rules.utf8(b[j..]) && rules.jsonObject(b[j..])
  }

  ghost predicate IsStatusBody(b: seq<byte>, rules: TextRules) {
    exists i: nat, j: nat :: StatusBodyAt(b, i, j, rules)
  }

  /** Ping and pong alike: the packet number in any encoding, then the token. */
  ghost predicate IsTokenBody(b: seq<byte>, token: uint64) {
    && |b| >= 8
    && IsEncoding(b[..|b| - 8], 1)
    && b[|b| - 8..] == PutBigEndian(token, 8)
  }

  lemma JsonSplits(b: seq<byte>, i: nat, json: seq<byte>, rules: TextRules)
    requires i <= |b| && DecodeString(b[i..], MAX_STATUS_JSON_LENGTH, rules) == Parsed(json, |b| - i)
    ensures var j := |b| - |json|;
            && i <= j && b[j..] == json && IsEncoding(b[i..j], |json|)
            && |json| <= MAX_STATUS_JSON_LENGTH && rules.utf8(json)
  {
    StringExact(b[i..], json, |b| - i, MAX_STATUS_JSON_LENGTH, rules);
    SliceOfSlice(b, i, |b| - |json|, |b|);
  }

  lemma JsonParses(b: seq<byte>, i: nat, j: nat, rules: TextRules)
    requires i <= j <= |b| && |b| - j <= MAX_STATUS_JSON_LENGTH && IsEncoding(b[i..j], |b| - j) && rules.utf8(b[j..])
    ensures DecodeString(b[i..], MAX_STATUS_JSON_LENGTH, rules) == Parsed(b[j..], |b| - i)
  {
    SliceOfSlice(b, i, j, |b|);
    StringExact(b[i..], b[j..], |b| - i, MAX_STATUS_JSON_LENGTH, rules);
  }

  lemma AcceptedIsStatusBody(b: seq<byte>, rules: TextRules)
    requires CheckStatus(b, rules) == Ok(())
    ensures IsStatusBody(b, rules)
  {
    var i := Decode(b).consumed;
    DecodeExact(b, STATUS_ID, i);
    var json := DecodeString(b[i..], MAX_STATUS_JSON_LENGTH, rules).value;
    JsonSplits(b, i, json, rules);
    assert StatusBodyAt(b, i, |b| - |json|, rules);
  }

  lemma StatusBodyIsAccepted(b: seq<byte>, i: nat, j: nat, rules: TextRules)
    requires StatusBodyAt(b, i, j, rules)
    ensures CheckStatus(b, rules) == Ok(())
  {
    DecodeExact(b, STATUS_ID, i);
    JsonParses(b, i, j, rules);
  }

  lemma CheckStatusExact(b: seq<byte>, rules: TextRules)
    ensures CheckStatus(b, rules) == Ok(()) <==> IsStatusBody(b, rules)
  {
    if CheckStatus(b, rules) == Ok(()) {
      AcceptedIsStatusBody(b, rules);
    }
    if IsStatusBody(b, rules) {
      var i: nat, j: nat :| StatusBodyAt(b, i, j, rules);
      StatusBodyIsAccepted(b, i, j, rules);
    }
  }

  lemma CheckPongExact(b: seq<byte>, token: uint64)
    ensures CheckPong(b, token) == Ok(()) <==> IsTokenBody(b, token)
  {
    Uint64RoundTrip(token);
    if CheckPong(b, token) == Ok(()) {
      DecodeExact(b, PING_ID, |b| - 8);
    }
    if IsTokenBody(b, token) {
      DecodeExact(b, PING_ID, |b| - 8);
    }
  }

  ghost function StatusReads(s: seq<byte>, rules: TextRules): (r: Parse<()>)
    ensures r.Parsed? ==> r.consumed <= |s|
  {
    match DecodePacket(s, MAX_PACKET_LENGTH)
    case Failed(e) => Failed(e)
    case Parsed(p, n) => if CheckStatus(p, rules).Err? then Failed(CheckStatus(p, rules).error) else Parsed((), n)
  }

  ghost function PongReads(s: seq<byte>, token: uint64): (r: Parse<()>)
    ensures r.Parsed? ==> r.consumed <= |s|
  {
    match DecodePacket(s, MAX_PACKET_LENGTH)
    case Failed(e) => Failed(e)
    case Parsed(p, n) => if CheckPong(p, token).Err? then Failed(CheckPong(p, token).error) else Parsed((), n)
  }

  /** The client's two reads in a row: status, then pong. */
  ghost function ClientReads(s: seq<byte>, token: uint64, rules: TextRules): (r: Parse<()>)
    ensures r.Parsed? ==> r.consumed <= |s|
  {
    match StatusReads(s, rules)
    case Failed(e) => Failed(e)
    case Parsed(_, k) =>
      match PongReads(s[k..], token)
      case Failed(e) => Failed(e)
      case Parsed(_, m) => Parsed((), k + m)
  }

  /** f is a frame, its length between 1 and 2 MiB, around a status body. */
  ghost predicate IsStatusFrame(f: seq<byte>, rules: TextRules) {
    exists p :: IsFrame(f, p, 0x20_0000) && IsStatusBody(p, rules)
  }

  ghost predicate IsTokenFrame(f: seq<byte>, token: uint64) {
    exists p :: IsFrame(f, p, 0x20_0000) && IsTokenBody(p, token)
  }

  lemma StatusReadsExact(s: seq<byte>, n: nat, rules: TextRules)
    ensures StatusReads(s, rules) == Parsed((), n) <==> n <= |s| && IsStatusFrame(s[..n], rules)
  {
    if StatusReads(s, rules) == Parsed((), n) {
      var p := DecodePacket(s, MAX_PACKET_LENGTH).value;
      PacketExact(s, p, n, MAX_PACKET_LENGTH);
      CheckStatusExact(p, rules);
    }
    if n <= |s| && IsStatusFrame(s[..n], rules) {
      var p :| IsFrame(s[..n], p, MAX_PACKET_LENGTH) && IsStatusBody(p, rules);
      PacketExact(s, p, n, MAX_PACKET_LENGTH);
      CheckStatusExact(p, rules);
    }
  }

  lemma PongReadsExact(s: seq<byte>, n: nat, token: uint64)
    ensures PongReads(s, token) == Parsed((), n) <==> n <= |s| && IsTokenFrame(s[..n], token)
  {
    if PongReads(s, token) == Parsed((), n) {
      var p := DecodePacket(s, MAX_PACKET_LENGTH).value;
      PacketExact(s, p, n, MAX_PACKET_LENGTH);
      CheckPongExact(p, token);
    }
    if n <= |s| && IsTokenFrame(s[..n], token) {
      var p :| IsFrame(s[..n], p, MAX_PACKET_LENGTH) && IsTokenBody(p, token);
      PacketExact(s, p, n, MAX_PACKET_LENGTH);
      CheckPongExact(p, token);
    }
  }

  /** The first k bytes are a status frame and the next n - k a pong frame for the token. */
  ghost predicate ExchangeAt(s: seq<byte>, k: nat, n: nat, token: uint64, rules: TextRules) {
    k <= n <= |s| && IsStatusFrame(s[..k], rules) && IsTokenFrame(s[k..n], token)
  }

  lemma PongFrameReads(s: seq<byte>, k: nat, n: nat, token: uint64)
    requires k <= n && k <= |s|
    ensures PongReads(s[k..], token) == Parsed((), n - k) <==> n <= |s| && IsTokenFrame(s[k..n], token)
  {
    PongReadsExact(s[k..], n - k, token);
    if n <= |s| {
      SliceOfSlice(s, k, n, n);
    }
  }

  lemma ExchangeComposes(s: seq<byte>, k: nat, n: nat, token: uint64, rules: TextRules)
    requires StatusReads(s, rules) == Parsed((), k) && k <= n && PongReads(s[k..], token) == Parsed((), n - k)
    ensures ClientReads(s, token, rules) == Parsed((), n)
  {
  }

  lemma ExchangeIsAccepted(s: seq<byte>, k: nat, n: nat, token: uint64, rules: TextRules)
    requires ExchangeAt(s, k, n, token, rules)
    ensures ClientReads(s, token, rules) == Parsed((), n)
  {
    StatusReadsExact(s, k, rules);
    PongFrameReads(s, k, n, token);
    ExchangeComposes(s, k, n, token, rules);
  }

  lemma AcceptedIsExchange(s: seq<byte>, k: nat, m: nat, token: uint64, rules: TextRules)
    requires StatusReads(s, rules) == Parsed((), k) && PongReads(s[k..], token) == Parsed((), m)
    ensures ExchangeAt(s, k, k + m, token, rules)
  {
    StatusReadsExact(s, k, rules);
    PongFrameReads(s, k, k + m, token);
  }

  /** Against any peer whatever, the client accepts, consuming n bytes, iff the first n bytes
      of the stream are one status frame and one pong frame. */
  lemma ClientAcceptsExactly(s: seq<byte>, n: nat, token: uint64, rules: TextRules)
    ensures ClientReads(s, token, rules) == Parsed((), n) <==> exists k: nat :: ExchangeAt(s, k, n, token, rules)
  {
    if ClientReads(s, token, rules) == Parsed((), n) {
      var k := StatusReads(s, rules).consumed;
      AcceptedIsExchange(s, k, n - k, token, rules);
    }
    if exists k: nat :: ExchangeAt(s, k, n, token, rules) {
      var k: nat :| ExchangeAt(s, k, n, token, rules);
      ExchangeIsAccepted(s, k, n, token, rules);
    }
  }

  // ----- the client's code

  lemma AppendedInOrder(a: seq<byte>, b: seq<byte>, c: seq<byte>, d: seq<byte>, e: seq<byte>, f: seq<byte>)
    ensures [] + a + b + c + d + e + f == a + (b + ((c + d) + (e + f)))
  {
  }

  method SendHandshakePacket(w: Buffer, host: seq<byte>, port: int) returns (r: Outcome<(), WireError>)
    modifies w
    ensures r.Ok? <==> 0 <= port <= 65535 && |host| <= 255
    ensures r.Ok? ==> w.bytes == old(w.bytes) + Frame(HandshakePayload(host, port))
    ensures r.Err? ==> w.bytes == old(w.bytes)
  {
    if port < 0 || port > 65535 {
      return Err(PortOutOfRange);
    }
    var payload := new Buffer();
    ClientWriteVarInt(payload, HANDSHAKE_ID);
    ClientWriteVarInt(payload, STATUS_PROTOCOL_VERSION);
    var written := ClientWriteString(payload, host, MAX_HOST_BYTES);
    if written.Err? {
      return written;
    }
    payload.Write(PutUint16(port));
    ClientWriteVarInt(payload, NEXT_STATE_STATUS);
    AppendedInOrder(Encode(HANDSHAKE_ID), Encode(Unsigned(STATUS_PROTOCOL_VERSION)), Encode(|host|), host,
                    PutUint16(port), Encode(NEXT_STATE_STATUS));
    assert payload.bytes == HandshakePayload(host, port);
    r := ClientWritePacket(w, payload.bytes);
  }

  method SendPingPacket(w: Buffer, token: uint64)
    modifies w
    ensures w.bytes == old(w.bytes) + Frame(TokenPayload(token))
  {
    var payload := new Buffer();
    ClientWriteVarInt(payload, PING_ID);
    payload.Write(PutBigEndian(token, 8));
    var _ := ClientWritePacket(w, payload.bytes);
  }

  method ReadStatusResponse(r: Reader, rules: TextRules) returns (result: Outcome<(), WireError>)
    requires r.Valid()
    modifies r
    ensures r.Valid()
    ensures match StatusReads(old(r.Rest()), rules)
            case Failed(e) => result == Err(e)
            case Parsed(_, n) => result == Ok(()) && r.Rest() == old(r.Rest())[n..]
  {
    var packet := ReadPacket(r, MAX_PACKET_LENGTH);
    if packet.Err? {
      return Err(packet.error);
    }
    var payload := packet.value;
    var id := ClientReadVarIntFromBytes(payload);
    match id {
      case TooLong => return Err(VarIntTooLong);
      case Truncated => return Err(EndOfStream);
      case Value(packetID, consumed) =>
        if packetID != STATUS_ID {
          return Err(UnexpectedId(packetID));
        }
        var json := ClientReadStringFromBytes(payload[consumed..], MAX_STATUS_JSON_LENGTH, rules);
        if json.Failed? {
          return Err(json.error);
        }
        if consumed + json.consumed != |payload| {
          return Err(BadFraming);
        }
        if !rules.jsonObject(json.value) {
          return Err(NotJsonObject);
        }
        return Ok(());
    }
  }

  method ReadPongPacket(r: Reader, expected: uint64) returns (result: Outcome<(), WireError>)
    requires r.Valid()
    modifies r
    ensures r.Valid()
    ensures match PongReads(old(r.Rest()), expected)
            case Failed(e) => result == Err(e)
            case Parsed(_, n) => result == Ok(()) && r.Rest() == old(r.Rest())[n..]
  {
    var packet := ReadPacket(r, MAX_PACKET_LENGTH);
    if packet.Err? {
      return Err(packet.error);
    }
    var payload := packet.value;
    var id := ClientReadVarIntFromBytes(payload);
    match id {
      case TooLong => return Err(VarIntTooLong);
      case Truncated => return Err(EndOfStream);
      case Value(packetID, consumed) =>
        if packetID != PING_ID {
          return Err(UnexpectedId(packetID));
        }
        if |payload[consumed..]| != 8 {
          return Err(BadPayloadSize);
        }
        if BigEndian(payload[consumed..]) != expected {
          return Err(TokenMismatch);
        }
        return Ok(());
    }
  }

  /** Bytes the client has put on the wire when the whole exchange succeeds. */
  function ClientSends(handshake: seq<byte>, token: uint64): seq<byte>
    requires |handshake| <= MAX_PACKET_LENGTH
  {
    Frame(handshake) + Frame(REQUEST_PAYLOAD) + Frame(TokenPayload(token))
  }

  lemma ThreeWrites(before: seq<byte>, f: seq<byte>, g: seq<byte>, h: seq<byte>)
    ensures before + f + g + h == before + (f + g + h)
  {
  }

  /** Status in, ping out, pong in. */
  method ExchangeToken(r: Reader, w: Buffer, token: uint64, rules: TextRules) returns (result: Outcome<(), WireError>)
    requires r.Valid()
    modifies r, w
    ensures r.Valid()
    ensures match ClientReads(old(r.Rest()), token, rules)
            case Failed(e) => result == Err(e)
            case Parsed(_, n) =>
              && result == Ok(()) && r.Rest() == old(r.Rest())[n..]
              && w.bytes == old(w.bytes) + Frame(TokenPayload(token))
  {
    ghost var s := r.Rest();
    result := ReadStatusResponse(r, rules);
    if result.Ok? {
      SendPingPacket(w, token);
      result := ReadPongPacket(r, token);
      if result.Ok? {
        ghost var k := StatusReads(s, rules).consumed;
        assert s[k..][PongReads(s[k..], token).consumed..] == s[k + PongReads(s[k..], token).consumed..];
      }
    }
  }

  /** The client's probe over one connection: r is what the peer sends, w what goes to it. A
      probe that succeeds has sent exactly its three packets, read exactly the two frames it
      needs, and reports at least one millisecond. */
  method PingJava(r: Reader, w: Buffer, host: seq<byte>, port: int, token: uint64, rules: TextRules,
                  sentAt: int, receivedAt: int)
    returns (latency: Outcome<int, WireError>)
    requires r.Valid()
    modifies r, w
    ensures latency.Ok? <==> && 0 <= port <= 65535 && |host| <= 255
                             && ClientReads(old(r.Rest()), token, rules).Parsed?
    ensures latency.Ok? ==>
              && r.Valid()
              && r.Rest() == old(r.Rest())[ClientReads(old(r.Rest()), token, rules).consumed..]
              && w.bytes == old(w.bytes) + ClientSends(HandshakePayload(host, port), token)
              && latency.value >= 1_000_000 && latency.value >= receivedAt - sentAt
              && (latency.value == 1_000_000 || latency.value == receivedAt - sentAt)
  {
    ghost var before := w.bytes;
    var sent := SendHandshakePacket(w, host, port);
    if sent.Err? {
      return Err(sent.error);
    }
    sent := ClientWritePacket(w, REQUEST_PAYLOAD);
    var exchanged := ExchangeToken(r, w, token, rules);
    if exchanged.Err? {
      return Err(exchanged.error);
    }
    ThreeWrites(before, Frame(HandshakePayload(host, port)), Frame(REQUEST_PAYLOAD), Frame(TokenPayload(token)));
    return Ok(if receivedAt - sentAt > MILLISECOND then receivedAt - sentAt else MILLISECOND);
  }

  // ----- the staging server's code

  ghost function HandshakeReads(s: seq<byte>, rules: TextRules): (r: Parse<Handshake>)
    ensures r.Parsed? ==> r.consumed <= |s|
  {
    match DecodePacket(s, MAX_PACKET_LENGTH)
    case Failed(e) => Failed(e)
    case Parsed(p, n) =>
      match ParseHandshake(p, rules)
      case Err(e) => Failed(e)
      case Ok(h) => Parsed(h, n)
  }

  ghost function RequestReads(s: seq<byte>): (r: Parse<()>)
    ensures r.Parsed? ==> r.consumed <= |s|
  {
    match DecodePacket(s, MAX_PACKET_LENGTH)
    case Failed(e) => Failed(e)
    case Parsed(p, n) =>
      match CheckRequest(p)
      case Err(e) => Failed(e)
      case Ok(_) => Parsed((), n)
  }

  ghost function PingReads(s: seq<byte>): (r: Parse<uint64>)
    ensures r.Parsed? ==> r.consumed <= |s|
  {
    match DecodePacket(s, MAX_PACKET_LENGTH)
    case Failed(e) => Failed(e)
    case Parsed(p, n) =>
      match ParseToken(p)
      case Err(e) => Failed(e)
      case Ok(token) => Parsed(token, n)
  }

  method ReadHandshake(r: Reader, rules: TextRules) returns (result: Outcome<(), WireError>)
    requires r.Valid()
    modifies r
    ensures r.Valid()
    ensures match HandshakeReads(old(r.Rest()), rules)
            case Failed(e) => result == Err(e)
            case Parsed(_, n) => result == Ok(()) && r.Rest() == old(r.Rest())[n..]
  {
    var packet := ReadPacket(r, MAX_PACKET_LENGTH);
    if packet.Err? {
      return Err(packet.error);
    }
    result := CheckHandshake(packet.value, rules);
  }

  /** The running `consumed` offset over one handshake payload. */
  method CheckHandshake(handshake: seq<byte>, rules: TextRules) returns (result: Outcome<(), WireError>)
    ensures match ParseHandshake(handshake, rules)
            case Ok(_) => result == Ok(())
            case Err(e) => result == Err(e)
  {
    var front := CheckHandshakeFront(handshake, rules);
    if front.Err? {
      return Err(front.error);
    }
    var consumed := front.value;
    ghost var tail := handshake[consumed..];
    if |handshake[consumed..]| < 2 {
      return Err(MissingPort);
    }
    consumed := consumed + 2;
    assert handshake[consumed..] == tail[2..];
    var state := StagingReadVarIntFromBytes(handshake[consumed..]);
    match state {
      case TooLong => return Err(VarIntTooLong);
      case Truncated => return Err(EndOfStream);
      case Value(nextState, stateBytes) =>
        consumed := consumed + stateBytes;
        if nextState != NEXT_STATE_STATUS {
          return Err(UnexpectedNextState(nextState));
        }
        if consumed != |handshake| {
          return Err(TrailingBytes);
        }
    }
    return Ok(());
  }

  method CheckHandshakeFront(handshake: seq<byte>, rules: TextRules) returns (result: Outcome<nat, WireError>)
    ensures match HandshakeFront(handshake, rules)
            case Ok(front) => result.Ok? && result.value <= |handshake| && handshake[result.value..] == front.2
            case Err(e) => result == Err(e)
  {
    var consumed: nat := 0;
    var id := StagingReadVarIntFromBytes(handshake);
    match id {
      case TooLong => return Err(VarIntTooLong);
      case Truncated => return Err(EndOfStream);
      case Value(packetID, n) =>
        consumed := n;
        if packetID != HANDSHAKE_ID {
          return Err(UnexpectedId(packetID));
        }
    }
    ghost var body := handshake[consumed..];
    var protocol := StagingReadVarIntFromBytes(handshake[consumed..]);
    match protocol {
      case TooLong => return Err(VarIntTooLong);
      case Truncated => return Err(EndOfStream);
      case Value(_, protocolBytes) => consumed := consumed + protocolBytes;
    }
    assert handshake[consumed..] == body[protocol.consumed..];
    var host := StagingReadStringFromBytes(handshake[consumed..], MAX_HOST_BYTES, rules);
    if host.Failed? {
      return Err(host.error);
    }
    consumed := consumed + host.consumed;
    assert handshake[consumed..] == body[protocol.consumed + host.consumed..];
    return Ok(consumed);
  }

  method ReadRequest(r: Reader) returns (result: Outcome<(), WireError>)
    requires r.Valid()
    modifies r
    ensures r.Valid()
    ensures match RequestReads(old(r.Rest()))
            case Failed(e) => result == Err(e)
            case Parsed(_, n) => result == Ok(()) && r.Rest() == old(r.Rest())[n..]
  {
    var packet := ReadPacket(r, MAX_PACKET_LENGTH);
    if packet.Err? {
      return Err(packet.error);
    }
    var id := StagingReadVarIntFromBytes(packet.value);
    match id {
      case TooLong => return Err(VarIntTooLong);
      case Truncated => return Err(EndOfStream);
      case Value(requestID, requestBytes) =>
        if requestID != STATUS_ID {
          return Err(UnexpectedId(requestID));
        }
        if requestBytes != |packet.value| {
          return Err(BadPayloadSize);
        }
        return Ok(());
    }
  }

  method ExpectPingToken(r: Reader) returns (result: Outcome<uint64, WireError>)
    requires r.Valid()
    modifies r
    ensures r.Valid()
    ensures match PingReads(old(r.Rest()))
            case Failed(e) => result == Err(e)
            case Parsed(token, n) => result == Ok(token) && r.Rest() == old(r.Rest())[n..]
  {
    var packet := ReadPacket(r, MAX_PACKET_LENGTH);
    if packet.Err? {
      return Err(packet.error);
    }
    var payload := packet.value;
    var id := StagingReadVarIntFromBytes(payload);
    match id {
      case TooLong => return Err(VarIntTooLong);
      case Truncated => return Err(EndOfStream);
      case Value(packetID, consumed) =>
        if packetID != PING_ID {
          return Err(UnexpectedId(packetID));
        }
        if |payload[consumed..]| != 8 {
          return Err(BadPayloadSize);
        }
        WordWidths();
        BigEndianBound(payload[consumed..]);
        return Ok(BigEndian(payload[consumed..]));
    }
  }

  method SendStatusJSON(w: Buffer, json: seq<byte>, rules: TextRules) returns (result: Outcome<(), WireError>)
    modifies w
    ensures result.Ok? <==> rules.utf8(json) && |json| <= 0x10_0000
    ensures result.Ok? ==> w.bytes == old(w.bytes) + Frame(StatusPayload(json))
    ensures result.Err? ==> w.bytes == old(w.bytes)
  {
    var status := new Buffer();
    StagingWriteVarInt(status, STATUS_ID);
    result := StagingWriteString(status, json, MAX_STATUS_JSON_LENGTH, rules);
    if result.Ok? {
      assert status.bytes == StatusPayload(json);
      result := StagingWritePacket(w, status.bytes);
    }
  }

  method SendPong(w: Buffer, token: uint64)
    modifies w
    ensures w.bytes == old(w.bytes) + Frame(TokenPayload(token))
  {
    var payload := new Buffer();
    StagingWriteVarInt(payload, PING_ID);
    payload.Write(PutBigEndian(token, 8));
    var _ := StagingWritePacket(w, payload.bytes);
  }

  /** The two packets that open a connection: handshake, then status request. */
  ghost function OpeningReads(s: seq<byte>, rules: TextRules): (r: Parse<()>)
    ensures r.Parsed? ==> r.consumed <= |s|
  {
    match HandshakeReads(s, rules)
    case Failed(e) => Failed(e)
    case Parsed(_, a) =>
      match RequestReads(s[a..])
      case Failed(e) => Failed(e)
      case Parsed(_, b) => Parsed((), a + b)
  }

  /** All the server reads: the opening, then the ping. */
  ghost function ServerReads(s: seq<byte>, rules: TextRules): (r: Parse<uint64>)
    ensures r.Parsed? ==> r.consumed <= |s|
  {
    match OpeningReads(s, rules)
    case Failed(e) => Failed(e)
    case Parsed(_, a) =>
      match PingReads(s[a..])
      case Failed(e) => Failed(e)
      case Parsed(token, c) => Parsed(token, a + c)
  }

  // ----- what the server accepts, on the bytes

  /** b is an id of zero, a protocol version, a length, that many bytes of UTF-8 host, two bytes
      of port and a next state of one, cut at i, j, k and l; each number is in any accepted
      encoding. */
  ghost predicate HandshakeBodyAt(b: seq<byte>, i: nat, j: nat, k: nat, l: nat, h: Handshake, rules: TextRules) {
    && i <= j <= k <= l <= |b| - 2
    && IsEncoding(b[..i], 0)
    && IsEncoding(b[i..j], h.protocol)
    && l - k <= 255 && IsEncoding(b[j..k], l - k)
    && b[k..l] == h.host && rules.utf8(h.host)
    && b[l..l + 2] == PutUint16(h.port)
    && IsEncoding(b[l + 2..], 1) && h.nextState == 1
  }

  ghost predicate IsHandshakeBody(b: seq<byte>, h: Handshake, rules: TextRules) {
    exists i: nat, j: nat, k: nat, l: nat :: HandshakeBodyAt(b, i, j, k, l, h, rules)
  }

  lemma HandshakeTailExact(p: seq<byte>, port: uint16, state: int32)
    ensures HandshakeTail(p) == Ok((port, state))
       <==> |p| >= 2 && p[..2] == PutUint16(port) && state == NEXT_STATE_STATUS && IsEncoding(p[2..], state)
  {
    if |p| >= 2 {
      assert p[2..][..|p| - 2] == p[2..];
      DecodeExact(p[2..], NEXT_STATE_STATUS, |p| - 2);
      Uint16RoundTrip(port);
      Uint16Bytes(p[..2]);
    }
  }

  lemma StringSplits(p: seq<byte>, j: nat, host: seq<byte>, n: nat, rules: TextRules)
    requires j <= |p| && DecodeString(p[j..], MAX_HOST_BYTES, rules) == Parsed(host, n)
    ensures |host| <= n <= |p| - j && |host| <= MAX_HOST_BYTES && rules.utf8(host)
    ensures IsEncoding(p[j..j + n - |host|], |host|) && p[j + n - |host|..j + n] == host
  {
    StringExact(p[j..], host, n, MAX_HOST_BYTES, rules);
    SliceOfSlice(p, j, j + n - |host|, j + n);
  }

  lemma VersionSplits(p: seq<byte>, protocol: int32, host: seq<byte>, tail: seq<byte>, rules: TextRules)
    returns (j: nat, l: nat)
    requires HandshakeVersion(p, rules) == Ok((protocol, host, tail))
    ensures j <= l <= |p| && |host| <= l - j && |host| <= MAX_HOST_BYTES && rules.utf8(host) && tail == p[l..]
    ensures IsEncoding(p[..j], protocol) && IsEncoding(p[j..l - |host|], |host|) && p[l - |host|..l] == host
  {
    j := Decode(p).consumed;
    DecodeExact(p, protocol, j);
    var n := DecodeString(p[j..], MAX_HOST_BYTES, rules).consumed;
    StringSplits(p, j, host, n, rules);
    l := j + n;
  }

  lemma FrontSplits(b: seq<byte>, protocol: int32, host: seq<byte>, tail: seq<byte>, rules: TextRules)
    returns (i: nat, j: nat, k: nat, l: nat)
    requires HandshakeFront(b, rules) == Ok((protocol, host, tail))
    ensures FrontAt(b, i, j, k, l, protocol, host, rules) && tail == b[l..]
  {
    i := Decode(b).consumed;
    DecodeExact(b, HANDSHAKE_ID, i);
    var j', l' := VersionSplits(b[i..], protocol, host, tail, rules);
    j, k, l := i + j', i + l' - |host|, i + l';
    SliceOfSlice(b, i, j, k);
    SliceOfSlice(b, i, k, l);
    SliceOfSlice(b, i, l, |b|);
  }

  lemma AcceptedIsHandshakeBody(b: seq<byte>, h: Handshake, rules: TextRules)
    requires ParseHandshake(b, rules) == Ok(h)
    ensures IsHandshakeBody(b, h, rules)
  {
    var tail := HandshakeFront(b, rules).value.2;
    var i, j, k, l := FrontSplits(b, h.protocol, h.host, tail, rules);
    HandshakeTailExact(tail, h.port, h.nextState);
    SliceOfSlice(b, l, l + 2, |b|);
    assert HandshakeBodyAt(b, i, j, k, l, h, rules);
  }

  lemma HandshakeBodyIsAccepted(b: seq<byte>, i: nat, j: nat, k: nat, l: nat, h: Handshake, rules: TextRules)
    requires HandshakeBodyAt(b, i, j, k, l, h, rules)
    ensures ParseHandshake(b, rules) == Ok(h)
  {
    FrontParses(b, i, j, k, l, h.protocol, h.host, rules);
    SliceOfSlice(b, l, l + 2, |b|);
    HandshakeTailExact(b[l..], h.port, h.nextState);
  }

  /** The server's handshake parse accepts exactly such bodies, and reads out what they hold. */
  lemma HandshakeExact(b: seq<byte>, h: Handshake, rules: TextRules)
    ensures ParseHandshake(b, rules) == Ok(h) <==> IsHandshakeBody(b, h, rules)
  {
    if ParseHandshake(b, rules) == Ok(h) {
      AcceptedIsHandshakeBody(b, h, rules);
    }
    if i: nat, j: nat, k: nat, l: nat :| HandshakeBodyAt(b, i, j, k, l, h, rules) {
      HandshakeBodyIsAccepted(b, i, j, k, l, h, rules);
    }
  }

  /** A status request is an id of zero and nothing else. */
  lemma CheckRequestExact(b: seq<byte>)
    ensures CheckRequest(b) == Ok(()) <==> IsEncoding(b, 0)
  {
    assert b[..|b|] == b;
    DecodeExact(b, STATUS_ID, |b|);
  }

  ghost predicate IsHandshakeFrame(f: seq<byte>, h: Handshake, rules: TextRules) {
    exists p :: IsFrame(f, p, 0x20_0000) && IsHandshakeBody(p, h, rules)
  }

  ghost predicate IsRequestFrame(f: seq<byte>) {
    exists p :: IsFrame(f, p, 0x20_0000) && IsEncoding(p, 0)
  }

  lemma HandshakeReadsExact(s: seq<byte>, h: Handshake, n: nat, rules: TextRules)
    ensures HandshakeReads(s, rules) == Parsed(h, n) <==> n <= |s| && IsHandshakeFrame(s[..n], h, rules)
  {
    if HandshakeReads(s, rules) == Parsed(h, n) {
      var p := DecodePacket(s, MAX_PACKET_LENGTH).value;
      PacketExact(s, p, n, MAX_PACKET_LENGTH);
      HandshakeExact(p, h, rules);
    }
    if n <= |s| && IsHandshakeFrame(s[..n], h, rules) {
      var p :| IsFrame(s[..n], p, MAX_PACKET_LENGTH) && IsHandshakeBody(p, h, rules);
      PacketExact(s, p, n, MAX_PACKET_LENGTH);
      HandshakeExact(p, h, rules);
    }
  }

  lemma RequestReadsExact(s: seq<byte>, n: nat)
    ensures RequestReads(s) == Parsed((), n) <==> n <= |s| && IsRequestFrame(s[..n])
  {
    if RequestReads(s) == Parsed((), n) {
      var p := DecodePacket(s, MAX_PACKET_LENGTH).value;
      PacketExact(s, p, n, MAX_PACKET_LENGTH);
      CheckRequestExact(p);
    }
    if n <= |s| && IsRequestFrame(s[..n]) {
      var p :| IsFrame(s[..n], p, MAX_PACKET_LENGTH) && IsEncoding(p, STATUS_ID);
      PacketExact(s, p, n, MAX_PACKET_LENGTH);
      CheckRequestExact(p);
    }
  }

  /** The first a bytes are a handshake frame and the next n - a a request frame. */
  ghost predicate OpeningAt(s: seq<byte>, a: nat, n: nat, h: Handshake, rules: TextRules) {
    a <= n <= |s| && IsHandshakeFrame(s[..a], h, rules) && IsRequestFrame(s[a..n])
  }

  /** The first n bytes open a connection: one handshake frame and one request frame. */
  ghost predicate IsOpening(s: seq<byte>, n: nat, rules: TextRules) {
    exists a: nat, h :: OpeningAt(s, a, n, h, rules)
  }

  lemma OpeningComposes(s: seq<byte>, a: nat, b: nat, h: Handshake, rules: TextRules)
    requires HandshakeReads(s, rules) == Parsed(h, a) && RequestReads(s[a..]) == Parsed((), b)
    ensures OpeningReads(s, rules) == Parsed((), a + b)
  {
  }

  lemma HandshakeFrameReads(s: seq<byte>, a: nat, h: Handshake, rules: TextRules)
    requires a <= |s| && IsHandshakeFrame(s[..a], h, rules)
    ensures HandshakeReads(s, rules) == Parsed(h, a)
  {
    HandshakeReadsExact(s, h, a, rules);
  }

  lemma RequestFrameReads(s: seq<byte>, a: nat, n: nat)
    requires a <= n <= |s| && IsRequestFrame(s[a..n])
    ensures RequestReads(s[a..]) == Parsed((), n - a)
  {
    assert s[a..][..n - a] == s[a..n];
    RequestReadsExact(s[a..], n - a);
  }

  lemma OpeningIsAccepted(s: seq<byte>, a: nat, n: nat, h: Handshake, rules: TextRules)
    requires OpeningAt(s, a, n, h, rules)
    ensures OpeningReads(s, rules) == Parsed((), n)
  {
    HandshakeFrameReads(s, a, h, rules);
    RequestFrameReads(s, a, n);
    OpeningComposes(s, a, n - a, h, rules);
  }

  lemma AcceptedIsOpening(s: seq<byte>, n: nat, rules: TextRules) returns (a: nat, h: Handshake)
    requires OpeningReads(s, rules) == Parsed((), n)
    ensures OpeningAt(s, a, n, h, rules)
  {
    a, h := HandshakeReads(s, rules).consumed, HandshakeReads(s, rules).value;
    HandshakeReadsExact(s, h, a, rules);
    ReadsRequestFrame(s, a, n);
  }

  lemma ReadsRequestFrame(s: seq<byte>, a: nat, n: nat)
    requires a <= n && a <= |s| && RequestReads(s[a..]) == Parsed((), n - a)
    ensures n <= |s| && IsRequestFrame(s[a..n])
  {
    RequestReadsExact(s[a..], n - a);
    SliceOfSlice(s, a, n, n);
  }

  /** Against any peer whatever, the server accepts the opening, consuming n bytes, iff the first
      n bytes are one handshake frame and one request frame. */
  lemma OpeningAcceptsExactly(s: seq<byte>, n: nat, rules: TextRules)
    ensures OpeningReads(s, rules) == Parsed((), n) <==> IsOpening(s, n, rules)
  {
    if OpeningReads(s, rules) == Parsed((), n) {
      var _, _ := AcceptedIsOpening(s, n, rules);
    }
    if a: nat, h :| OpeningAt(s, a, n, h, rules) {
      OpeningIsAccepted(s, a, n, h, rules);
    }
  }

  /** The opening, then the eight bytes of the token behind an id of one. */
  ghost predicate VisitAt(s: seq<byte>, a: nat, b: nat, n: nat, h: Handshake, token: uint64, rules: TextRules) {
    OpeningAt(s, a, b, h, rules) && b <= n <= |s| && IsTokenFrame(s[b..n], token)
  }

  /** The first n bytes are a whole connection's worth from a peer that sends this token. */
  ghost predicate IsVisit(s: seq<byte>, n: nat, token: uint64, rules: TextRules) {
    exists a: nat, b: nat, h :: VisitAt(s, a, b, n, h, token, rules)
  }

  lemma ServerComposes(s: seq<byte>, b: nat, n: nat, token: uint64, rules: TextRules)
    requires OpeningReads(s, rules) == Parsed((), b) && b <= n && PingReads(s[b..]) == Parsed(token, n - b)
    ensures ServerReads(s, rules) == Parsed(token, n)
  {
  }

  lemma VisitIsAccepted(s: seq<byte>, a: nat, b: nat, n: nat, h: Handshake, token: uint64, rules: TextRules)
    requires VisitAt(s, a, b, n, h, token, rules)
    ensures ServerReads(s, rules) == Parsed(token, n)
  {
    OpeningIsAccepted(s, a, b, h, rules);
    PongFrameReads(s, b, n, token);
    ServerComposes(s, b, n, token, rules);
  }

  lemma AcceptedIsVisit(s: seq<byte>, n: nat, token: uint64, rules: TextRules)
    returns (a: nat, b: nat, h: Handshake)
    requires ServerReads(s, rules) == Parsed(token, n)
    ensures VisitAt(s, a, b, n, h, token, rules)
  {
    b := OpeningReads(s, rules).consumed;
    a, h := AcceptedIsOpening(s, b, rules);
    PongFrameReads(s, b, n, token);
  }

  /** The same for a whole connection: handshake, request and ping, and nothing else. */
  lemma ServerAcceptsExactly(s: seq<byte>, n: nat, token: uint64, rules: TextRules)
    ensures ServerReads(s, rules) == Parsed(token, n) <==> IsVisit(s, n, token, rules)
  {
    if ServerReads(s, rules) == Parsed(token, n) {
      var _, _, _ := AcceptedIsVisit(s, n, token, rules);
    }
    if a: nat, b: nat, h :| VisitAt(s, a, b, n, h, token, rules) {
      VisitIsAccepted(s, a, b, n, h, token, rules);
    }
  }

  method ExpectStatusHandshake(r: Reader, rules: TextRules) returns (result: Outcome<(), WireError>)
    requires r.Valid()
    modifies r
    ensures r.Valid()
    ensures match OpeningReads(old(r.Rest()), rules)
            case Failed(e) => result == Err(e)
            case Parsed(_, n) => result == Ok(()) && r.Rest() == old(r.Rest())[n..]
  {
    ghost var s := r.Rest();
    result := ReadHandshake(r, rules);
    if result.Ok? {
      ghost var a := HandshakeReads(s, rules).consumed;
      result := ReadRequest(r);
      if result.Ok? {
        SliceOfSlice(s, a, a + RequestReads(s[a..]).consumed, |s|);
      }
    }
  }

  /** Serving one connection: success means a whole visit was read and nothing more, and exactly
      the status and the pong for the token that was read were sent. */
  method HandleConn(r: Reader, w: Buffer, json: seq<byte>, rules: TextRules) returns (result: Outcome<(), WireError>)
    requires r.Valid()
    modifies r, w
    ensures result.Ok? <==> && rules.utf8(json) && |json| <= 0x10_0000
                            && ServerReads(old(r.Rest()), rules).Parsed?
    ensures result.Ok? ==>
              var parse := ServerReads(old(r.Rest()), rules);
              && r.Valid() && r.Rest() == old(r.Rest())[parse.consumed..]
              && w.bytes == old(w.bytes) + Frame(StatusPayload(json)) + Frame(TokenPayload(parse.value))
  {
    ghost var s := r.Rest();
    result := ExpectStatusHandshake(r, rules);
    if result.Err? {
      return;
    }
    ghost var a := OpeningReads(s, rules).consumed;
    result := SendStatusJSON(w, json, rules);
    if result.Err? {
      return;
    }
    var ping := ExpectPingToken(r);
    if ping.Err? {
      return Err(ping.error);
    }
    SliceOfSlice(s, a, a + PingReads(s[a..]).consumed, |s|);
    SendPong(w, ping.value);
    return Ok(());
  }

  // ----- the two sides against each other

  lemma SentAsFrames(f: seq<byte>, rest: seq<byte>)
    ensures (f + rest)[|f|..] == rest
  {
  }

  /** All the client sends is what the server reads: it ends with the client's token and leaves
      nothing over. */
  lemma ServerUnderstandsClient(host: seq<byte>, port: uint16, token: uint64, rules: TextRules)
    requires |host| <= MAX_HOST_BYTES && rules.utf8(host)
    ensures var sent := ClientSends(HandshakePayload(host, port), token);
            ServerReads(sent, rules) == Parsed(token, |sent|)
  {
    var f, g, h := Frame(HandshakePayload(host, port)), Frame(REQUEST_PAYLOAD), Frame(TokenPayload(token));
    assert f + g + h == f + (g + h);
    FrameDecodes(HandshakePayload(host, port), g + h, MAX_PACKET_LENGTH);
    HandshakeRoundTrip(host, port, rules);
    SentAsFrames(f, g + h);
    FrameDecodes(REQUEST_PAYLOAD, h, MAX_PACKET_LENGTH);
    RequestAccepted();
    SentAsFrames(f + g, h);
    FrameDecodes(TokenPayload(token), [], MAX_PACKET_LENGTH);
    assert h + [] == h;
    TokenRoundTrip(token);
  }

  /** All the server sends is what the client reads, for the client's own token and no other. */
  lemma ClientUnderstandsServer(json: seq<byte>, token: uint64, expected: uint64, rules: TextRules)
    requires |json| <= MAX_STATUS_JSON_LENGTH && rules.utf8(json) && rules.jsonObject(json)
    ensures var sent := Frame(StatusPayload(json)) + Frame(TokenPayload(token));
            ClientReads(sent, expected, rules)
              == if token == expected then Parsed((), |sent|) else Failed(TokenMismatch)
  {
    var f, g := Frame(StatusPayload(json)), Frame(TokenPayload(token));
    FrameDecodes(StatusPayload(json), g, MAX_PACKET_LENGTH);
    StatusAccepted(json, rules);
    SentAsFrames(f, g);
    FrameDecodes(TokenPayload(token), [], MAX_PACKET_LENGTH);
    assert g + [] == g;
    TokenRoundTrip(token);
  }
}
