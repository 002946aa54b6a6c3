/**
 Length-prefixed packets and strings of the Java protocol, as both sides read and write them.
 */
module Framing {
  import opened Results
  import opened Bytes
  import opened Streams
  import opened VarInt
  import opened VarIntCodec

  const MAX_PACKET_LENGTH: nat := 2 * 1024 * 1024
  const MAX_STATUS_JSON_LENGTH: nat := 1024 * 1024
  const MAX_HOST_BYTES: nat := 255
  const MAX_INT32: nat := 0x7FFF_FFFF

  datatype WireError =
    | VarIntTooLong | EndOfStream | EmptyPayload
    | BadLength(length: int) | ExceedsLimit(length: int)
    | NotUtf8 | UnexpectedId(id: int) | BadFraming | NotJsonObject
    | BadPayloadSize | TokenMismatch | PortOutOfRange | MissingPort
    | UnexpectedNextState(state: int) | TrailingBytes

  /** A value read off the front of some bytes, and how many bytes it took. */
  datatype Parse<+T> = Parsed(value: T, consumed: nat) | Failed(error: WireError)

  /** Library predicates the codecs consult without looking inside. */
  datatype TextRules = TextRules(utf8: seq<byte> -> bool, jsonObject: seq<byte> -> bool)

  // ----- packets

  function Frame(payload: seq<byte>): seq<byte>
    requires |payload| <= MAX_INT32
  {
    Encode(|payload|) + payload
  }

  /** f is one frame around p: a length in any accepted encoding, then p itself. */
  ghost predicate IsFrame(f: seq<byte>, p: seq<byte>, maxLength: nat) {
    && 1 <= |p| <= maxLength && |p| <= MAX_INT32
    && |p| <= |f|
    && f[|f| - |p|..] == p
    && IsEncoding(f[..|f| - |p|], |p|)
  }

  ghost function DecodePacket(s: seq<byte>, maxLength: nat): (r: Parse<seq<byte>>)
    ensures r.Parsed? ==> 1 <= |r.value| < r.consumed <= |s|
  {
    match Decode(s)
    case TooLong => Failed(VarIntTooLong)
    case Truncated => Failed(EndOfStream)
    case Value(length, n) =>
      if length <= 0 then Failed(BadLength(length))
      else if length > maxLength then Failed(ExceedsLimit(length))
      else if n + length > |s| then Failed(EndOfStream)
      else Parsed(s[n..n + length], n + length)
  }

  /** Reading a packet succeeds exactly when the stream starts with a frame within the limit. */
  lemma PacketExact(s: seq<byte>, p: seq<byte>, n: nat, maxLength: nat)
    ensures DecodePacket(s, maxLength) == Parsed(p, n) <==> n <= |s| && IsFrame(s[..n], p, maxLength)
  {
    if DecodePacket(s, maxLength) == Parsed(p, n) {
      var reading := Decode(s);
      DecodeExact(s, reading.value, reading.consumed);
      assert s[..n][..n - |p|] == s[..reading.consumed];
      assert s[..n][n - |p|..] == p;
    }
    if n <= |s| && IsFrame(s[..n], p, maxLength) {
      var h := n - |p|;
      assert s[..n][..h] == s[..h];
      DecodeExact(s, |p|, h);
      assert s[h..n] == s[..n][h..];
    }
  }

  lemma FrameIsFrame(p: seq<byte>, maxLength: nat)
    requires 1 <= |p| <= maxLength && |p| <= MAX_INT32
    ensures IsFrame(Frame(p), p, maxLength)
  {
    EncodeIsEncoding(|p|);
    assert Frame(p)[..|Frame(p)| - |p|] == Encode(|p|);
  }

  lemma FrameDecodes(p: seq<byte>, rest: seq<byte>, maxLength: nat)
    requires 1 <= |p| <= maxLength && |p| <= MAX_INT32
    ensures DecodePacket(Frame(p) + rest, maxLength) == Parsed(p, |Frame(p)|)
  {
    FrameIsFrame(p, maxLength);
    assert (Frame(p) + rest)[..|Frame(p)|] == Frame(p);
    PacketExact(Frame(p) + rest, p, |Frame(p)|, maxLength);
  }

  method ClientWritePacket(w: Buffer, payload: seq<byte>) returns (r: Outcome<(), WireError>)
    modifies w
    ensures payload == [] ==> r == Err(EmptyPayload)
    ensures |payload| > 0x20_0000 ==> r == Err(ExceedsLimit(|payload|))
    ensures 1 <= |payload| <= 0x20_0000 ==> r == Ok(()) && w.bytes == old(w.bytes) + Frame(payload)
    ensures r.Err? ==> w.bytes == old(w.bytes)
  {
    if |payload| == 0 {
      return Err(EmptyPayload);
    }
    if |payload| > MAX_PACKET_LENGTH {
      return Err(ExceedsLimit(|payload|));
    }
    var packet := new Buffer();
    ClientWriteVarInt(packet, |payload|);
    packet.Write(payload);
    w.Write(packet.bytes);
    return Ok(());
  }

  /** The staging server's writer, over its own VarInt writer. */
  method StagingWritePacket(w: Buffer, payload: seq<byte>) returns (r: Outcome<(), WireError>)
    modifies w
    ensures payload == [] ==> r == Err(EmptyPayload)
    ensures |payload| > 0x20_0000 ==> r == Err(ExceedsLimit(|payload|))
    ensures 1 <= |payload| <= 0x20_0000 ==> r == Ok(()) && w.bytes == old(w.bytes) + Frame(payload)
    ensures r.Err? ==> w.bytes == old(w.bytes)
  {
    if |payload| == 0 {
      return Err(EmptyPayload);
    }
    if |payload| > MAX_PACKET_LENGTH {
      return Err(ExceedsLimit(|payload|));
    }
    var packet := new Buffer();
    StagingWriteVarInt(packet, |payload|);
    packet.Write(payload);
    w.Write(packet.bytes);
    return Ok(());
  }

  /** What the stream holds after a packet read: exactly the frame is gone on success. */
  ghost predicate PacketRead(before: seq<byte>, after: seq<byte>, r: Outcome<seq<byte>, WireError>, maxLength: nat) {
    match DecodePacket(before, maxLength)
    case Parsed(p, n) => r == Ok(p) && after == before[n..]
    case Failed(e) => r == Err(e)
  }

  method ReadPacket(r: Reader, maxLength: nat) returns (packet: Outcome<seq<byte>, WireError>)
    requires r.Valid()
    modifies r
    ensures r.Valid()
    ensures PacketRead(old(r.Rest()), r.Rest(), packet, maxLength)
  {
    ghost var s := r.Rest();
    var length := ReadVarInt(r);
    match length {
      case TooLong => return Err(VarIntTooLong);
      case Truncated => return Err(EndOfStream);
      case Value(_, _) =>
    }
    var packetLength := length.value;
    if packetLength <= 0 {
      return Err(BadLength(packetLength));
    }
    if packetLength > maxLength {
      return Err(ExceedsLimit(packetLength));
    }
    var bytes := r.ReadFull(packetLength);
    if bytes.None? {
      return Err(EndOfStream);
    }
    ghost var n := length.consumed;
    assert s[n..][..packetLength] == s[n..n + packetLength];
    assert s[n..][packetLength..] == s[n + packetLength..];
    return Ok(bytes.value);
  }

  // ----- packet streams

  function Frames(ps: seq<seq<byte>>): seq<byte>
    requires forall p | p in ps :: |p| <= MAX_INT32
  {
    if ps == [] then [] else Frame(ps[0]) + Frames(ps[1..])
  }

  /** Reads count packets in a row; the second component is what is left unread. */
  ghost function DecodePackets(s: seq<byte>, count: nat, maxLength: nat): Option<(seq<seq<byte>>, seq<byte>)> {
    if count == 0 then Some(([], s))
    else
      match DecodePacket(s, maxLength)
      case Failed(_) => None
      case Parsed(p, n) =>
        match DecodePackets(s[n..], count - 1, maxLength)
        case None => None
        case Some(more) => Some(([p] + more.0, more.1))
  }

  lemma DecodePacketsStep(p: seq<byte>, tail: seq<byte>, count: nat)
    requires 1 <= |p| <= MAX_PACKET_LENGTH
    requires DecodePackets(tail, count, MAX_PACKET_LENGTH).Some?
    ensures var more := DecodePackets(tail, count, MAX_PACKET_LENGTH).value;
            DecodePackets(Frame(p) + tail, count + 1, MAX_PACKET_LENGTH) == Some(([p] + more.0, more.1))
  {
    FrameDecodes(p, tail, MAX_PACKET_LENGTH);
    assert (Frame(p) + tail)[|Frame(p)|..] == tail;
  }

  /** Any sequence of packets written back to back is read back as that sequence. */
  lemma {:induction false} PacketStreamRoundTrip(ps: seq<seq<byte>>, rest: seq<byte>)
    requires forall p | p in ps :: 1 <= |p| <= 0x20_0000
    ensures DecodePackets(Frames(ps) + rest, |ps|, 0x20_0000) == Some((ps, rest))
  {
    if ps == [] {
      assert Frames(ps) + rest == rest;
    } else {
      var head, more := ps[0], ps[1..];
      PacketStreamRoundTrip(more, rest);
      DecodePacketsStep(head, Frames(more) + rest, |more|);
      assert Frames(ps) + rest == Frame(head) + (Frames(more) + rest);
      assert ps == [head] + more;
    }
  }

  // ----- strings

  ghost function DecodeString(s: seq<byte>, maxBytes: nat, rules: TextRules): (r: Parse<seq<byte>>)
    ensures r.Parsed? ==> r.consumed <= |s|
  {
    match Decode(s)
    case TooLong => Failed(VarIntTooLong)
    case Truncated => Failed(EndOfStream)
    case Value(size, n) =>
      if size < 0 then Failed(BadLength(size))
      else if size > maxBytes then Failed(ExceedsLimit(size))
      else if n + size > |s| then Failed(EndOfStream)
      else if !rules.utf8(s[n..n + size]) then Failed(NotUtf8)
      else Parsed(s[n..n + size], n + size)
  }

  /** A string is read exactly where a length in any encoding precedes that many UTF-8 bytes. */
  lemma StringExact(s: seq<byte>, t: seq<byte>, n: nat, maxBytes: nat, rules: TextRules)
    requires |t| <= MAX_INT32
    ensures DecodeString(s, maxBytes, rules) == Parsed(t, n)
       <==> && |t| <= n <= |s| && s[n - |t|..n] == t
            && IsEncoding(s[..n - |t|], |t|) && |t| <= maxBytes && rules.utf8(t)
  {
    if DecodeString(s, maxBytes, rules) == Parsed(t, n) {
      DecodeExact(s, Decode(s).value, Decode(s).consumed);
    }
    if |t| <= n <= |s| && IsEncoding(s[..n - |t|], |t|) {
      DecodeExact(s, |t|, n - |t|);
    }
  }

  lemma StringDecodes(l: seq<byte>, t: seq<byte>, rest: seq<byte>, maxBytes: nat, rules: TextRules)
    requires |t| <= maxBytes && |t| <= MAX_INT32 && rules.utf8(t) && IsEncoding(l, |t|)
    ensures DecodeString(l + t + rest, maxBytes, rules) == Parsed(t, |l + t|)
  {
    var s, h := l + t + rest, |l|;
    assert s[..h] == l && s[h..h + |t|] == t;
    StringExact(s, t, h + |t|, maxBytes, rules);
  }

  /** The client's string reader, over its stream-based VarInt reader. */
  method ClientReadStringFromBytes(data: seq<byte>, maxBytes: nat, rules: TextRules) returns (r: Parse<seq<byte>>)
    ensures r == DecodeString(data, maxBytes, rules)
  {
    var reading := ClientReadVarIntFromBytes(data);
    match reading {
      case TooLong => return Failed(VarIntTooLong);
      case Truncated => return Failed(EndOfStream);
      case Value(size, consumed) =>
        if size < 0 {
          return Failed(BadLength(size));
        }
        if size > maxBytes {
          return Failed(ExceedsLimit(size));
        }
        var total := consumed + size;
        if total > |data| {
          return Failed(EndOfStream);
        }
        var raw := data[consumed..total];
        if !rules.utf8(raw) {
          return Failed(NotUtf8);
        }
        return Parsed(raw, total);
    }
  }

  /** The staging server's string reader, over its indexed VarInt reader. */
  method StagingReadStringFromBytes(payload: seq<byte>, maxBytes: nat, rules: TextRules) returns (r: Parse<seq<byte>>)
    ensures r == DecodeString(payload, maxBytes, rules)
  {
    var reading := StagingReadVarIntFromBytes(payload);
    match reading {
      case TooLong => return Failed(VarIntTooLong);
      case Truncated => return Failed(EndOfStream);
      case Value(stringLength, consumed) =>
        if stringLength < 0 {
          return Failed(BadLength(stringLength));
        }
        if stringLength > maxBytes {
          return Failed(ExceedsLimit(stringLength));
        }
        var end := consumed + stringLength;
        if end > |payload| {
          return Failed(EndOfStream);
        }
        if !rules.utf8(payload[consumed..end]) {
          return Failed(NotUtf8);
        }
        return Parsed(payload[consumed..end], end);
    }
  }

  /** The client's string writer checks the length and never the encoding. */
  method ClientWriteString(buf: Buffer, value: seq<byte>, maxBytes: nat) returns (r: Outcome<(), WireError>)
    modifies buf
    ensures r.Ok? <==> |value| <= maxBytes && |value| <= MAX_INT32
    ensures r.Ok? ==> buf.bytes == old(buf.bytes) + Encode(|value|) + value
    ensures r.Err? ==> r.error == ExceedsLimit(|value|) && buf.bytes == old(buf.bytes)
  {
    if |value| > maxBytes || |value| > MAX_INT32 {
      return Err(ExceedsLimit(|value|));
    }
    ClientWriteVarInt(buf, |value|);
    buf.Write(value);
    return Ok(());
  }

  /** The staging server's string writer checks the encoding first, then the length. It writes
      the length as a 32-bit number, which under every limit the server uses is the length. */
  method StagingWriteString(w: Buffer, value: seq<byte>, maxBytes: nat, rules: TextRules) returns (r: Outcome<(), WireError>)
    modifies w
    ensures r.Ok? <==> rules.utf8(value) && |value| <= maxBytes
    ensures r.Ok? ==> w.bytes == old(w.bytes) + Encode(|value| % TWO_32) + value
    ensures r.Err? ==> w.bytes == old(w.bytes)
    ensures r.Err? ==> r.error == if rules.utf8(value) then ExceedsLimit(|value|) else NotUtf8
  {
    if !rules.utf8(value) {
      return Err(NotUtf8);
    }
    if |value| > maxBytes {
      return Err(ExceedsLimit(|value|));
    }
    StagingWriteVarInt(w, Signed(|value| % TWO_32));
    w.Write(value);
    return Ok(());
  }
}
