/**
 The RakNet unconnected ping and pong of the Bedrock edition, as the client and the staging
 server build and read them.
 */
module BedrockCodec {
  import opened Results
  import opened Bytes
  import opened Text
  import Framing

  const PING_ID: byte := 0x01
  const PONG_ID: byte := 0x1c
  const SERVER_GUID: uint64 := 1
  const MIN_FIELDS: nat := 6
  const MAX_STATUS_LENGTH: nat := 65535
  const SEMICOLON: byte := 59

  const MAGIC: seq<byte> := [
    0x00, 0xff, 0xff, 0x00, 0xfe, 0xfe, 0xfe, 0xfe, 0xfd, 0xfd, 0xfd, 0xfd, 0x12, 0x34, 0x56, 0x78]

  /** The bytes of MCPE. */
  const BRAND: seq<byte> := [77, 67, 80, 69]

  datatype Status = Status(
    brand: seq<byte>, motd: seq<byte>, protocol: int, version: seq<byte>, online: int, max: int,
    serverID: seq<byte>, mapName: seq<byte>, gameMode: seq<byte>)

  datatype BedrockError =
    | BadLength | BadPacketId | TimeMismatch | MagicMismatch | NotUtf8 | TooFewFields | BadBrand | BadNumber
    | EmptyStatus | StatusTooLong | BadPrefix

  // ----- layouts

  function PingBytes(pingTime: uint64, guid: uint64): seq<byte> {
    [PING_ID] + PutBigEndian(pingTime, 8) + MAGIC + PutBigEndian(guid, 8)
  }

  function PongBytes(pingTime: uint64, guid: seq<byte>, length: uint16, status: seq<byte>): seq<byte> {
    [PONG_ID] + PutBigEndian(pingTime, 8) + guid + MAGIC + PutUint16(length) + status
  }

  function Uint64(s: seq<byte>): uint64
    requires |s| == 8
  {
    WordWidths();
    BigEndianBound(s);
    BigEndian(s)
  }

  // ----- status text

  /** strings.Split on semicolons. */
  function Split(s: seq<byte>): (fields: seq<seq<byte>>)
    ensures fields != []
  {
    if s == [] then [[]]
    else
      var rest := Split(s[1..]);
      if s[0] == SEMICOLON then [[]] + rest else [[s[0]] + rest[0]] + rest[1..]
  }

  function Join(fields: seq<seq<byte>>): seq<byte>
    requires fields != []
  {
    if |fields| == 1 then fields[0] else fields[0] + [SEMICOLON] + Join(fields[1..])
  }

  /** Splitting cuts at the semicolons and nowhere else. */
  lemma {:induction false} SplitExact(s: seq<byte>)
    ensures Join(Split(s)) == s
    ensures forall f | f in Split(s) :: 59 !in f
  {
    if s != [] {
      var rest := Split(s[1..]);
      SplitExact(s[1..]);
      assert s == [s[0]] + s[1..];
      if s[0] == SEMICOLON {
        assert ([[]] + rest)[1..] == rest;
      } else {
        var fields := [[s[0]] + rest[0]] + rest[1..];
        assert fields[1..] == rest[1..];
        assert rest[0] in rest;
      }
    }
  }

  /** So the fields of a joined text are the fields that were joined. */
  lemma {:induction false} SplitJoin(fields: seq<seq<byte>>)
    requires fields != [] && forall f | f in fields :: SEMICOLON !in f
    ensures Split(Join(fields)) == fields
  {
    assert fields[0] in fields;
    if |fields| == 1 {
      SplitWord(fields[0]);
    } else {
      SplitJoin(fields[1..]);
      SplitHead(fields[0], Join(fields[1..]));
      assert fields == [fields[0]] + fields[1..];
    }
  }

  lemma {:induction false} SplitWord(s: seq<byte>)
    requires SEMICOLON !in s
    ensures Split(s) == [s]
  {
    if s != [] {
      SplitWord(s[1..]);
      assert s == [s[0]] + s[1..];
    }
  }

  lemma {:induction false} SplitHead(s: seq<byte>, t: seq<byte>)
    requires SEMICOLON !in s
    ensures Split(s + [SEMICOLON] + t) == [s] + Split(t)
  {
    var all := s + [SEMICOLON] + t;
    if s == [] {
      assert all[1..] == t;
    } else {
      SplitHead(s[1..], t);
      assert all[1..] == s[1..] + [SEMICOLON] + t;
      assert s == [s[0]] + s[1..];
    }
  }

  function AsText(s: seq<byte>): string {
    seq(|s|, k requires 0 <= k < |s| => s[k] as char)
  }

  function ParseStatusText(text: seq<byte>): Outcome<Status, BedrockError> {
    var fields := Split(text);
    if |fields| < MIN_FIELDS then Err(TooFewFields)
    else if fields[0] != BRAND then Err(BadBrand)
    else
      var protocol, online, max := Atoi(AsText(fields[2])), Atoi(AsText(fields[4])), Atoi(AsText(fields[5]));
      if protocol.None? || online.None? || max.None? then Err(BadNumber)
      else Ok(Status(fields[0], fields[1], protocol.value, fields[3], online.value, max.value,
                     if |fields| > 6 then fields[6] else [],
                     if |fields| > 7 then fields[7] else [],
                     if |fields| > 8 then fields[8] else []))
  }

  /** A field that is a decimal integer within 64 bits, and its value. */
  ghost predicate IsNumber(field: seq<byte>, n: int) {
    IsDecimal(AsText(field), n) && FitsInt64(n)
  }

  /** The text cut up at its semicolons. */
  ghost predicate FieldsOf(text: seq<byte>, fields: seq<seq<byte>>) {
    fields != [] && Join(fields) == text && forall f | f in fields :: 59 !in f
  }

  /** Which fields make up which part of a status: at least six, the brand first, three numbers
      among them; the last three parts are optional, and more fields are ignored. */
  ghost predicate Describes(fields: seq<seq<byte>>, st: Status) {
    && |fields| >= 6
    && fields[0] == st.brand == [77, 67, 80, 69] && fields[1] == st.motd && fields[3] == st.version
    && IsNumber(fields[2], st.protocol) && IsNumber(fields[4], st.online) && IsNumber(fields[5], st.max)
    && st.serverID == (if |fields| > 6 then fields[6] else [])
    && st.mapName == (if |fields| > 7 then fields[7] else [])
    && st.gameMode == (if |fields| > 8 then fields[8] else [])
  }

  /** Splitting is the one way to cut a text up at its semicolons. */
  lemma SplitIsFieldsOf(text: seq<byte>, fields: seq<seq<byte>>)
    ensures FieldsOf(text, fields) <==> fields == Split(text)
  {
    SplitExact(text);
    if FieldsOf(text, fields) {
      SplitJoin(fields);
    }
  }

  lemma NumbersExact(fields: seq<seq<byte>>, st: Status)
    requires |fields| >= MIN_FIELDS
    ensures Atoi(AsText(fields[2])) == Some(st.protocol) <==> IsNumber(fields[2], st.protocol)
    ensures Atoi(AsText(fields[4])) == Some(st.online) <==> IsNumber(fields[4], st.online)
    ensures Atoi(AsText(fields[5])) == Some(st.max) <==> IsNumber(fields[5], st.max)
  {
    AtoiExact(AsText(fields[2]), st.protocol);
    AtoiExact(AsText(fields[4]), st.online);
    AtoiExact(AsText(fields[5]), st.max);
  }

  /** A text is read as a status exactly when its fields describe that status. */
  lemma StatusTextExact(text: seq<byte>, st: Status)
    ensures ParseStatusText(text) == Ok(st) <==> exists fields :: FieldsOf(text, fields) && Describes(fields, st)
  {
    SplitIsFieldsOf(text, Split(text));
    if |Split(text)| >= MIN_FIELDS {
      NumbersExact(Split(text), st);
    }
    if fields :| FieldsOf(text, fields) && Describes(fields, st) {
      SplitIsFieldsOf(text, fields);
    }
  }

  ghost predicate IsInteger(field: seq<byte>) {
    exists n :: IsNumber(field, n)
  }

  /** At least six fields, with integers within 64 bits as third, fifth and sixth. */
  ghost predicate NumbersAmong(fields: seq<seq<byte>>) {
    |fields| >= 6 && IsInteger(fields[2]) && IsInteger(fields[4]) && IsInteger(fields[5])
  }

  /** What the client asks of a text beyond its brand: five semicolons, and the numbers in their
      places between them. */
  ghost predicate NumbersReadable(text: seq<byte>) {
    Semicolons(text) >= 5 && exists fields :: FieldsOf(text, fields) && NumbersAmong(fields)
  }

  lemma IntegerExact(field: seq<byte>)
    ensures Atoi(AsText(field)).Some? <==> IsInteger(field)
  {
    if Atoi(AsText(field)).Some? {
      AtoiExact(AsText(field), Atoi(AsText(field)).value);
      assert IsNumber(field, Atoi(AsText(field)).value);
    }
    if n :| IsNumber(field, n) {
      AtoiExact(AsText(field), n);
    }
  }

  lemma ReadableExact(text: seq<byte>)
    ensures NumbersReadable(text) <==> NumbersAmong(Split(text))
  {
    SplitIsFieldsOf(text, Split(text));
    FieldCount(text);
    if fields :| FieldsOf(text, fields) && NumbersAmong(fields) {
      SplitIsFieldsOf(text, fields);
    }
  }

  /** A text parses exactly when the brand is its first field and the numbers can be read. */
  lemma ParsesExactly(text: seq<byte>)
    ensures ParseStatusText(text).Ok? <==> Split(text)[0] == BRAND && NumbersReadable(text)
  {
    var fields := Split(text);
    ReadableExact(text);
    if |fields| >= MIN_FIELDS {
      IntegerExact(fields[2]);
      IntegerExact(fields[4]);
      IntegerExact(fields[5]);
    }
  }

  predicate Ascii(s: string) {
    forall c | c in s :: c < '\U{80}'
  }

  function AsciiByte(s: string, k: nat): byte
    requires Ascii(s) && k < |s|
  {
    assert s[k] in s;
    s[k] as int
  }

  function AsBytes(s: string): (r: seq<byte>)
    requires Ascii(s)
    ensures |r| == |s| && AsText(r) == s
  {
    seq<byte>(|s|, k requires 0 <= k < |s| => AsciiByte(s, k))
  }

  /** An integer as it appears in a field. */
  function NumberBytes(n: int): seq<byte> {
    FormatIntAscii(n);
    AsBytes(FormatInt(n))
  }

  lemma FormatIntAscii(n: int)
    ensures Ascii(FormatInt(n)) && ';' !in FormatInt(n)
  {
    var digits := Itoa(if n < 0 then -n else n);
    forall c | c in FormatInt(n)
      ensures c < '\U{80}' && c != ';'
    {
      assert c == '-' || c in digits;
    }
  }

  /** The fields of a status line, in their places on the wire. */
  function StatusFields(st: Status): seq<seq<byte>> {
    Line(st, NumberBytes(st.protocol), NumberBytes(st.online), NumberBytes(st.max))
  }

  function Line(st: Status, protocol: seq<byte>, online: seq<byte>, max: seq<byte>): (fields: seq<seq<byte>>)
    ensures |fields| == 9
  {
    [st.brand, st.motd, protocol, st.version, online, max, st.serverID, st.mapName, st.gameMode]
  }

  predicate Printable(st: Status) {
    && st.brand == BRAND
    && FitsInt64(st.protocol) && FitsInt64(st.online) && FitsInt64(st.max)
    && SEMICOLON !in st.motd && SEMICOLON !in st.version
    && SEMICOLON !in st.serverID && SEMICOLON !in st.mapName && SEMICOLON !in st.gameMode
  }

  lemma NumberField(n: int)
    requires FitsInt64(n)
    ensures SEMICOLON !in NumberBytes(n) && IsNumber(NumberBytes(n), n)
  {
    FormatIntAscii(n);
    AtoiOfFormatInt(n);
    AtoiExact(FormatInt(n), n);
    forall k | 0 <= k < |NumberBytes(n)|
      ensures NumberBytes(n)[k] != SEMICOLON
    {
      assert FormatInt(n)[k] in FormatInt(n);
    }
  }

  lemma LineIsCut(st: Status, protocol: seq<byte>, online: seq<byte>, max: seq<byte>)
    requires Printable(st) && SEMICOLON !in protocol && SEMICOLON !in online && SEMICOLON !in max
    ensures forall f | f in Line(st, protocol, online, max) :: SEMICOLON !in f
  {
    assert SEMICOLON !in BRAND;
  }

  lemma LineDescribes(st: Status, protocol: seq<byte>, online: seq<byte>, max: seq<byte>)
    requires st.brand == BRAND && IsNumber(protocol, st.protocol) && IsNumber(online, st.online) && IsNumber(max, st.max)
    ensures Describes(Line(st, protocol, online, max), st)
  {
  }

  lemma PrintedFields(st: Status)
    requires Printable(st)
    ensures forall f | f in StatusFields(st) :: SEMICOLON !in f
    ensures Describes(StatusFields(st), st)
  {
    NumberField(st.protocol);
    NumberField(st.online);
    NumberField(st.max);
    LineIsCut(st, NumberBytes(st.protocol), NumberBytes(st.online), NumberBytes(st.max));
    LineDescribes(st, NumberBytes(st.protocol), NumberBytes(st.online), NumberBytes(st.max));
  }

  lemma MoreFieldsDescribe(fields: seq<seq<byte>>, extra: seq<seq<byte>>, st: Status)
    requires |fields| == 9 && Describes(fields, st)
    ensures Describes(fields + extra, st)
  {
  }

  /** A status printed field by field, with any further fields after it, reads back as itself. */
  lemma StatusTextRoundTrip(st: Status, extra: seq<seq<byte>>)
    requires Printable(st) && forall f | f in extra :: SEMICOLON !in f
    ensures ParseStatusText(Join(StatusFields(st) + extra)) == Ok(st)
  {
    var fields := StatusFields(st);
    PrintedFields(st);
    MoreFieldsDescribe(fields, extra, st);
    assert FieldsOf(Join(fields + extra), fields + extra);
    StatusTextExact(Join(fields + extra), st);
  }

  function ValidateStatus(status: seq<byte>, rules: Framing.TextRules): Outcome<(), BedrockError> {
    if status == [] then Err(EmptyStatus)
    else if !rules.utf8(status) then Err(NotUtf8)
    else if |status| > MAX_STATUS_LENGTH then Err(StatusTooLong)
    else if !(BRAND + [SEMICOLON] <= status) then Err(BadPrefix)
    else Ok(())
  }

  /** A status the server sends: UTF-8 within 16 bits of length that starts with MCPE and a
      semicolon. */
  lemma ValidStatusExact(status: seq<byte>, rules: Framing.TextRules)
    ensures ValidateStatus(status, rules).Ok?
       <==> rules.utf8(status) && |status| <= 65535 && [77, 67, 80, 69, 59] <= status
  {
    assert BRAND + [SEMICOLON] == [77, 67, 80, 69, 59];
  }

  // ----- the client

  method PutUint64(scratch: array<byte>, v: uint64)
    requires scratch.Length == 8
    modifies scratch
    ensures scratch[..] == PutBigEndian(v, 8)
  {
    var bytes := PutBigEndian(v, 8);
    forall i | 0 <= i < 8 {
      scratch[i] := bytes[i];
    }
  }

  /** The request for a clock reading in milliseconds; a reading outside 64 bits wraps. */
  method BuildStatusRequest(unixMillis: int, guid: uint64) returns (payload: seq<byte>, pingTime: uint64)
    ensures pingTime == unixMillis % TWO_64
    ensures payload == PingBytes(pingTime, guid) && |payload| == 33
  {
    pingTime := unixMillis % TWO_64;
    payload := [PING_ID];
    var scratch := new byte[8];
    PutUint64(scratch, pingTime);
    payload := payload + scratch[..];
    payload := payload + MAGIC;
    PutUint64(scratch, guid);
    payload := payload + scratch[..];
  }

  function ParseStatusResponse(p: seq<byte>, expected: uint64, rules: Framing.TextRules): Outcome<Status, BedrockError> {
    if |p| < 35 then Err(BadLength)
    else if p[0] != PONG_ID then Err(BadPacketId)
    else if Uint64(p[1..9]) != expected then Err(TimeMismatch)
    else if p[17..33] != MAGIC then Err(MagicMismatch)
    else if |p| != 35 + Uint16(p[33..35]) then Err(BadLength)
    else if !rules.utf8(p[35..]) then Err(NotUtf8)
    else ParseStatusText(p[35..])
  }

  // ----- the staging server

  function ParseUnconnectedPing(p: seq<byte>): Outcome<uint64, BedrockError> {
    if |p| != 33 then Err(BadLength)
    else if p[0] != PING_ID then Err(BadPacketId)
    else if p[9..25] != MAGIC then Err(MagicMismatch)
    else Ok(Uint64(p[1..9]))
  }

  method EncodeUnconnectedPong(pingTime: uint64, status: seq<byte>, rules: Framing.TextRules)
    returns (r: Outcome<seq<byte>, BedrockError>)
    ensures match ValidateStatus(status, rules)
            case Err(e) => r == Err(e)
            case Ok(_) => r == Ok(PongBytes(pingTime, PutBigEndian(SERVER_GUID, 8), |status|, status))
  {
    var valid := ValidateStatus(status, rules);
    if valid.Err? {
      return Err(valid.error);
    }
    var payload: seq<byte> := [PONG_ID];
    var scratch := new byte[8];
    PutUint64(scratch, pingTime);
    payload := payload + scratch[..];
    PutUint64(scratch, SERVER_GUID);
    payload := payload + scratch[..];
    payload := payload + MAGIC;
    payload := payload + PutUint16(|status|);
    payload := payload + status;
    return Ok(payload);
  }

  /** The server's answer to one datagram. */
  method BuildStatusResponse(request: seq<byte>, status: seq<byte>, rules: Framing.TextRules)
    returns (r: Outcome<seq<byte>, BedrockError>)
    ensures r.Ok? <==> ParseUnconnectedPing(request).Ok? && ValidateStatus(status, rules).Ok?
    ensures r.Ok? ==>
              var pingTime := ParseUnconnectedPing(request).value;
              r.value == PongBytes(pingTime, PutBigEndian(SERVER_GUID, 8), |status|, status)
  {
    var ping := ParseUnconnectedPing(request);
    if ping.Err? {
      return Err(ping.error);
    }
    r := EncodeUnconnectedPong(ping.value, status, rules);
  }

  function ParsePong(p: seq<byte>, expected: uint64, rules: Framing.TextRules): Outcome<(), BedrockError> {
    if |p| < 35 then Err(BadLength)
    else if p[0] != PONG_ID then Err(BadPacketId)
    else if Uint64(p[1..9]) != expected then Err(TimeMismatch)
    else if p[17..33] != MAGIC then Err(MagicMismatch)
    else if |p| != 35 + Uint16(p[33..35]) then Err(BadLength)
    else ValidateStatus(p[35..], rules)
  }

  // ----- agreement

  lemma PingLayout(pingTime: uint64, guid: uint64)
    ensures var p := PingBytes(pingTime, guid);
            |p| == 33 && p[0] == PING_ID && p[1..9] == PutBigEndian(pingTime, 8) && p[9..25] == MAGIC
  {
  }

  /** Every request the client builds is understood by the server, with its time. */
  lemma RequestUnderstood(pingTime: uint64, guid: uint64)
    ensures ParseUnconnectedPing(PingBytes(pingTime, guid)) == Ok(pingTime)
  {
    PingLayout(pingTime, guid);
    Uint64RoundTrip(pingTime);
  }

  lemma PongLayout(pingTime: uint64, guid: seq<byte>, length: uint16, status: seq<byte>)
    requires |guid| == 8
    ensures var p := PongBytes(pingTime, guid, length, status);
            && |p| == 35 + |status| && p[0] == PONG_ID && p[1..9] == PutBigEndian(pingTime, 8)
            && p[17..33] == MAGIC && p[33..35] == PutUint16(length) && p[35..] == status
  {
  }

  /** For every status the server would send, the client reads out of the pong exactly what the
      status text says, and refuses the pong for any other ping time. */
  lemma PongUnderstood(pingTime: uint64, status: seq<byte>, expected: uint64, rules: Framing.TextRules)
    requires ValidateStatus(status, rules).Ok?
    ensures var p := PongBytes(pingTime, PutBigEndian(SERVER_GUID, 8), |status|, status);
            ParseStatusResponse(p, expected, rules)
              == if expected == pingTime then ParseStatusText(status) else Err(TimeMismatch)
  {
    PongLayout(pingTime, PutBigEndian(SERVER_GUID, 8), |status|, status);
    Uint64RoundTrip(pingTime);
    Uint16RoundTrip(|status|);
  }

  /** RakNet's offline message id. */
  predicate IsMagic(s: seq<byte>) {
    s == [0x00, 0xff, 0xff, 0x00, 0xfe, 0xfe, 0xfe, 0xfe, 0xfd, 0xfd, 0xfd, 0xfd, 0x12, 0x34, 0x56, 0x78]
  }

  /** A pong for a ping time, with any server id, around some status text: the id, the time, the
      server id, the magic, the length with its high byte first, and the text. */
  predicate PongAround(p: seq<byte>, pingTime: uint64, status: seq<byte>) {
    && 35 <= |p| <= 35 + 65535 && status == p[35..]
    && p[0] == 0x1c && p[1..9] == PutBigEndian(pingTime, 8) && IsMagic(p[17..33])
    && p[33] == |status| / 256 && p[34] == |status| % 256
  }

  /** The server's pong is such a datagram, with its own id. */
  lemma PongIsAround(pingTime: uint64, status: seq<byte>)
    requires |status| <= 65535
    ensures var p := PongBytes(pingTime, PutBigEndian(SERVER_GUID, 8), |status|, status);
            PongAround(p, pingTime, status) && p[9..17] == [0, 0, 0, 0, 0, 0, 0, 1]
  {
    var p := PongBytes(pingTime, PutBigEndian(SERVER_GUID, 8), |status|, status);
    PongLayout(pingTime, PutBigEndian(SERVER_GUID, 8), |status|, status);
    assert p[33..35][0] == p[33] && p[33..35][1] == p[34];
    OneInEightBytes();
    assert p[9..17] == PutBigEndian(SERVER_GUID, 8);
  }

  lemma OneInEightBytes()
    ensures PutBigEndian(1, 8) == [0, 0, 0, 0, 0, 0, 0, 1]
  {
    assert PutBigEndian(0, 3) == [0, 0, 0];
    assert PutBigEndian(0, 6) == [0, 0, 0, 0, 0, 0];
    assert PutBigEndian(0, 7) == [0, 0, 0, 0, 0, 0, 0];
  }

  /** A ping: the id, the time, the magic and any client id. */
  predicate IsPing(p: seq<byte>, pingTime: uint64) {
    |p| == 33 && p[0] == 0x01 && p[1..9] == PutBigEndian(pingTime, 8) && IsMagic(p[9..25])
  }

  /** The server answers exactly such datagrams, and the client's requests are among them. */
  lemma PingAcceptsExactly(p: seq<byte>, pingTime: uint64)
    ensures ParseUnconnectedPing(p) == Ok(pingTime) <==> IsPing(p, pingTime)
  {
    Uint64RoundTrip(pingTime);
  }

  lemma RequestIsPing(pingTime: uint64, guid: uint64)
    ensures IsPing(PingBytes(pingTime, guid), pingTime) && PingBytes(pingTime, guid)[25..] == PutBigEndian(guid, 8)
  {
    PingLayout(pingTime, guid);
  }

  lemma LayoutExact(p: seq<byte>, expected: uint64)
    requires 35 <= |p|
    ensures PongAround(p, expected, p[35..])
       <==> && p[0] == PONG_ID && Uint64(p[1..9]) == expected && p[17..33] == MAGIC
            && |p| == 35 + Uint16(p[33..35])
  {
    Uint64RoundTrip(expected);
    assert p[33..35][0] == p[33] && p[33..35][1] == p[34];
  }

  /** The staging server's own probe accepts exactly the pongs for its ping time around a status
      the server may send. */
  lemma ProbeAcceptsExactly(p: seq<byte>, expected: uint64, rules: Framing.TextRules)
    ensures ParsePong(p, expected, rules).Ok?
       <==> exists text :: PongAround(p, expected, text) && rules.utf8(text) && [77, 67, 80, 69, 59] <= text
  {
    if |p| >= 35 {
      LayoutExact(p, expected);
      ValidStatusExact(p[35..], rules);
    }
  }

  /** The client accepts exactly the datagrams laid out as a pong for its ping time around UTF-8
      text whose fields describe the status it then reports. */
  lemma ClientAcceptsExactly(p: seq<byte>, expected: uint64, st: Status, rules: Framing.TextRules)
    ensures ParseStatusResponse(p, expected, rules) == Ok(st)
       <==> exists text, fields :: && PongAround(p, expected, text) && rules.utf8(text)
                                   && FieldsOf(text, fields) && Describes(fields, st)
  {
    if |p| >= 35 {
      LayoutExact(p, expected);
      StatusTextExact(p[35..], st);
    }
  }

  /** A text whose first of several fields is the brand starts with brand and semicolon. */
  lemma BrandFirst(s: seq<byte>)
    requires |Split(s)| >= 2 && Split(s)[0] == BRAND
    ensures BRAND + [SEMICOLON] <= s
  {
    SplitExact(s);
    var rest := Join(Split(s)[1..]);
    assert s == (BRAND + [SEMICOLON]) + rest;
  }

  /** Whatever the client accepts, the staging server's own probe accepts too. */
  lemma ClientAcceptanceIsStricter(p: seq<byte>, expected: uint64, rules: Framing.TextRules)
    requires ParseStatusResponse(p, expected, rules).Ok?
    ensures ParsePong(p, expected, rules).Ok?
  {
    BrandFirst(p[35..]);
  }

  lemma {:induction false} FirstField(word: seq<byte>, s: seq<byte>)
    requires SEMICOLON !in word
    ensures word + [SEMICOLON] <= s ==> Split(s)[0] == word
  {
    if word + [SEMICOLON] <= s {
      var rest := s[|word| + 1..];
      assert s == word + [SEMICOLON] + rest;
      SplitHead(word, rest);
    }
  }

  /** When a datagram the server's probe accepts is accepted by the client as well: exactly when
      its status text has the fields and numbers the client reads. */
  lemma AcceptanceGap(p: seq<byte>, expected: uint64, rules: Framing.TextRules)
    ensures ParseStatusResponse(p, expected, rules).Ok?
       <==> ParsePong(p, expected, rules).Ok? && NumbersReadable(p[35..])
  {
    if |p| >= 35 {
      var text := p[35..];
      ParsesExactly(text);
      FieldCount(text);
      FirstField(BRAND, text);
      if ParseStatusText(text).Ok? {
        BrandFirst(text);
      }
    }
  }

  /** The gap is not empty: a brand alone satisfies the server. */
  lemma ServerAcceptanceIsLooser(pingTime: uint64, rules: Framing.TextRules)
    requires rules.utf8(BRAND + [SEMICOLON])
    ensures var p := PongBytes(pingTime, PutBigEndian(SERVER_GUID, 8), 5, BRAND + [SEMICOLON]);
            ParsePong(p, pingTime, rules).Ok? && ParseStatusResponse(p, pingTime, rules) == Err(TooFewFields)
  {
    var status := BRAND + [SEMICOLON];
    PongLayout(pingTime, PutBigEndian(SERVER_GUID, 8), 5, status);
    Uint64RoundTrip(pingTime);
    Uint16RoundTrip(5);
    BrandHasNoSemicolon();
    FieldCount(status);
  }

  function Semicolons(s: seq<byte>): nat {
    if s == [] then 0 else (if s[0] == SEMICOLON then 1 else 0) + Semicolons(s[1..])
  }

  lemma BrandHasNoSemicolon()
    ensures Semicolons(BRAND + [SEMICOLON]) == 1
  {
    var s := BRAND + [SEMICOLON];
    assert s[1..][1..] == s[2..] && s[2..][1..] == s[3..] && s[3..][1..] == s[4..] && s[4..][1..] == [];
    assert Semicolons(s[4..]) == 1 + Semicolons([]);
    assert Semicolons(s[2..]) == Semicolons(s[3..]) == Semicolons(s[4..]);
  }

  lemma {:induction false} FieldCount(s: seq<byte>)
    ensures |Split(s)| == 1 + Semicolons(s)
  {
    if s != [] {
      FieldCount(s[1..]);
    }
  }

  /** A datagram that is as long as its length field says. */
  predicate WellFramed(p: seq<byte>) {
    |p| >= 35 && |p| == 35 + Uint16(p[33..35])
  }

  /** A well-framed pong that does not fit the read buffer is never accepted cut short. */
  lemma TruncatedPongRefused(p: seq<byte>, expected: uint64, rules: Framing.TextRules)
    requires WellFramed(p) && |p| > 2048
    ensures ParseStatusResponse(p[..2048], expected, rules).Err?
    ensures ParsePong(p[..2048], expected, rules).Err?
  {
    assert p[..2048][33..35] == p[33..35];
  }
}
