/**
 Destinations as typed on the command line: a host name, an IP literal with or without
 brackets, or either with a port. isIP stands for the address parser of the library.
 */
module Destination {
  import opened Results
  import opened Text

  const MAX_SERVER_ADDRESS_LENGTH: nat := 253
  const DEFAULT_JAVA_PORT: int := 25565
  const DEFAULT_BEDROCK_PORT: int := 19132
  const DEFAULT_BEDROCK_PORT_V6: int := 19133

  datatype Edition = Java | Bedrock

  datatype Target = Target(host: string, port: int, portExplicit: bool)

  /** Accepted text with a colon has at least two of them, and no accepted text starts with a
      bracket or with white space. */
  ghost predicate AddressSyntax(isIP: string -> bool) {
    forall s: string | isIP(s) :: s != "" && s[0] != '[' && !IsSpace(s[0]) && (':' in s ==> Count(s, ':') >= 2)
  }

  // ----- hosts

  function UnbracketIPv6Literal(host: string, isIP: string -> bool): Option<string> {
    if |host| < 2 || host[0] != '[' || host[|host| - 1] != ']' then None
    else if isIP(host[1..|host| - 1]) then Some(host[1..|host| - 1])
    else None
  }

  function NormalizeHost(host: string, isIP: string -> bool): string {
    match UnbracketIPv6Literal(Trim(host), isIP)
    case Some(literal) => literal
    case None => Trim(host)
  }

  predicate IsControl(c: char) {
    c <= '\U{1F}' || c == '\U{7F}'
  }

  predicate ValidServerAddress(server: string, isIP: string -> bool) {
    && ByteLength(server) <= MAX_SERVER_ADDRESS_LENGTH
    && '[' !in server && ']' !in server
    && (forall c | c in server :: !IsControl(c))
    && (':' in server ==> isIP(server))
  }

  predicate ValidTarget(t: Target, isIP: string -> bool) {
    && Trim(t.host) != ""
    && ValidServerAddress(t.host, isIP)
    && (t.portExplicit ==> 1 <= t.port <= 65535)
  }

  // ----- printing

  function JoinHostPort(host: string, port: string): string {
    if ':' in host then "[" + host + "]:" + port else host + ":" + port
  }

  function ToString(t: Target): string {
    if t.portExplicit then
      JoinHostPort(t.host, FormatInt(t.port))
    else t.host
  }

  // ----- parsing

  /** The standard library's split of host:port or [host]:port. */
  function SplitHostPort(s: string): Option<(string, string)> {
    var i := LastIndex(s, ':');
    if i == |s| then None
    else if s[0] == '[' then
      var end := Index(s, ']');
      if end == |s| || end + 1 != i then None
      else if '[' in s[1..] || ']' in s[end + 1..] then None
      else Some((s[1..end], s[i + 1..]))
    else
      var host := s[..i];
      if ':' in host || '[' in s || ']' in s then None
      else Some((host, s[i + 1..]))
  }

  function NewTarget(host: string, port: int, explicit: bool, isIP: string -> bool): Target {
    Target(NormalizeHost(host, isIP), port, explicit)
  }

  function ParseDestination(text: string, isIP: string -> bool): Option<Target> {
    var raw := Trim(text);
    if raw == "" then None
    else
      match UnbracketIPv6Literal(raw, isIP)
      case Some(literal) => Some(NewTarget(literal, 0, false, isIP))
      case None =>
        if isIP(raw) then Some(NewTarget(raw, 0, false, isIP))
        else ParseHostPort(raw, isIP)
  }

  function ParseHostPort(raw: string, isIP: string -> bool): Option<Target>
    requires raw != ""
  {
    var split := if raw[0] == '[' || Count(raw, ':') == 1 then SplitHostPort(raw) else None;
    match split
    case Some((host, portText)) =>
      (match Atoi(portText)
       case None => None
       case Some(port) => Some(NewTarget(host, port, true, isIP)))
    case None =>
      if Count(raw, ':') > 1 then None else Some(NewTarget(raw, 0, false, isIP))
  }

  // ----- round trip

  lemma NormalizePlain(host: string, isIP: string -> bool)
    requires Trimmed(host) && host != "" && '[' !in host
    ensures NormalizeHost(host, isIP) == host
  {
    TrimExact(host);
    assert host[0] in host;
  }

  /** None of the characters that structure a destination. */
  predicate IsPlain(s: string) {
    ':' !in s && '[' !in s && ']' !in s
  }

  lemma BracketedIndices(host: string, port: string)
    requires '[' !in host && ']' !in host && IsPlain(port)
    ensures var s := "[" + host + "]:" + port;
            && Index(s, ']') == |host| + 1 && LastIndex(s, ':') == |host| + 2
            && '[' !in s[1..] && ']' !in s[|host| + 2..]
  {
    var s := "[" + host + "]:" + port;
    var close := |host| + 1;
    assert s[0] == '[' && s[close] == ']' && s[close + 1] == ':';
    assert forall k | 1 <= k < close :: s[k] == host[k - 1] && host[k - 1] in host;
    assert forall k | close + 1 < k < |s| :: s[k] == port[k - close - 2] && port[k - close - 2] in port;
  }

  lemma SplitBracketed(host: string, port: string)
    requires '[' !in host && ']' !in host && IsPlain(port)
    ensures SplitHostPort("[" + host + "]:" + port) == Some((host, port))
  {
    var s := "[" + host + "]:" + port;
    BracketedIndices(host, port);
    assert s[1..|host| + 1] == host && s[|host| + 3..] == port;
  }

  lemma SplitPlain(host: string, port: string)
    requires IsPlain(host) && IsPlain(port)
    ensures SplitHostPort(host + ":" + port) == Some((host, port))
  {
    var s := host + ":" + port;
    assert s[|host|] == ':' && (host != "" ==> s[0] == host[0] && host[0] in host);
    assert forall k | |host| < k < |s| :: s[k] == port[k - |host| - 1] && port[k - |host| - 1] in port;
    assert LastIndex(s, ':') == |host|;
    assert s[..|host|] == host && s[|host| + 1..] == port;
  }

  /** A text that ends in a port cannot be a bracketed literal, nor white-space padded. */
  lemma EndsInPort(front: string, port: string)
    requires front != "" && !IsSpace(front[0]) && port != "" && AllDigits(port)
    ensures var text := front + port;
            Trim(text) == text && text[0] == front[0] && text[|text| - 1] != ']'
  {
    var text := front + port;
    assert text[|text| - 1] == port[|port| - 1] && port[|port| - 1] in port;
    TrimExact(text);
  }

  lemma HostPortParses(text: string, host: string, portText: string, port: int, isIP: string -> bool)
    requires text != "" && Trim(text) == text && text[|text| - 1] != ']' && !isIP(text)
    requires text[0] == '[' || Count(text, ':') == 1
    requires SplitHostPort(text) == Some((host, portText)) && Atoi(portText) == Some(port)
    ensures ParseDestination(text, isIP) == Some(NewTarget(host, port, true, isIP))
  {
  }

  /** A bracketed form with a port gives back its inner text normalised. */
  lemma BracketedParses(t: Target, isIP: string -> bool)
    requires AddressSyntax(isIP) && ValidTarget(t, isIP) && t.portExplicit && ':' in t.host
    ensures ParseDestination(ToString(t), isIP) == Some(Target(NormalizeHost(t.host, isIP), t.port, true))
  {
    var port := Itoa(t.port);
    AtoiOfItoa(t.port);
    EndsInPort("[" + t.host + "]:", port);
    SplitBracketed(t.host, port);
    HostPortParses("[" + t.host + "]:" + port, t.host, port, t.port, isIP);
  }

  lemma PlainParses(t: Target, isIP: string -> bool)
    requires AddressSyntax(isIP) && ValidTarget(t, isIP) && t.portExplicit && ':' !in t.host && Trimmed(t.host)
    ensures ParseDestination(ToString(t), isIP) == Some(Target(NormalizeHost(t.host, isIP), t.port, true))
  {
    var port := Itoa(t.port);
    AtoiOfItoa(t.port);
    TrimExact(t.host);
    EndsInPort(t.host + ":", port);
    SplitPlain(t.host, port);
    ColonsInHostPort(t.host, port);
    NotAnAddress(t.host + ":" + port, isIP);
    HostPortParses(t.host + ":" + port, t.host, port, t.port, isIP);
  }

  lemma NotAnAddress(text: string, isIP: string -> bool)
    requires AddressSyntax(isIP) && Count(text, ':') == 1
    ensures !isIP(text)
  {
    CountNone(text, ':');
  }

  /** With a port, as printed. */
  lemma ExplicitRoundTrip(t: Target, isIP: string -> bool)
    requires AddressSyntax(isIP) && ValidTarget(t, isIP) && t.portExplicit && Trimmed(t.host)
    ensures ParseDestination(ToString(t), isIP) == Some(t)
  {
    TrimExact(t.host);
    NormalizePlain(t.host, isIP);
    if ':' in t.host {
      BracketedParses(t, isIP);
    } else {
      PlainParses(t, isIP);
    }
  }

  lemma ColonsInHostPort(host: string, port: string)
    requires ':' !in host && ':' !in port
    ensures Count(host + ":" + port, ':') == 1
  {
    CountConcat(host + ":", port, ':');
    CountConcat(host, ":", ':');
    CountNone(host, ':');
    CountNone(port, ':');
    assert Count(":", ':') == 1 + Count("", ':');
  }

  lemma ImplicitRoundTrip(t: Target, isIP: string -> bool)
    requires AddressSyntax(isIP) && ValidTarget(t, isIP) && !t.portExplicit && t.port == 0 && Trimmed(t.host)
    ensures ParseDestination(ToString(t), isIP) == Some(t)
  {
    TrimExact(t.host);
    NormalizePlain(t.host, isIP);
    CountNone(t.host, ':');
    assert t.host[0] in t.host;
  }

  lemma HostTrimmed(host: string, isIP: string -> bool)
    requires '[' !in host
    ensures Trimmed(NormalizeHost(host, isIP))
  {
    TrimExact(host);
    TrimKeeps(host, '[');
    if Trim(host) != "" {
      assert Trim(host)[0] in Trim(host);
    }
  }

  /** Trimming an address keeps its first character. */
  lemma TrimmedAddress(literal: string, isIP: string -> bool)
    requires AddressSyntax(isIP) && isIP(literal)
    ensures NormalizeHost(literal, isIP) == Trim(literal) && Trimmed(Trim(literal))
  {
    TrimExact(literal);
    TrimRightPrefix(literal);
    var cut := TrimRight(literal);
    if cut != "" {
      assert cut[0] == literal[0] && TrimLeft(cut) == cut;
    }
  }

  /** Whatever the text, the host parsed out of it has no white space at its ends. */
  lemma ParsedIsTrimmed(text: string, isIP: string -> bool)
    requires AddressSyntax(isIP) && ParseDestination(text, isIP).Some?
    ensures var t := ParseDestination(text, isIP).value;
            Trimmed(t.host) && (!t.portExplicit ==> t.port == 0)
  {
    var raw := Trim(text);
    TrimExact(text);
    TrimExact(raw);
    var literal := UnbracketIPv6Literal(raw, isIP);
    if literal.Some? {
      TrimmedAddress(literal.value, isIP);
    } else if isIP(raw) {
      TrimmedAddress(raw, isIP);
    } else if SplitHostPort(raw).Some? {
      SplitHasNoBracket(raw);
      HostTrimmed(SplitHostPort(raw).value.0, isIP);
    }
  }

  // ----- which text denotes which target

  /** host:port, where a bracketed host may hold colons. */
  predicate IsHostPort(s: string, host: string, port: string) {
    && '[' !in host && ']' !in host && IsPlain(port)
    && (s == "[" + host + "]:" + port || (s == host + ":" + port && ':' !in host))
  }

  ghost predicate SomeHostPort(s: string) {
    exists host, port :: IsHostPort(s, host, port)
  }

  predicate IsBracketedIP(s: string, literal: string, isIP: string -> bool) {
    s == "[" + literal + "]" && isIP(literal)
  }

  /** What a trimmed text denotes: an address in brackets, an address, host and port with a
      decimal port, or, when there is at most one colon, a name. */
  ghost predicate Denotes(s: string, t: Target, isIP: string -> bool) {
    s != "" &&
    if exists literal :: IsBracketedIP(s, literal, isIP) then
      exists literal :: IsBracketedIP(s, literal, isIP) && t == Target(Trim(literal), 0, false)
    else if isIP(s) then t == Target(s, 0, false)
    else if SomeHostPort(s) then
      exists host, port :: && IsHostPort(s, host, port) && t == Target(Trim(host), t.port, true)
                           && IsDecimal(port, t.port) && FitsInt64(t.port)
    else Count(s, ':') <= 1 && t == Target(s, 0, false)
  }

  lemma SplitIsHostPort(s: string, host: string, port: string)
    requires s != "" && SplitHostPort(s) == Some((host, port))
    ensures IsHostPort(s, host, port) && (s[0] == '[' || Count(s, ':') == 1)
  {
    var i := LastIndex(s, ':');
    assert ':' !in port;
    if s[0] == '[' {
      var end := Index(s, ']');
      BracketedParts(s, end, i);
      assert host == s[1..end] && port == s[i + 1..];
    } else {
      PlainParts(s, i);
      ColonsInHostPort(host, port);
    }
  }

  lemma PlainParts(s: string, i: nat)
    requires i < |s| && s[i] == ':' && '[' !in s && ']' !in s
    ensures s == s[..i] + ":" + s[i + 1..]
    ensures '[' !in s[..i] && ']' !in s[..i] && '[' !in s[i + 1..] && ']' !in s[i + 1..]
  {
  }

  lemma BracketedParts(s: string, end: nat, i: nat)
    requires 0 < end && i == end + 1 < |s| && s[0] == '[' && s[end] == ']' && s[i] == ':'
    requires '[' !in s[1..] && ']' !in s[end + 1..] && forall k | 0 <= k < end :: s[k] != ']'
    ensures s == "[" + s[1..end] + "]:" + s[i + 1..]
    ensures '[' !in s[1..end] && ']' !in s[1..end] && '[' !in s[i + 1..] && ']' !in s[i + 1..]
  {
    assert s[1..] == s[1..end] + ("]:" + s[i + 1..]);
    assert s[end + 1..] == ":" + s[i + 1..];
  }

  lemma HostPortSplits(s: string, host: string, port: string)
    requires IsHostPort(s, host, port)
    ensures s != "" && (s[0] == '[' || Count(s, ':') == 1) && SplitHostPort(s) == Some((host, port))
  {
    if s == "[" + host + "]:" + port {
      SplitBracketed(host, port);
      assert s[0] == '[';
    } else {
      SplitPlain(host, port);
      ColonsInHostPort(host, port);
    }
  }

  lemma NoBracketNormal(host: string, isIP: string -> bool)
    requires '[' !in host
    ensures NormalizeHost(host, isIP) == Trim(host)
  {
    TrimKeeps(host, '[');
    if Trim(host) != "" {
      assert Trim(host)[0] in Trim(host);
    }
  }

  lemma BracketedExactly(s: string, literal: string, isIP: string -> bool)
    ensures UnbracketIPv6Literal(s, isIP) == Some(literal) <==> IsBracketedIP(s, literal, isIP)
  {
    if IsBracketedIP(s, literal, isIP) {
      assert s[1..|s| - 1] == literal;
    }
    if UnbracketIPv6Literal(s, isIP) == Some(literal) {
      assert s == "[" + s[1..|s| - 1] + "]";
    }
  }

  lemma HostPortExactly(s: string, t: Target, isIP: string -> bool)
    requires s != "" && SomeHostPort(s)
    ensures ParseHostPort(s, isIP) == Some(t)
       <==> exists host, port :: && IsHostPort(s, host, port) && t == Target(Trim(host), t.port, true)
                                 && IsDecimal(port, t.port) && FitsInt64(t.port)
  {
    var host, port :| IsHostPort(s, host, port);
    HostPortSplits(s, host, port);
    NoBracketNormal(host, isIP);
    AtoiExact(port, t.port);
    if h, p :| IsHostPort(s, h, p) && t == Target(Trim(h), t.port, true) && IsDecimal(p, t.port) && FitsInt64(t.port) {
      HostPortSplits(s, h, p);
    }
  }

  lemma NameExactly(s: string, t: Target, isIP: string -> bool)
    requires s != "" && Trim(s) == s && !SomeHostPort(s) && UnbracketIPv6Literal(s, isIP) == None
    ensures ParseHostPort(s, isIP) == Some(t) <==> Count(s, ':') <= 1 && t == Target(s, 0, false)
  {
    if SplitHostPort(s).Some? {
      SplitIsHostPort(s, SplitHostPort(s).value.0, SplitHostPort(s).value.1);
    }
  }

  /** Every text is parsed as the target it denotes, and refused exactly when it denotes none. */
  lemma DestinationExactly(text: string, t: Target, isIP: string -> bool)
    requires AddressSyntax(isIP)
    ensures ParseDestination(text, isIP) == Some(t) <==> Denotes(Trim(text), t, isIP)
  {
    var s := Trim(text);
    TrimExact(text);
    TrimExact(s);
    forall literal: string
      ensures UnbracketIPv6Literal(s, isIP) == Some(literal) <==> IsBracketedIP(s, literal, isIP)
    {
      BracketedExactly(s, literal, isIP);
    }
    if s == "" {
    } else if UnbracketIPv6Literal(s, isIP).Some? {
      TrimmedAddress(UnbracketIPv6Literal(s, isIP).value, isIP);
    } else if isIP(s) {
      TrimmedAddress(s, isIP);
    } else if SomeHostPort(s) {
      HostPortExactly(s, t, isIP);
    } else {
      NameExactly(s, t, isIP);
    }
  }

  lemma SplitHasNoBracket(s: string)
    requires SplitHostPort(s).Some?
    ensures '[' !in SplitHostPort(s).value.0
  {
    if s[0] == '[' {
      var end := Index(s, ']');
      assert s[1..end] == s[1..][..end - 1];
    }
  }

  /** Printing a valid target and parsing it back returns the target exactly when its host has
      no white space at its ends. */
  lemma DestinationRoundTrip(t: Target, isIP: string -> bool)
    requires AddressSyntax(isIP) && ValidTarget(t, isIP) && (!t.portExplicit ==> t.port == 0)
    ensures ParseDestination(ToString(t), isIP) == Some(t) <==> Trimmed(t.host)
  {
    if Trimmed(t.host) {
      if t.portExplicit {
        ExplicitRoundTrip(t, isIP);
      } else {
        ImplicitRoundTrip(t, isIP);
      }
    } else if ParseDestination(ToString(t), isIP).Some? {
      ParsedIsTrimmed(ToString(t), isIP);
    }
  }

  /** What the program itself parses survives: every text that parses to a valid target gives,
      printed and parsed again, that target. */
  lemma ParsedRoundTrip(text: string, isIP: string -> bool)
    requires AddressSyntax(isIP) && ParseDestination(text, isIP).Some?
    requires ValidTarget(ParseDestination(text, isIP).value, isIP)
    ensures var t := ParseDestination(text, isIP).value;
            ParseDestination(ToString(t), isIP) == Some(t)
  {
    ParsedIsTrimmed(text, isIP);
    DestinationRoundTrip(ParseDestination(text, isIP).value, isIP);
  }

  /** A target made directly from a bracketed literal may be padded: the brackets protect the
      white space of the literal from trimming, and printing then loses it. */
  lemma PaddedLiteralIsLost(literal: string, isIP: string -> bool)
    requires AddressSyntax(isIP) && isIP(literal) && !Trimmed(literal)
    requires ValidTarget(Target(literal, 0, false), isIP)
    ensures var t := NewTarget("[" + literal + "]", 0, false, isIP);
            t.host == literal && ParseDestination(ToString(t), isIP) != Some(t)
  {
    BracketsProtect(literal, isIP);
    DestinationRoundTrip(Target(literal, 0, false), isIP);
  }

  lemma BracketsProtect(literal: string, isIP: string -> bool)
    requires isIP(literal)
    ensures NormalizeHost("[" + literal + "]", isIP) == literal
  {
    var host := "[" + literal + "]";
    TrimExact(host);
    assert host[1..|host| - 1] == literal;
  }

  /** Such a literal: a link-local address whose zone is one space. */
  lemma SpaceZoneIsPadded(literal: string, isIP: string -> bool)
    requires literal == "fe80::1% " && isIP(literal)
    ensures ValidTarget(Target(literal, 0, false), isIP) && !Trimmed(literal)
  {
    PaddedEnd(literal);
    ShortText(literal);
    TrimKeeps(literal, 'f');
    forall c | c in literal
      ensures c != '[' && c != ']' && !IsControl(c)
    {
      SpaceZoneChar(literal, c);
    }
  }

  lemma SpaceZoneChar(literal: string, c: char)
    requires literal == "fe80::1% " && c in literal
    ensures c != '[' && c != ']' && !IsControl(c)
  {
  }

  lemma PaddedEnd(literal: string)
    requires literal == "fe80::1% "
    ensures literal[0] == 'f' && !Trimmed(literal)
  {
    assert literal[8] == ' ';
  }

  lemma {:induction false} ShortText(s: string)
    ensures ByteLength(s) <= 4 * |s|
  {
    if s != "" {
      ShortText(s[1..]);
    }
  }

  // ----- ports

  function PortForAddr(t: Target, isV6: bool, edition: Edition): int {
    if t.portExplicit then t.port
    else if edition == Bedrock && isV6 then DEFAULT_BEDROCK_PORT_V6
    else if edition == Bedrock then DEFAULT_BEDROCK_PORT
    else DEFAULT_JAVA_PORT
  }

  function ToUint16(value: int): (r: Option<int>)
    ensures r.Some? <==> 0 <= value <= 0xffff
    ensures r.Some? ==> r.value == value
  {
    if value < 0 || value > 65535 then None else Some(value)
  }

  /** The port given, or the edition's own: 25565 for Java, 19132 for Bedrock and 19133 for Bedrock
      over IPv6. */
  lemma PortsExactly(t: Target)
    ensures forall v6, edition :: t.portExplicit ==> PortForAddr(t, v6, edition) == t.port
    ensures !t.portExplicit ==>
              && (forall v6 :: PortForAddr(t, v6, Java) == 25565)
              && PortForAddr(t, false, Bedrock) == 19132 && PortForAddr(t, true, Bedrock) == 19133
  {
  }

  /** For a valid target the port conversion whose error is ignored cannot fail. */
  lemma PortAlwaysFits(t: Target, isV6: bool, edition: Edition, isIP: string -> bool)
    requires ValidTarget(t, isIP)
    ensures ToUint16(PortForAddr(t, isV6, edition)) == Some(PortForAddr(t, isV6, edition))
    ensures PortForAddr(t, isV6, edition) >= 1
  {
  }
}
