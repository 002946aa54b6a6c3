/**
 Client and staging server as two processes over two byte FIFOs. Every write reaches the FIFO
 in pieces of any size and every read takes any part of what it asked for, in any order of the
 two processes' steps.
 */
module TwoParty {
  import opened Bytes
  import opened VarInt
  import opened Framing
  import opened JavaMessages

  datatype Setup = Setup(host: seq<byte>, port: uint16, token: uint64, json: seq<byte>, rules: TextRules) {
    predicate Valid() {
      && |host| <= MAX_HOST_BYTES && rules.utf8(host)
      && |json| <= MAX_STATUS_JSON_LENGTH && rules.utf8(json) && rules.jsonObject(json)
    }
  }

  datatype ClientPc = WriteHandshake | WriteRequest | AwaitStatus | WritePing | AwaitPong | ClientDone | ClientFailed

  datatype ServerPc =
    AwaitHandshake | AwaitRequest | WriteStatus | AwaitPing | WritePong(token: uint64) | ServerDone | ServerFailed

  /** out: bytes of the current write not yet in the FIFO; got: bytes of the current packet
      already taken out of it. */
  datatype State = State(
    client: ClientPc, clientOut: seq<byte>, clientGot: seq<byte>,
    server: ServerPc, serverOut: seq<byte>, serverGot: seq<byte>,
    toServer: seq<byte>, toClient: seq<byte>)

  datatype Action =
    ClientFlush(k: nat) | ClientPull(k: nat) | ClientEof | ServerFlush(k: nat) | ServerPull(k: nat) | ServerEof

  // ----- reading one packet piece by piece

  /** What readPacket does next, given the bytes it has so far. */
  datatype Need = More(n: nat) | Complete(payload: seq<byte>) | Broken

  ghost function Needs(got: seq<byte>): Need {
    match Decode(got)
    case TooLong => Broken
    case Truncated => More(1)
    case Value(length, h) =>
      if length <= 0 || length > MAX_PACKET_LENGTH then Broken
      else if h + length > |got| then More(h + length - |got|)
      else Complete(got[h..h + length])
  }

  /** The piecemeal reader and readPacket agree on whatever has arrived: complete, too short or
      broken; and on any stream that holds a packet the reader never asks for a byte beyond it. */
  lemma NeedsAgrees(got: seq<byte>, stream: seq<byte>)
    requires got <= stream
    ensures match DecodePacket(got, MAX_PACKET_LENGTH)
            case Parsed(p, _) => Needs(got) == Complete(p)
            case Failed(e) => if e == EndOfStream then Needs(got).More? else Needs(got) == Broken
    ensures var whole := DecodePacket(stream, MAX_PACKET_LENGTH);
            whole.Parsed? && Needs(got).More? ==> 1 <= Needs(got).n <= whole.consumed - |got|
  {
    var whole, reading := Decode(stream), Decode(got);
    if whole.Value? {
      DecodeExact(stream, whole.value, whole.consumed);
      if reading.Value? {
        DecodeExact(got, reading.value, reading.consumed);
        DecodeExact(stream, reading.value, reading.consumed);
        assert got[..reading.consumed] == stream[..reading.consumed];
      } else if whole.consumed <= |got| {
        assert got[..whole.consumed] == stream[..whole.consumed];
        DecodeExact(got, whole.value, whole.consumed);
        assert false;
      }
    }
  }

  // ----- steps

  function ClientAfterWrite(s: State): State {
    match s.client
    case WriteHandshake => s.(client := WriteRequest, clientOut := Frame(REQUEST_PAYLOAD))
    case WriteRequest => s.(client := AwaitStatus)
    case WritePing => s.(client := AwaitPong)
    case _ => s
  }

  ghost function ClientAfterRead(s: State, setup: Setup): State {
    match Needs(s.clientGot)
    case More(_) => s
    case Broken => s.(client := ClientFailed)
    case Complete(p) =>
      if s.client == AwaitStatus && CheckStatus(p, setup.rules).Ok? then
        s.(client := WritePing, clientOut := Frame(TokenPayload(setup.token)), clientGot := [])
      else if s.client == AwaitPong && CheckPong(p, setup.token).Ok? then
        s.(client := ClientDone, clientGot := [])
      else s.(client := ClientFailed)
  }

  function ServerAfterWrite(s: State): State {
    match s.server
    case WriteStatus => s.(server := AwaitPing)
    case WritePong(_) => s.(server := ServerDone)
    case _ => s
  }

  ghost function ServerAfterRead(s: State, setup: Setup): State
    requires setup.Valid()
  {
    match Needs(s.serverGot)
    case More(_) => s
    case Broken => s.(server := ServerFailed)
    case Complete(p) =>
      if s.server == AwaitHandshake && ParseHandshake(p, setup.rules).Ok? then
        s.(server := AwaitRequest, serverGot := [])
      else if s.server == AwaitRequest && CheckRequest(p).Ok? then
        s.(server := WriteStatus, serverOut := Frame(StatusPayload(setup.json)), serverGot := [])
      else if s.server == AwaitPing && ParseToken(p).Ok? then
        var token := ParseToken(p).value;
        s.(server := WritePong(token), serverOut := Frame(TokenPayload(token)), serverGot := [])
      else s.(server := ServerFailed)
  }

  predicate ClientWrites(pc: ClientPc) {
    pc in {WriteHandshake, WriteRequest, WritePing}
  }

  predicate ClientReadsNow(pc: ClientPc) {
    pc == AwaitStatus || pc == AwaitPong
  }

  predicate ServerWrites(pc: ServerPc) {
    pc == WriteStatus || pc.WritePong?
  }

  predicate ServerReadsNow(pc: ServerPc) {
    pc in {AwaitHandshake, AwaitRequest, AwaitPing}
  }

  /** A read asks for Needs(got).n bytes and gets between one and that many; at the end of a
      closed peer's bytes it gets end-of-file. */
  ghost predicate Enabled(s: State, a: Action) {
    match a
    case ClientFlush(k) => ClientWrites(s.client) && 1 <= k <= |s.clientOut|
    case ServerFlush(k) => ServerWrites(s.server) && 1 <= k <= |s.serverOut|
    case ClientPull(k) =>
      ClientReadsNow(s.client) && Needs(s.clientGot).More? && 1 <= k <= Needs(s.clientGot).n && k <= |s.toClient|
    case ServerPull(k) =>
      ServerReadsNow(s.server) && Needs(s.serverGot).More? && 1 <= k <= Needs(s.serverGot).n && k <= |s.toServer|
    case ClientEof => ClientReadsNow(s.client) && s.toClient == [] && (s.server.ServerDone? || s.server.ServerFailed?)
    case ServerEof => ServerReadsNow(s.server) && s.toServer == [] && (s.client.ClientDone? || s.client.ClientFailed?)
  }

  function FlushClient(s: State, k: nat): State
    requires k <= |s.clientOut|
  {
    var t := s.(toServer := s.toServer + s.clientOut[..k], clientOut := s.clientOut[k..]);
    if t.clientOut == [] then ClientAfterWrite(t) else t
  }

  function FlushServer(s: State, k: nat): State
    requires k <= |s.serverOut|
  {
    var t := s.(toClient := s.toClient + s.serverOut[..k], serverOut := s.serverOut[k..]);
    if t.serverOut == [] then ServerAfterWrite(t) else t
  }

  function PullClient(s: State, k: nat): State
    requires k <= |s.toClient|
  {
    s.(clientGot := s.clientGot + s.toClient[..k], toClient := s.toClient[k..])
  }

  function PullServer(s: State, k: nat): State
    requires k <= |s.toServer|
  {
    s.(serverGot := s.serverGot + s.toServer[..k], toServer := s.toServer[k..])
  }

  ghost function Apply(s: State, a: Action, setup: Setup): State
    requires setup.Valid() && Enabled(s, a)
  {
    match a
    case ClientFlush(k) => FlushClient(s, k)
    case ServerFlush(k) => FlushServer(s, k)
    case ClientPull(k) => ClientAfterRead(PullClient(s, k), setup)
    case ServerPull(k) => ServerAfterRead(PullServer(s, k), setup)
    case ClientEof => s.(client := ClientFailed)
    case ServerEof => s.(server := ServerFailed)
  }

  function Start(setup: Setup): State
    requires setup.Valid()
  {
    State(WriteHandshake, Frame(HandshakePayload(setup.host, setup.port)), [], AwaitHandshake, [], [], [], [])
  }

  predicate Finished(s: State) {
    s.client == ClientDone && s.server == ServerDone
  }

  ghost predicate Stuck(s: State) {
    !Finished(s) && forall a :: !Enabled(s, a)
  }

  /** A run is any sequence of enabled actions. */
  ghost predicate IsRun(s: State, run: seq<Action>, setup: Setup)
    requires setup.Valid()
    decreases |run|
  {
    run != [] ==> Enabled(s, run[0]) && IsRun(Apply(s, run[0], setup), run[1..], setup)
  }

  ghost function After(s: State, run: seq<Action>, setup: Setup): State
    requires setup.Valid() && IsRun(s, run, setup)
    decreases |run|
  {
    if run == [] then s else After(Apply(s, run[0], setup), run[1..], setup)
  }

  /** Chunks may be of any size: whatever is left to write goes out in any pieces, and a read
      returns any number of bytes up to those asked for and those there. A read fails exactly when
      nothing is there and the peer has closed. */
  lemma AnyChunking(s: State, k: nat)
    requires k >= 1
    ensures s.client in {WriteHandshake, WriteRequest, WritePing} && k <= |s.clientOut| ==> Enabled(s, ClientFlush(k))
    ensures s.server == WriteStatus || s.server.WritePong? ==> k <= |s.serverOut| ==> Enabled(s, ServerFlush(k))
    ensures s.client == AwaitStatus || s.client == AwaitPong ==>
              && (Needs(s.clientGot).More? && k <= Needs(s.clientGot).n && k <= |s.toClient| ==> Enabled(s, ClientPull(k)))
              && (Enabled(s, ClientEof) <==> s.toClient == [] && (s.server == ServerDone || s.server == ServerFailed))
    ensures s.server in {AwaitHandshake, AwaitRequest, AwaitPing} ==>
              && (Needs(s.serverGot).More? && k <= Needs(s.serverGot).n && k <= |s.toServer| ==> Enabled(s, ServerPull(k)))
              && (Enabled(s, ServerEof) <==> s.toServer == [] && (s.client == ClientDone || s.client == ClientFailed))
  {
  }

  // ----- the streams of a successful exchange

  /** The payloads each side reads, in order. */
  function ServerPayload(pc: ServerPc, setup: Setup): seq<byte>
    requires setup.Valid() && ServerReadsNow(pc)
  {
    match pc
    case AwaitHandshake => HandshakePayload(setup.host, setup.port)
    case AwaitRequest => REQUEST_PAYLOAD
    case AwaitPing => TokenPayload(setup.token)
  }

  function ClientPayload(pc: ClientPc, setup: Setup): seq<byte>
    requires setup.Valid() && ClientReadsNow(pc)
  {
    match pc
    case AwaitStatus => StatusPayload(setup.json)
    case AwaitPong => TokenPayload(setup.token)
  }

  /** The frames of a successful exchange and their cut points in the two streams: h and q end
      the handshake and the request, c the client's stream; t ends the status, u the server's
      stream. */
  datatype Plan = Plan(handshake: seq<byte>, request: seq<byte>, status: seq<byte>, token: seq<byte>,
                       up: seq<byte>, down: seq<byte>, h: nat, q: nat, c: nat, t: nat, u: nat)

  ghost function PlanOf(setup: Setup): Plan
    requires setup.Valid()
  {
    var hs, rq := Frame(HandshakePayload(setup.host, setup.port)), Frame(REQUEST_PAYLOAD);
    var tk := Frame(TokenPayload(setup.token));
    var st := Frame(StatusPayload(setup.json));
    Plan(hs, rq, st, tk, hs + rq + tk, st + tk, |hs|, |hs| + |rq|, |hs| + |rq| + |tk|, |st|, |st| + |tk|)
  }

  ghost predicate PlanCuts(plan: Plan) {
    && 0 < plan.h < plan.q < plan.c == |plan.up| && 0 < plan.t < plan.u == |plan.down|
    && plan.up[..plan.h] == plan.handshake
    && plan.up[plan.h..plan.q] == plan.request
    && plan.up[plan.q..plan.c] == plan.token
    && plan.down[..plan.t] == plan.status
    && plan.down[plan.t..plan.u] == plan.token
  }

  ghost predicate PlanFits(plan: Plan, setup: Setup)
    requires setup.Valid()
  {
    && plan.handshake == Frame(HandshakePayload(setup.host, setup.port))
    && plan.request == Frame(REQUEST_PAYLOAD)
    && plan.status == Frame(StatusPayload(setup.json))
    && plan.token == Frame(TokenPayload(setup.token))
  }

  /** How much of the client stream has been handed to write calls by this point. */
  ghost function ClientBegun(pc: ClientPc, plan: Plan): nat {
    match pc
    case WriteHandshake => plan.h
    case WriteRequest => plan.q
    case AwaitStatus => plan.q
    case _ => plan.c
  }

  /** How much of the client stream the server's finished packet reads cover. */
  ghost function ServerTaken(pc: ServerPc, plan: Plan): nat {
    match pc
    case AwaitHandshake => 0
    case AwaitRequest => plan.h
    case WriteStatus => plan.q
    case AwaitPing => plan.q
    case _ => plan.c
  }

  ghost function ServerBegun(pc: ServerPc, plan: Plan): nat {
    match pc
    case AwaitHandshake => 0
    case AwaitRequest => 0
    case WriteStatus => plan.t
    case AwaitPing => plan.t
    case _ => plan.u
  }

  ghost function ClientTaken(pc: ClientPc, plan: Plan): nat {
    match pc
    case WritePing => plan.t
    case AwaitPong => plan.t
    case ClientDone => plan.u
    case _ => 0
  }

  /** One direction: taken | got | fifo | out lie end to end in the stream, up to `begun`. */
  ghost predicate Link(stream: seq<byte>, taken: nat, got: seq<byte>, fifo: seq<byte>, out: seq<byte>, begun: nat) {
    && taken <= begun <= |stream|
    && stream[taken..begun] == got + fifo + out
  }

  /** Where in its stream the packet now being read ends. */
  ghost function ServerGoal(pc: ServerPc, plan: Plan): nat
    requires ServerReadsNow(pc)
  {
    match pc
    case AwaitHandshake => plan.h
    case AwaitRequest => plan.q
    case AwaitPing => plan.c
  }

  ghost function ClientGoal(pc: ClientPc, plan: Plan): nat
    requires ClientReadsNow(pc)
  {
    if pc == AwaitStatus then plan.t else plan.u
  }

  ghost predicate ClientShape(s: State, plan: Plan) {
    && s.client != ClientFailed
    && (ClientWrites(s.client) <==> s.clientOut != [])
    && (ClientReadsNow(s.client) ==> ClientTaken(s.client, plan) + |s.clientGot| < ClientGoal(s.client, plan))
    && (!ClientReadsNow(s.client) ==> s.clientGot == [])
  }

  ghost predicate ServerShape(s: State, plan: Plan) {
    && s.server != ServerFailed
    && (ServerWrites(s.server) <==> s.serverOut != [])
    && (ServerReadsNow(s.server) ==> ServerTaken(s.server, plan) + |s.serverGot| < ServerGoal(s.server, plan))
    && (!ServerReadsNow(s.server) ==> s.serverGot == [])
  }

  ghost predicate UpLink(s: State, plan: Plan) {
    Link(plan.up, ServerTaken(s.server, plan), s.serverGot, s.toServer, s.clientOut, ClientBegun(s.client, plan))
  }

  ghost predicate DownLink(s: State, plan: Plan) {
    Link(plan.down, ClientTaken(s.client, plan), s.clientGot, s.toClient, s.serverOut, ServerBegun(s.server, plan))
  }

  ghost predicate Inv(s: State, plan: Plan) {
    PlanCuts(plan) && ClientShape(s, plan) && ServerShape(s, plan) && UpLink(s, plan) && DownLink(s, plan)
  }

  // ----- moving bytes along one direction

  lemma LinkFlush(stream: seq<byte>, taken: nat, got: seq<byte>, fifo: seq<byte>, out: seq<byte>, begun: nat, k: nat)
    requires Link(stream, taken, got, fifo, out, begun) && k <= |out|
    ensures Link(stream, taken, got, fifo + out[..k], out[k..], begun)
  {
    assert out == out[..k] + out[k..];
  }

  lemma LinkPull(stream: seq<byte>, taken: nat, got: seq<byte>, fifo: seq<byte>, out: seq<byte>, begun: nat, k: nat)
    requires Link(stream, taken, got, fifo, out, begun) && k <= |fifo|
    ensures Link(stream, taken, got + fifo[..k], fifo[k..], out, begun)
  {
    assert fifo == fifo[..k] + fifo[k..];
  }

  /** Starting the next write, with the previous one flushed. */
  lemma LinkBegin(stream: seq<byte>, taken: nat, got: seq<byte>, fifo: seq<byte>, begun: nat, begun': nat)
    requires Link(stream, taken, got, fifo, [], begun) && begun <= begun' <= |stream|
    ensures Link(stream, taken, got, fifo, stream[begun..begun'], begun')
  {
    assert stream[taken..begun'] == stream[taken..begun] + stream[begun..begun'];
  }

  /** Finishing a packet. */
  lemma LinkTake(stream: seq<byte>, taken: nat, got: seq<byte>, fifo: seq<byte>, out: seq<byte>, begun: nat)
    requires Link(stream, taken, got, fifo, out, begun)
    ensures Link(stream, taken + |got|, [], fifo, out, begun)
  {
    assert stream[taken..begun][|got|..] == stream[taken + |got|..begun];
    assert (got + fifo + out)[|got|..] == [] + fifo + out;
  }

  /** Bytes held of a packet are the start of the stream's segment at that point. */
  lemma LinkGot(stream: seq<byte>, taken: nat, got: seq<byte>, fifo: seq<byte>, out: seq<byte>, begun: nat, f: seq<byte>)
    requires Link(stream, taken, got, fifo, out, begun)
    requires taken + |f| <= |stream| && stream[taken..taken + |f|] == f && |got| <= |f|
    ensures got == f[..|got|]
  {
    assert stream[taken..begun][..|got|] == stream[taken..taken + |f|][..|got|];
    assert (got + fifo + out)[..|got|] == got;
  }

  /** A read of a frame never asks for bytes beyond it, and is complete exactly at its end. */
  lemma NeedsOfFrame(p: seq<byte>, n: nat)
    requires 1 <= |p| <= MAX_PACKET_LENGTH && n <= |Frame(p)|
    ensures n < |Frame(p)| ==> Needs(Frame(p)[..n]).More? && 1 <= Needs(Frame(p)[..n]).n <= |Frame(p)| - n
    ensures n == |Frame(p)| ==> Needs(Frame(p)[..n]) == Complete(p)
  {
    var e := Encode(|p|);
    EncodeIsEncoding(|p|);
    if n < |e| {
      ProperPrefixTruncated(e, n, |p|);
      assert Frame(p)[..n] == e[..n];
    } else {
      DecodePrefix(e, p[..n - |e|], |p|);
      assert Frame(p)[..n] == e + p[..n - |e|];
    }
  }

  /** While a packet is arriving, the bytes held are a prefix of the frame due at that point. */
  lemma ServerGot(s: State, plan: Plan, setup: Setup)
    requires setup.Valid() && PlanFits(plan, setup) && PlanCuts(plan) && UpLink(s, plan) && ServerReadsNow(s.server)
    requires ServerTaken(s.server, plan) + |s.serverGot| <= ServerGoal(s.server, plan)
    ensures s.serverGot == Frame(ServerPayload(s.server, setup))[..|s.serverGot|]
    ensures |Frame(ServerPayload(s.server, setup))| == ServerGoal(s.server, plan) - ServerTaken(s.server, plan)
  {
    LinkGot(plan.up, ServerTaken(s.server, plan), s.serverGot, s.toServer, s.clientOut,
            ClientBegun(s.client, plan), Frame(ServerPayload(s.server, setup)));
  }

  lemma ClientGot(s: State, plan: Plan, setup: Setup)
    requires setup.Valid() && PlanFits(plan, setup) && PlanCuts(plan) && DownLink(s, plan) && ClientReadsNow(s.client)
    requires ClientTaken(s.client, plan) + |s.clientGot| <= ClientGoal(s.client, plan)
    ensures s.clientGot == Frame(ClientPayload(s.client, setup))[..|s.clientGot|]
    ensures |Frame(ClientPayload(s.client, setup))| == ClientGoal(s.client, plan) - ClientTaken(s.client, plan)
  {
    LinkGot(plan.down, ClientTaken(s.client, plan), s.clientGot, s.toClient, s.serverOut,
            ServerBegun(s.server, plan), Frame(ClientPayload(s.client, setup)));
  }

  /** A read never asks for more than the frame it is reading still lacks. */
  lemma ServerAsks(s: State, plan: Plan, setup: Setup)
    requires setup.Valid() && PlanFits(plan, setup) && Inv(s, plan) && ServerReadsNow(s.server)
    ensures Needs(s.serverGot).More?
    ensures 1 <= Needs(s.serverGot).n <= ServerGoal(s.server, plan) - ServerTaken(s.server, plan) - |s.serverGot|
  {
    ServerGot(s, plan, setup);
    NeedsOfFrame(ServerPayload(s.server, setup), |s.serverGot|);
  }

  lemma ClientAsks(s: State, plan: Plan, setup: Setup)
    requires setup.Valid() && PlanFits(plan, setup) && Inv(s, plan) && ClientReadsNow(s.client)
    ensures Needs(s.clientGot).More?
    ensures 1 <= Needs(s.clientGot).n <= ClientGoal(s.client, plan) - ClientTaken(s.client, plan) - |s.clientGot|
  {
    ClientGot(s, plan, setup);
    NeedsOfFrame(ClientPayload(s.client, setup), |s.clientGot|);
  }

  // ----- what a read leads to

  ghost function ServerNext(s: State, plan: Plan, setup: Setup): State
    requires ServerReadsNow(s.server)
  {
    match s.server
    case AwaitHandshake => s.(server := AwaitRequest, serverGot := [])
    case AwaitRequest => s.(server := WriteStatus, serverOut := plan.status, serverGot := [])
    case AwaitPing => s.(server := WritePong(setup.token), serverOut := plan.token, serverGot := [])
  }

  ghost function ClientNext(s: State, plan: Plan): State
    requires ClientReadsNow(s.client)
  {
    if s.client == AwaitStatus then s.(client := WritePing, clientOut := plan.token, clientGot := [])
    else s.(client := ClientDone, clientGot := [])
  }

  lemma ServerReadLeadsTo(s: State, plan: Plan, setup: Setup)
    requires setup.Valid() && PlanFits(plan, setup) && PlanCuts(plan) && UpLink(s, plan) && ServerReadsNow(s.server)
    requires ServerTaken(s.server, plan) + |s.serverGot| <= ServerGoal(s.server, plan)
    ensures ServerAfterRead(s, setup)
         == if ServerTaken(s.server, plan) + |s.serverGot| < ServerGoal(s.server, plan) then s else ServerNext(s, plan, setup)
  {
    var p := ServerPayload(s.server, setup);
    ServerGot(s, plan, setup);
    NeedsOfFrame(p, |s.serverGot|);
    if |s.serverGot| == |Frame(p)| {
      match s.server {
        case AwaitHandshake => HandshakeRoundTrip(setup.host, setup.port, setup.rules);
        case AwaitRequest => RequestAccepted();
        case AwaitPing => TokenRoundTrip(setup.token);
      }
    }
  }

  lemma ClientReadLeadsTo(s: State, plan: Plan, setup: Setup)
    requires setup.Valid() && PlanFits(plan, setup) && PlanCuts(plan) && DownLink(s, plan) && ClientReadsNow(s.client)
    requires ClientTaken(s.client, plan) + |s.clientGot| <= ClientGoal(s.client, plan)
    ensures ClientAfterRead(s, setup)
         == if ClientTaken(s.client, plan) + |s.clientGot| < ClientGoal(s.client, plan) then s else ClientNext(s, plan)
  {
    var p := ClientPayload(s.client, setup);
    ClientGot(s, plan, setup);
    NeedsOfFrame(p, |s.clientGot|);
    if |s.clientGot| == |Frame(p)| {
      if s.client == AwaitStatus {
        StatusAccepted(setup.json, setup.rules);
      } else {
        TokenRoundTrip(setup.token);
      }
    }
  }

  lemma ServerNextUp(s: State, plan: Plan, setup: Setup)
    requires UpLink(s, plan) && ServerReadsNow(s.server)
    requires ServerTaken(s.server, plan) + |s.serverGot| == ServerGoal(s.server, plan)
    ensures UpLink(ServerNext(s, plan, setup), plan)
  {
    LinkTake(plan.up, ServerTaken(s.server, plan), s.serverGot, s.toServer, s.clientOut, ClientBegun(s.client, plan));
  }

  lemma ServerNextDown(s: State, plan: Plan, setup: Setup)
    requires PlanCuts(plan) && DownLink(s, plan) && ServerReadsNow(s.server) && s.serverOut == []
    ensures DownLink(ServerNext(s, plan, setup), plan)
  {
    var begun, begun' := ServerBegun(s.server, plan), ServerBegun(ServerNext(s, plan, setup).server, plan);
    LinkBegin(plan.down, ClientTaken(s.client, plan), s.clientGot, s.toClient, begun, begun');
  }

  lemma ClientNextDown(s: State, plan: Plan)
    requires DownLink(s, plan) && ClientReadsNow(s.client)
    requires ClientTaken(s.client, plan) + |s.clientGot| == ClientGoal(s.client, plan)
    ensures DownLink(ClientNext(s, plan), plan)
  {
    LinkTake(plan.down, ClientTaken(s.client, plan), s.clientGot, s.toClient, s.serverOut, ServerBegun(s.server, plan));
  }

  lemma ClientNextUp(s: State, plan: Plan)
    requires PlanCuts(plan) && UpLink(s, plan) && ClientReadsNow(s.client) && s.clientOut == []
    ensures UpLink(ClientNext(s, plan), plan)
  {
    var begun, begun' := ClientBegun(s.client, plan), ClientBegun(ClientNext(s, plan).client, plan);
    LinkBegin(plan.up, ServerTaken(s.server, plan), s.serverGot, s.toServer, begun, begun');
  }

  // ----- every step keeps the invariant

  /** Bytes still to be moved: twice for each not yet in a FIFO, once for each in one. */
  ghost function Remaining(s: State, plan: Plan): int {
    2 * (plan.c - ClientBegun(s.client, plan) + |s.clientOut|) + |s.toServer|
    + 2 * (plan.u - ServerBegun(s.server, plan) + |s.serverOut|) + |s.toClient|
  }

  ghost predicate StepGood(s: State, t: State, plan: Plan) {
    Inv(t, plan) && 0 <= Remaining(t, plan) < Remaining(s, plan)
  }

  lemma StartInv(setup: Setup)
    requires setup.Valid()
    ensures PlanFits(PlanOf(setup), setup) && Inv(Start(setup), PlanOf(setup))
  {
  }

  lemma ClientFlushGood(s: State, k: nat, plan: Plan)
    requires Inv(s, plan) && ClientWrites(s.client) && 1 <= k <= |s.clientOut|
    requires plan.request == Frame(REQUEST_PAYLOAD)
    ensures StepGood(s, FlushClient(s, k), plan)
  {
    var taken, begun := ServerTaken(s.server, plan), ClientBegun(s.client, plan);
    LinkFlush(plan.up, taken, s.serverGot, s.toServer, s.clientOut, begun, k);
    if k < |s.clientOut| {
      assert s.clientOut[k..] != [];
    } else {
      LinkBegin(plan.up, taken, s.serverGot, s.toServer + s.clientOut[..k], begun,
                if s.client == WriteHandshake then plan.q else begun);
    }
  }

  lemma ServerFlushGood(s: State, k: nat, plan: Plan)
    requires Inv(s, plan) && ServerWrites(s.server) && 1 <= k <= |s.serverOut|
    ensures StepGood(s, FlushServer(s, k), plan)
  {
    LinkFlush(plan.down, ClientTaken(s.client, plan), s.clientGot, s.toClient, s.serverOut,
              ServerBegun(s.server, plan), k);
  }

  /** The state between a read call and what the packet reader makes of its bytes. */
  ghost predicate ServerMidRead(t: State, plan: Plan) {
    && PlanCuts(plan) && UpLink(t, plan) && DownLink(t, plan) && ClientShape(t, plan)
    && ServerReadsNow(t.server) && t.serverOut == []
    && ServerTaken(t.server, plan) + |t.serverGot| <= ServerGoal(t.server, plan)
  }

  ghost predicate ClientMidRead(t: State, plan: Plan) {
    && PlanCuts(plan) && UpLink(t, plan) && DownLink(t, plan) && ServerShape(t, plan)
    && ClientReadsNow(t.client) && t.clientOut == []
    && ClientTaken(t.client, plan) + |t.clientGot| <= ClientGoal(t.client, plan)
  }

  lemma ServerPulled(s: State, k: nat, plan: Plan)
    requires Inv(s, plan) && ServerReadsNow(s.server) && 1 <= k <= |s.toServer|
    requires ServerTaken(s.server, plan) + |s.serverGot| + k <= ServerGoal(s.server, plan)
    ensures ServerMidRead(PullServer(s, k), plan)
    ensures Remaining(PullServer(s, k), plan) < Remaining(s, plan)
  {
    LinkPull(plan.up, ServerTaken(s.server, plan), s.serverGot, s.toServer, s.clientOut,
             ClientBegun(s.client, plan), k);
  }

  lemma ClientPulled(s: State, k: nat, plan: Plan)
    requires Inv(s, plan) && ClientReadsNow(s.client) && 1 <= k <= |s.toClient|
    requires ClientTaken(s.client, plan) + |s.clientGot| + k <= ClientGoal(s.client, plan)
    ensures ClientMidRead(PullClient(s, k), plan)
    ensures Remaining(PullClient(s, k), plan) < Remaining(s, plan)
  {
    LinkPull(plan.down, ClientTaken(s.client, plan), s.clientGot, s.toClient, s.serverOut,
             ServerBegun(s.server, plan), k);
  }

  lemma RemainingNonNegative(s: State, plan: Plan)
    requires PlanCuts(plan)
    ensures Remaining(s, plan) >= 0
  {
  }

  /** Moving on to the next phase: only lengths and program counters matter here. */
  lemma ServerNextShape(t: State, plan: Plan, setup: Setup)
    requires PlanCuts(plan) && ServerReadsNow(t.server) && t.serverOut == []
    ensures ServerShape(ServerNext(t, plan, setup), plan)
    ensures Remaining(ServerNext(t, plan, setup), plan) == Remaining(t, plan)
  {
    assert |plan.down[..plan.t]| == |plan.status| == plan.t;
    assert |plan.down[plan.t..plan.u]| == |plan.token| == plan.u - plan.t;
  }

  lemma ClientNextShape(t: State, plan: Plan)
    requires PlanCuts(plan) && ClientReadsNow(t.client) && t.clientOut == []
    ensures ClientShape(ClientNext(t, plan), plan)
    ensures Remaining(ClientNext(t, plan), plan) == Remaining(t, plan)
  {
    assert |plan.up[plan.q..plan.c]| == |plan.token| == plan.c - plan.q;
  }

  lemma ServerNextGood(t: State, plan: Plan, setup: Setup)
    requires ServerMidRead(t, plan)
    requires ServerTaken(t.server, plan) + |t.serverGot| == ServerGoal(t.server, plan)
    ensures Inv(ServerNext(t, plan, setup), plan)
    ensures Remaining(ServerNext(t, plan, setup), plan) == Remaining(t, plan)
  {
    ServerNextUp(t, plan, setup);
    ServerNextDown(t, plan, setup);
    ServerNextShape(t, plan, setup);
  }

  lemma ClientNextGood(t: State, plan: Plan)
    requires ClientMidRead(t, plan)
    requires ClientTaken(t.client, plan) + |t.clientGot| == ClientGoal(t.client, plan)
    ensures Inv(ClientNext(t, plan), plan)
    ensures Remaining(ClientNext(t, plan), plan) == Remaining(t, plan)
  {
    ClientNextUp(t, plan);
    ClientNextDown(t, plan);
    ClientNextShape(t, plan);
  }

  lemma ServerSettles(t: State, plan: Plan, setup: Setup)
    requires setup.Valid() && PlanFits(plan, setup) && ServerMidRead(t, plan)
    ensures Inv(ServerAfterRead(t, setup), plan)
    ensures Remaining(ServerAfterRead(t, setup), plan) == Remaining(t, plan)
  {
    ServerReadLeadsTo(t, plan, setup);
    if ServerTaken(t.server, plan) + |t.serverGot| == ServerGoal(t.server, plan) {
      ServerNextGood(t, plan, setup);
    }
  }

  lemma ClientSettles(t: State, plan: Plan, setup: Setup)
    requires setup.Valid() && PlanFits(plan, setup) && ClientMidRead(t, plan)
    ensures Inv(ClientAfterRead(t, setup), plan)
    ensures Remaining(ClientAfterRead(t, setup), plan) == Remaining(t, plan)
  {
    ClientReadLeadsTo(t, plan, setup);
    if ClientTaken(t.client, plan) + |t.clientGot| == ClientGoal(t.client, plan) {
      ClientNextGood(t, plan);
    }
  }

  lemma ClientPullGood(s: State, k: nat, plan: Plan, setup: Setup)
    requires setup.Valid() && PlanFits(plan, setup) && Inv(s, plan)
    requires ClientReadsNow(s.client) && Needs(s.clientGot).More? && 1 <= k <= Needs(s.clientGot).n && k <= |s.toClient|
    ensures StepGood(s, ClientAfterRead(PullClient(s, k), setup), plan)
  {
    ClientAsks(s, plan, setup);
    ClientPulled(s, k, plan);
    ClientSettles(PullClient(s, k), plan, setup);
    RemainingNonNegative(ClientAfterRead(PullClient(s, k), setup), plan);
  }

  lemma ServerPullGood(s: State, k: nat, plan: Plan, setup: Setup)
    requires setup.Valid() && PlanFits(plan, setup) && Inv(s, plan)
    requires ServerReadsNow(s.server) && Needs(s.serverGot).More? && 1 <= k <= Needs(s.serverGot).n && k <= |s.toServer|
    ensures StepGood(s, ServerAfterRead(PullServer(s, k), setup), plan)
  {
    ServerAsks(s, plan, setup);
    ServerPulled(s, k, plan);
    ServerSettles(PullServer(s, k), plan, setup);
    RemainingNonNegative(ServerAfterRead(PullServer(s, k), setup), plan);
  }

  /** Neither side can be cut off: a peer that is done has sent, and had read, everything. */
  lemma NoEof(s: State, plan: Plan)
    requires Inv(s, plan)
    ensures !Enabled(s, ClientEof) && !Enabled(s, ServerEof)
  {
  }

  lemma StepIsGood(s: State, a: Action, plan: Plan, setup: Setup)
    requires setup.Valid() && PlanFits(plan, setup) && Inv(s, plan) && Enabled(s, a)
    ensures StepGood(s, Apply(s, a, setup), plan)
  {
    NoEof(s, plan);
    match a {
      case ClientFlush(k) => ClientFlushGood(s, k, plan);
      case ServerFlush(k) => ServerFlushGood(s, k, plan);
      case ClientPull(k) => ClientPullGood(s, k, plan, setup);
      case ServerPull(k) => ServerPullGood(s, k, plan, setup);
      case ClientEof => assert false;
      case ServerEof => assert false;
    }
  }

  lemma SomeActionEnabled(s: State, plan: Plan, setup: Setup) returns (a: Action)
    requires setup.Valid() && PlanFits(plan, setup) && Inv(s, plan) && !Finished(s)
    ensures Enabled(s, a)
  {
    if s.clientOut != [] {
      return ClientFlush(1);
    }
    if s.serverOut != [] {
      return ServerFlush(1);
    }
    if ClientReadsNow(s.client) && s.toClient != [] {
      ClientAsks(s, plan, setup);
      return ClientPull(1);
    }
    assert ServerReadsNow(s.server) && s.toServer != [];
    ServerAsks(s, plan, setup);
    return ServerPull(1);
  }

  lemma {:induction false} RunKeeps(s: State, run: seq<Action>, plan: Plan, setup: Setup)
    requires setup.Valid() && PlanFits(plan, setup) && Inv(s, plan) && IsRun(s, run, setup)
    ensures Inv(After(s, run, setup), plan)
    ensures 0 <= Remaining(After(s, run, setup), plan) <= Remaining(s, plan) - |run|
    decreases |run|
  {
    if run != [] {
      StepIsGood(s, run[0], plan, setup);
      RunKeeps(Apply(s, run[0], setup), run[1..], plan, setup);
    }
  }

  /** Total bytes of the exchange, both ways. */
  ghost function ExchangeSize(setup: Setup): nat
    requires setup.Valid()
  {
    PlanOf(setup).c + PlanOf(setup).u
  }

  lemma InvMeans(s: State, plan: Plan)
    requires Inv(s, plan)
    ensures s.client != ClientFailed && s.server != ServerFailed
    ensures Finished(s) ==> s.toServer == [] && s.toClient == []
  {
    if Finished(s) {
      assert |plan.up[plan.c..plan.c]| == 0 && |plan.down[plan.u..plan.u]| == 0;
    }
  }

  lemma StartRemaining(setup: Setup)
    requires setup.Valid()
    ensures Remaining(Start(setup), PlanOf(setup)) == 2 * ExchangeSize(setup)
  {
  }

  /** Every interleaving and every chunking: no reachable state is stuck or failed, runs have
      bounded length, and a finished run has both sides succeeded and both FIFOs empty. */
  lemma TwoPartyProgress(run: seq<Action>, setup: Setup)
    requires setup.Valid() && IsRun(Start(setup), run, setup)
    ensures var s := After(Start(setup), run, setup);
            && !Stuck(s) && s.client != ClientFailed && s.server != ServerFailed
            && |run| <= 2 * ExchangeSize(setup)
            && (Finished(s) ==> s.toServer == [] && s.toClient == [])
  {
    StartInv(setup);
    StartRemaining(setup);
    RunProgress(Start(setup), run, PlanOf(setup), setup);
  }

  lemma RunProgress(start: State, run: seq<Action>, plan: Plan, setup: Setup)
    requires setup.Valid() && PlanFits(plan, setup) && Inv(start, plan) && IsRun(start, run, setup)
    ensures var s := After(start, run, setup);
            && !Stuck(s) && s.client != ClientFailed && s.server != ServerFailed
            && |run| <= Remaining(start, plan)
            && (Finished(s) ==> s.toServer == [] && s.toClient == [])
  {
    RunKeeps(start, run, plan, setup);
    var s := After(start, run, setup);
    InvMeans(s, plan);
    if !Finished(s) {
      var a := SomeActionEnabled(s, plan, setup);
    }
  }
}
