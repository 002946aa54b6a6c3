# minecraft-ping, modelled and verified in Dafny

minecraft-ping measures the latency of Minecraft servers. This project models the logic beneath
its sockets and proves what that logic promises. The modules follow the program's own parts.

* **The Java edition's wire codec and protocol.** `Bytes`, `VarInt`, `Streams`, `VarIntCodec`,
  `Framing`, `JavaMessages` and `TwoParty`. What a VarInt, a string, a packet and each message
  *are* is stated declaratively on bytes. The loops of the client and of the staging server,
  which are written twice in different styles, are proved against those statements. Client and
  server are then run against each other as two processes over two byte FIFOs, with every
  interleaving and every chunking of reads and writes.
* **Choosing and racing addresses.** `Candidates` covers filtering, unmapping, removal of repeats
  and interleaving of the two address families. `DialRace` is the staggered race of concurrent
  dials as a step system: workers, a buffered channel, a shared cancel, a clock and one collector.
* **The ping session and its statistics.** `RttStats` proves Welford's running mean and variance
  equal to the batch definitions. `Session` is the timed probe loop, driven by a tape that says
  how far the clock moved at each reading and what the probe, the context and the sleep did.
* **The front end and the Bedrock edition.** `Text`, `Duration`, `Destination`, `Argv`, `ArgvLaws`,
  `ArgvGrammar`, `CliConfig`, `Options` and `CommandLine` cover the command line, and `Program` puts
  it together with the session; `BedrockCodec` covers RakNet's unconnected ping and pong on both sides.

`Results` holds the two result types the modules share.

Library predicates the program consults without looking inside (UTF-8 validity, "is a JSON
object", "parses as an IP address", "is a non-public address", the range of a float) are function
parameters, so each theorem holds whatever they answer, within the assumptions written down as
`AddressSyntax` and `FloatRange.Valid`.

Five things one might expect do not hold of the code as it stands. Each has an input that shows it
and the exact condition under which the code does meet the expectation:

* A losing connection of the dial race is not always closed. `DialRace.LoserCanStayOpen` exhibits
  a run. `DialRace.LosersLeftOpen` says, for every run, which connections are open at its end: those
  whose worker made its check before the run's first cancelling step. By
  `DialRace.NothingLeaksExactly` nothing leaks if and only if only one worker got that far.
* Printing a target and parsing it back loses white space at the ends of the host
  (`Destination.DestinationRoundTrip`: it holds if and only if there is none). A target built
  directly from a bracketed literal can have such white space (`Destination.PaddedLiteralIsLost`).
  The program itself never builds one: `Destination.ParsedRoundTrip` gives the round trip for
  whatever the destination parser returns, for every text.
* A duration within range is refused when its numeral is too long or its exponent too large for
  one of the two number parsers the code consults. `Duration.LongExponentExactly` gives a family
  of texts short enough for one argument, `Duration.LongNumeralExactly` one for the other parser, each
  with the length from which on it is refused, and `Duration.TextExact` the exact condition, for every
  text.
* Splitting a bundle of short options is not always harmless: `-hZ` is an error where `-h -Z` is
  help (`ArgvLaws.HelpDoesNotSplit`), and `-4-java` is one where `-4 --java` is not
  (`ArgvLaws.DashDoesNotSplit`). After letters that neither take a value nor stop the scan it is
  harmless, whatever follows, if and only if the tail split off does not become a long option of the
  program or an end-of-options mark in front of the destination (`ArgvLaws.SplitsExactly`). At the help
  letter it is harmless if and only if the letters behind it can be read (`ArgvLaws.HelpSplitsExactly`),
  and at the version letter if and only if, in addition, none of them asks for help
  (`CliConfig.VersionSplitsExactly`).
* A pong that the staging server's own probe accepts need not be one the client accepts
  (`BedrockCodec.ServerAcceptanceIsLooser`). The client accepts it if and only if its status has at
  least five semicolons with decimal integers within 64 bits as third, fifth and sixth field
  (`BedrockCodec.AcceptanceGap`).

## Model

| member | source | states |
|---|---|---|
| `VarInt.EncodingMeaning` | protocol.go:173-197 | any accepted encoding of 1 to 5 bytes denotes the two's-complement reading of the sum of its 7-bit groups times powers of 128, modulo 2^32; over-long and overflowing encodings are included |
| `VarInt.DecodeExact` | protocol.go:173-218 | reading gives value v over n bytes if and only if the first n bytes are an encoding of v |
| `VarInt.DecodeFailure` | protocol.go:173-197 | reading is too long exactly on five continued bytes, and truncated exactly on fewer than five bytes that are all continued |
| `VarInt.OrAddsGroup` | protocol.go:183-193 | OR-ing the next group, shifted within 32 bits, into what was read equals adding it modulo 2^32, because the bits are disjoint |
| `VarInt.EncodeIsEncoding` | protocol.go:199-209 | what is written for an int32 is one complete encoding of it, at most five bytes long |
| `VarInt.EncodeDecode` | protocol.go:199-218 | write then read returns every int32, consuming exactly the written bytes, whatever follows |
| `VarInt.EncodeShortest` | protocol.go:199-209 | no encoding of any accepted length that decodes to the same value is shorter than the one written |
| `VarIntCodec.ReadVarInt` | protocol.go:173-197 | the stream reader, under any chunking, returns the declarative reading and leaves the bytes after it unread |
| `VarIntCodec.ClientReadVarIntFromBytes` | protocol.go:211-218 | the client's slice reader returns the declarative reading on every input |
| `VarIntCodec.StagingReadVarIntFromBytes` | internal/stagingserver/server.go:386-409 | the server's independently written slice reader returns the same reading on every input: value, length, and too-long versus truncated |
| `VarIntCodec.ClientWriteVarInt` | protocol.go:199-209 | appends the canonical encoding of the value |
| `VarIntCodec.StagingWriteVarInt` | internal/stagingserver/server.go:435-453 | fills its five-byte array with, and writes, the same bytes as the client's writer for every int32 |
| `Streams.Reader.ReadFull` | protocol.go:166-169 | a full read returns the next n bytes however they are chunked, or fails exactly when fewer remain |
| `Framing.PacketExact` | protocol.go:153-171 | a packet read succeeds with payload p over n bytes if and only if the first n bytes are one frame around p within the limit |
| `Framing.FrameDecodes` | protocol.go:137-171 | a written payload of 1 byte up to the limit reads back, with anything after it unread |
| `Framing.ClientWritePacket` | protocol.go:137-151 | writes one frame, or refuses an empty or oversized payload and writes nothing |
| `Framing.StagingWritePacket` | internal/stagingserver/server.go:325-339 | the server's packet writer, over its own VarInt writer, writes the same frame or refuses the same payloads |
| `Framing.ReadPacket` | protocol.go:153-171 | reads exactly the packet the bytes start with, or reports why there is none |
| `Framing.PacketStreamRoundTrip` | protocol.go:137-171 | writing any sequence of payloads of 1 byte to 2 MiB and reading that many packets returns the sequence and leaves the following bytes |
| `Framing.StringExact` | protocol.go:241-264 | a string read succeeds exactly when the bytes start with a length in any encoding, within the limit, followed by that much UTF-8 |
| `Framing.ClientReadStringFromBytes` | protocol.go:241-264 | the client's string reader returns that reading on every input, errors included |
| `Framing.StagingReadStringFromBytes` | internal/stagingserver/server.go:411-433 | the server's string reader, over its own VarInt reader, returns the same reading on every input |
| `Framing.ClientWriteString` | protocol.go:220-239 | appends length and text, or refuses text over the limit; UTF-8 is not checked |
| `Framing.StagingWriteString` | internal/stagingserver/server.go:455-467 | under any limit, refuses text that is not UTF-8 or too long, and otherwise appends the text behind its length as a 32-bit number: the client's bytes for every length below 2^31 |
| `JavaMessages.HandshakeBytes` | protocol.go:41-61 | a handshake is, byte for byte, packet 0, version -1 in five bytes, the length and the host, the port high byte first, and next state 1 |
| `JavaMessages.PayloadBytes` | protocol.go:67-77 | a status is packet 0 around length and text; a ping and a pong are packet 1 around the eight token bytes, most significant first |
| `JavaMessages.HandshakeRoundTrip` | internal/stagingserver/server.go:224-284 | the server's parser recovers version -1, host, port and next state 1 of every handshake the client builds |
| `JavaMessages.RequestAccepted` | internal/stagingserver/server.go:267-283 | the client's status request is accepted by the server |
| `JavaMessages.HandshakePayload` | protocol.go:41-61 | every handshake payload is non-empty and far below the packet limit, so the writer's size error cannot arise |
| `JavaMessages.StatusPayload` | internal/stagingserver/server.go:286-293 | every status of at most 1 MiB fits a packet |
| `JavaMessages.TokenRoundTrip` | internal/stagingserver/server.go:295-323 | the token the client sends is read by the server as the same 64-bit value |
| `JavaMessages.StatusAccepted` | protocol.go:79-109 | a status the server may send passes the client's check exactly when it is a JSON object |
| `JavaMessages.CheckStatusExact` | protocol.go:79-109 | the status body is accepted exactly when it is id 0, a length in any encoding, and a UTF-8 JSON object of at most 1 MiB filling the rest |
| `JavaMessages.CheckPongExact` | protocol.go:111-135 | the pong body is accepted exactly when it is id 1 and the eight big-endian bytes of the token |
| `JavaMessages.ClientAcceptsExactly` | protocol.go:79-171 | for every byte stream: the client accepts consuming n bytes if and only if those n bytes are one status frame and one pong frame |
| `JavaMessages.SendHandshakePacket` | protocol.go:41-61 | succeeds exactly for a 16-bit port and a host of at most 255 bytes, and then writes one framed handshake; otherwise writes nothing |
| `JavaMessages.SendPingPacket` | protocol.go:67-77 | writes the framed token |
| `JavaMessages.ReadStatusResponse` | protocol.go:79-109 | reads exactly one status frame off the stream, or fails with the reading's error |
| `JavaMessages.ReadPongPacket` | protocol.go:111-135 | reads exactly one pong frame for the token off the stream, or fails with the reading's error |
| `JavaMessages.PingJava` | java.go:133-156 | a probe succeeds exactly when its handshake can be sent and the peer's bytes are accepted; it has then sent its three packets, consumed exactly the two frames, and reports at least one millisecond |
| `JavaMessages.ExpectStatusHandshake` | internal/stagingserver/server.go:224-284 | the running-offset code reads exactly the opening that `OpeningAcceptsExactly` describes, or fails with the reading's error |
| `JavaMessages.HandshakeExact` | internal/stagingserver/server.go:230-264 | a handshake body is accepted, and read as h, exactly when it is id 0, h's version, the length of h's host, that UTF-8 host of at most 255 bytes, h's two port bytes and next state 1, each number in any encoding |
| `JavaMessages.CheckRequestExact` | internal/stagingserver/server.go:271-280 | a status request is accepted exactly when it is an encoding of id 0 and nothing else |
| `JavaMessages.OpeningAcceptsExactly` | internal/stagingserver/server.go:224-284 | for every byte stream: the opening is accepted consuming n bytes if and only if those n bytes are one handshake frame and one request frame |
| `JavaMessages.ServerAcceptsExactly` | internal/stagingserver/server.go:207-312 | for every byte stream: the server reads a token consuming n bytes if and only if those n bytes are one handshake frame, one request frame and one frame of id 1 and the token's eight bytes |
| `JavaMessages.ExpectPingToken` | internal/stagingserver/server.go:295-312 | accepts exactly a ping packet and returns its token |
| `JavaMessages.SendStatusJSON` | internal/stagingserver/server.go:286-293 | sends one status frame exactly when the text is UTF-8 of at most 1 MiB |
| `JavaMessages.SendPong` | internal/stagingserver/server.go:314-323 | writes the framed token |
| `JavaMessages.HandleConn` | internal/stagingserver/server.go:207-222 | serving succeeds exactly when the status may be sent and the peer's bytes are accepted as `ServerAcceptsExactly` describes; it has then read only those and sent exactly the status and the pong for the token that was read |
| `JavaMessages.ServerUnderstandsClient` | internal/stagingserver/server.go:207-222 | for every valid host, port and token, the bytes of a successful probe are all read by the server, which ends with the client's token |
| `JavaMessages.ClientUnderstandsServer` | java.go:139-154 | for every valid status, the bytes of a served connection are all accepted by the client for its own token, and refused as a mismatch for any other |
| `TwoParty.NeedsAgrees` | protocol.go:153-171 | reading piece by piece agrees with reading a packet at once, and never asks for a byte beyond the packet |
| `TwoParty.AnyChunking` | protocol.go:153-171 | writes go out in any pieces, reads return any number of bytes up to those asked for and there, and fail exactly at the end of a closed peer's bytes |
| `TwoParty.StepIsGood` | java.go:133-154 | every step of either process keeps the invariant on program points, held bytes and both FIFOs, and uses up remaining work |
| `TwoParty.SomeActionEnabled` | internal/stagingserver/server.go:207-222 | in every state of the invariant that is not finished, one of the two processes can move |
| `TwoParty.TwoPartyProgress` | java.go:133-154 | for every interleaving and chunking, with a valid host, port and status: no reachable state is stuck or failed, runs are no longer than twice the bytes exchanged, and a finished run has both FIFOs drained |
| `DialRace.StepKeeps` | client.go:99-152 | every step of every worker, the collector, the clock and an outside cancel keeps the race's invariant |
| `DialRace.RaceSafety` | client.go:99-152 | in every reachable state each worker has sent one result if done and none otherwise; unfinished, buffered and received add up to n; a send is never blocked, even after the collector left; worker i never dials before i times the delay |
| `DialRace.StaggerExact` | client.go:101-107 | in every run, a worker that waits may dial if and only if i delays have gone by since its launch, and may abandon if and only if something has cancelled the race |
| `DialRace.LaunchExact` | client.go:126-138 | a launched worker dials at once exactly when its delays are none, which is the first candidate, and otherwise waits from that moment |
| `DialRace.SurroundingsAreFree` | client.go:126-152 | at any time the caller may cancel, time may pass, and a dial may end either way |
| `DialRace.ConnectionConserved` | client.go:108-151 | in every reachable state an opened connection is in exactly one place: with its worker, closed, buffered, or returned |
| `DialRace.ReturnedIsFirstSuccess` | client.go:108-114 | the returned connection is open and is the first success in channel order |
| `DialRace.FailureIsComplete` | client.go:116-123 | on failure every opened connection has been closed and the joined error names each candidate exactly once; the branch for an empty error list is unreachable |
| `DialRace.LosersLeftOpen` | client.go:112-151 | for every run to its end, the connections left open are exactly those whose worker made its check before the run's first cancel, by the collector or by the caller |
| `DialRace.NothingLeaksExactly` | client.go:112-151 | for every run that ends with a connection, that one alone is left open if and only if no other worker made its check before the first cancel |
| `DialRace.LoserCanStayOpen` | client.go:112-151 | a run of two workers in which the losing connection is never closed |
| `DialRace.RaceIsBounded` | client.go:109-152 | no run takes more than 6n + 2 steps of its own |
| `DialRace.CollectorNeverStuck` | client.go:109-117 | until the collector has returned, some step is possible, at worst once the clock has moved on |
| `DialRace.RaceNeverStuck` | client.go:100-152 | until the collector has returned and every worker has finished, some step is possible, so no worker is left hanging after the return |
| `Candidates.EachUsableOnce` | address.go:60-139 | an address is in the list once if some resolver address unmaps to it and qualifies, otherwise not at all |
| `Candidates.ListedExactly` | address.go:60-139 | an IPv4 address is listed, once, if and only if the answer holds it or its IPv4-mapped form, the family is not restricted to IPv6 and it may be dialled; an IPv6 address if and only if the answer holds it, it is no mapped one, the family is not restricted to IPv4 and it may be dialled |
| `Candidates.FamilyListed` | endpoint.go:82-93 | with -4 every listed address is an IPv4 address, with -6 every one is an IPv6 address |
| `Candidates.UsableMeans` | endpoint.go:82-93 | what qualifying and unmapping mean, in terms of addresses alone |
| `Candidates.RefusedMeans` | address.go:60-93 | an address is refused as non-public exactly when it stands for one of a wanted family that is not public while private ones are not allowed |
| `Candidates.FamilyOrderKept` | address.go:95-139 | of two listed addresses of one family, the one that first turned up earlier in the resolver's answer, possibly in mapped form, stands earlier in the list, and conversely |
| `Candidates.ListedHasFirst` | address.go:60-139 | every listed address has such a first position in the resolver's answer |
| `Candidates.FirstUsableLeads` | address.go:95-139 | the first usable resolver address comes first |
| `Candidates.FamiliesAlternate` | address.go:141-156 | families alternate, starting with the first address's, until one runs out; the rest is of the other |
| `Candidates.RebuildIsStable` | address.go:60-156 | rebuilding from the list's own addresses gives the same list |
| `Candidates.ListEmptyExactly` | address.go:60-93 | the list is empty exactly when no address qualifies |
| `Candidates.InterleaveDialCandidates` | address.go:141-156 | the loop computes the pairwise interleaving |
| `Candidates.BuildDialCandidates` | address.go:95-139 | the loop with its seen map and two family lists computes the list characterised above, with ports |
| `Candidates.DialCandidatesForResolvedIPs` | address.go:60-93 | returns that list for the filter, or an error exactly when nothing qualifies, distinguishing an empty answer and a purely non-public one |
| `RttStats.Stats.Add` | session.go:78-96 | adding a sample to the running numbers is adding it to the batch: count, extremes, mean and sum of squared deviations from the new mean |
| `RttStats.AddedMean` | session.go:93-94 | Welford's new mean times the new count is the sum of all samples |
| `RttStats.AddedDeviation` | session.go:93-95 | Welford's update of m2 is the sum of squared deviations from the new mean |
| `RttStats.ExtremesAreExtreme` | session.go:87-92 | the extremes kept are samples, and no sample lies outside them |
| `RttStats.StatsBounds` | session.go:98-103 | min <= mean <= max; the variance times the count is the sum of squared deviations from the mean, and lies between 0 and (max - mean)(mean - min), so its square root exists |
| `RttStats.OrderIrrelevant` | session.go:78-96 | the result depends only on the multiset of samples |
| `Session.RunTextSession` | session.go:105-211 | for every run: each probe's start, launch and timeout is what the clock gaps of the tape make it, and the session is over exactly when they say so; probes are in time and paced, counts and reply lines agree with the log, statistics are those of the answered probes, loss is the lost part of the probes in percent, the exit status says what was answered, count is never exceeded, and with a count or a deadline the session does end |
| `Session.OneRunPerTape` | session.go:105-176 | the tape determines the log: two complete logs of one tape are the same |
| `Session.TapeKeepsPace` | session.go:112-176 | every log that follows a tape has its probes in time, within the deadline, and at least one interval apart |
| `Session.PlanProbe` | session.go:126-140 | a probe goes out if and only if the deadline has not passed by then; its times are the clock readings, its timeout is positive, at most the configured one and within the remaining time |
| `Session.AwaitNext` | session.go:162-175 | going on happens at the interval after the probe's start, or at once if more has passed, plus oversleeping; stopping has one of four causes |
| `Session.StartsExactly` | session.go:112-176 | in every log: the first probe starts at once; each later one an interval after the one before, or as soon as that round is done if it took longer; only oversleeping and clock readings come on top |
| `Session.LaunchesExactly` | session.go:126-144 | when a probe goes out and with which timeout: the configured one, or the time left if that is less; no round follows an interrupted one |
| `Session.SteadyPace` | session.go:162-175 | with no gaps between clock readings and every probe done within the interval, probe k starts at exactly k intervals |
| `Session.NoSleepWhenLate` | session.go:172-175 | a probe that takes the interval or longer is followed by the next one at once |
| `Session.SamplesExact` | session.go:78-83 | the samples are the latencies of the answered probes, in milliseconds |
| `Session.DeadlineBoundsProbes` | session.go:112-176 | with a deadline, (transmitted - 1) times the interval is below it |
| `Session.ReplySeqsExact` | session.go:144-160 | reply lines carry exactly the 1-based ordinals of the answered probes, in order, one each |
| `Session.LossInRange` | session.go:213-219 | loss times the probes sent is a hundred times the probes lost; it is within 0 and 100, 0 exactly when nothing was lost, 100 exactly when probes went out and none was answered |
| `Session.ExitMeans` | session.go:204-210 | with count and deadline, exit status 0 means exactly count probes were sent and all answered; otherwise, that some probe was answered |
| `Argv.ConsumeShortFlags` | cli.go:238-282 | one short group is read to its end, its value taken from the group or the next argument, and the index moved accordingly |
| `Argv.ConsumeLongFlag` | cli.go:175-236 | one long option is read, with inline or following value where it takes one, and the index moved accordingly |
| `Argv.ScanArgv` | cli.go:122-173 | the loop whose helpers move the index terminates and computes the recursive reading of the arguments |
| `ArgvLaws.ReachThenScan` | cli.go:122-173 | reading a command line is reading a prefix and then the rest from the state reached |
| `ArgvLaws.SplitBundle` | cli.go:238-282 | wherever a short group is read as options, giving its simple letters separately, with any tail not starting with a dash (a value letter and its value, more letters, an error), scans the same |
| `ArgvLaws.DashInGroupInvalid` | cli.go:238-282 | a group whose simple letters are followed by a dash is an error, whatever follows |
| `ArgvLaws.LongReads` | cli.go:175-236 | a long option can be read if and only if it is one of the five plain ones, or the edition with a non-blank value, inline or following |
| `ArgvLaws.SplitsExactly` | cli.go:122-282 | for any simple letters and any tail: splitting the group keeps the scan for every continuation if and only if the tail does not become a long option, or the end-of-options mark while no destination is given |
| `ArgvLaws.DashDoesNotSplit` | cli.go:175-282 | a command line where it does: -4-java is invalid, -4 --java is not |
| `ArgvLaws.HelpSplitsExactly` | cli.go:238-282 | anywhere in a command line, a group with the help letter split up around that letter is help; unsplit it is help exactly when the letters behind it can be read, and otherwise invalid |
| `ArgvLaws.HelpDoesNotSplit` | cli.go:263-279 | a command line of the latter kind: -hZ is invalid, -h -Z is help |
| `ArgvLaws.DestinationAmongUnits` | cli.go:122-173 | a destination among option units is read as the destination, and the units as if it were not there |
| `ArgvLaws.MoveDestination` | cli.go:122-173 | moving the single destination to any boundary between option units scans the same |
| `ArgvGrammar.ScansExactly` | cli.go:122-282 | an argument list scans without error if and only if it is a sequence of complete options and at most one destination, followed by nothing, by the end-of-options mark and the destination, or by an option that stops the scan and anything |
| `ArgvGrammar.OptionUnitExactly` | cli.go:175-282 | the option units of the laws above are exactly the options of that grammar |
| `CliConfig.ParseCLIConfig` | cli.go:114-120 | parsing is scanning then normalising, and every accepted probe has a sound configuration |
| `CliConfig.NormalizedIsSound` | cli.go:284-385 | every accepted configuration has positive interval, timeout in (0, 30 s], non-negative count and deadline, a valid host and port, and JSON only with defaults |
| `CliConfig.NormalizedCarries` | cli.go:284-385 | each accepted setting comes from its own option: the default when absent, else its parsed value |
| `CliConfig.NormalizesExactly` | cli.go:284-385 | what was scanned is accepted if and only if it forces one family at most, asks for one edition at most, every setting given can be read and is in range, the destination is valid, and JSON output goes with no count, interval, deadline, quiet or timestamp option |
| `Options.LetterMeans` | cli.go:238-262 | which switch each simple letter turns on |
| `Options.ValueMeans` | cli.go:263-279 | each value letter stores its value, attached or following, over any earlier one |
| `Options.LongMeans` | cli.go:175-236 | what each plain long option turns on, and that help and version end the scan |
| `Options.AliasExactly` | cli.go:305-333 | anywhere on a command line that asks for no other edition, --bedrock and --java choose their edition and change nothing else; the default is Java |
| `Options.EditionExactly` | editions.go:33-42 | there, --edition v and --edition=v are --bedrock when the trimmed v spells bedrock in any case, --java when it spells java, and an error otherwise |
| `Options.EditionAgrees` | editions.go:33-42 | on an accepted command line the agreement with --bedrock, with --java and the error hold if and only if |
| `CliConfig.AcceptedPortFits` | bedrock.go:97-131 | for every accepted command line and address the port conversion whose error is dropped succeeds |
| `CliConfig.SplittingKeepsCommand` | cli.go:114-120 | splitting a bundle of short options gives the same command, unless the tail becomes a long option or the end-of-options mark |
| `CliConfig.VersionSplitsExactly` | cli.go:114-120 | splitting a group at the version letter keeps the command if and only if the letters behind it can be read and none of them asks for help; otherwise the command is an error, or help |
| `CliConfig.HelpSplitKeepsCommand` | cli.go:114-120 | splitting a group at the help letter keeps the command if and only if the letters behind it can be read |
| `CliConfig.MovingKeepsCommand` | cli.go:114-120 | moving the destination gives the same command |
| `Program.AcceptedSession` | cli.go:422-477 | for every accepted command line, its sessions send probes with timeouts in (0, 30 s], a positive interval apart, within count and deadline, and with a count or a deadline are over on every long enough tape |
| `Program.SessionKeepsConfig` | session.go:105-176 | a session started from a configuration keeps its own count, interval, deadline, timeout, quiet and timestamp settings |
| `Program.RunWithRuntime` | cli.go:422-477 | the whole program: what each command line leads to, with its probes, its reply lines and its exit status |
| `CommandLine.ArgsParse` | cli.go:114-385 | every sound configuration, written out as options and a destination, parses back to itself |
| `CommandLine.AcceptedExactly` | cli.go:114-385 | a configuration is what some command line is accepted with if and only if it is sound, its numbers fit 64 bits, its host has no white space at its ends and it has no port unless one was given |
| `Duration.NumeralExact` | cli.go:387-408 | for every numeral: accepted exactly when its value in nanoseconds is within 1 and 2^63 - 1 and both number parsers read it, and the result is the floor |
| `Duration.NumeralSpelt` | cli.go:387-395 | a text is read as a numeral if and only if it is a sign, digits, a point with decimals and an exponent with that numeral's parts |
| `Duration.TextExact` | cli.go:387-408 | for every text: accepted exactly when it spells a numeral in range that both number parsers read, and the result is the floor of the nanoseconds |
| `Duration.ParseSecondsExact` | cli.go:387-408 | text that spells a numeral of ordinary size is accepted exactly when its value is in range, and the result is the floor of the nanoseconds |
| `Duration.ParseSecondsMonotone` | cli.go:387-408 | text for a larger number never gives a shorter duration |
| `Duration.LongExponentExactly` | cli.go:387-391 | the text of one second with k decimals and exponent k spells a number in range, is read as one second up to k = 99999 and refused from 100000 on |
| `Duration.LongNumeralExactly` | cli.go:392-395 | the text of one second with k zeros behind the point is read as one second up to a million of them and refused beyond, by the rational parser |
| `Duration.EveryDurationGiven` | cli.go:387-408 | every duration from one nanosecond to the largest is the reading of some text |
| `Duration.FormatRoundTrip` | cmd/release-integration/main.go:596-600 | for every positive whole-millisecond duration, parsing its printed form returns it |
| `Duration.FormatIsShort` | cmd/release-integration/main.go:596-600 | what is printed has at most three decimals, no trailing zero among them and no point without decimals |
| `Destination.DestinationExactly` | editions.go:121-151 | a text parses to a target if and only if, trimmed, it is an address with or without brackets, host and decimal port with the host plain or in brackets, or a name with at most one colon, and the target has exactly those parts |
| `Destination.DestinationRoundTrip` | editions.go:50-78 | for every valid target, parsing its printed form returns it if and only if the host has no white space at its ends |
| `Destination.ExplicitRoundTrip` | editions.go:121-151 | with an explicit port, names, IPv4 and bracketed IPv6 literals all come back |
| `Destination.ImplicitRoundTrip` | editions.go:121-151 | without a port, names and literals come back |
| `Destination.ParsedIsTrimmed` | editions.go:121-151 | whatever the text, the host parsed out of it has no white space at its ends, and an implicit port is 0 |
| `Destination.ParsedRoundTrip` | editions.go:50-151 | for every text that parses to a valid target, printing the target and parsing again returns it |
| `Destination.PaddedLiteralIsLost` | editions.go:50-56 | a target made by calling newTargetSpec directly with a bracketed literal keeps the literal's outer white space and does not survive printing; the destination parser makes no such target |
| `Destination.SpaceZoneIsPadded` | endpoint.go:168-188 | a valid target with such a literal exists as soon as the address parser accepts a one-space zone |
| `Destination.PortsExactly` | editions.go:88-112 | the port is the given one, else 25565 for Java, 19132 for Bedrock and 19133 for Bedrock over IPv6 |
| `Destination.PortAlwaysFits` | editions.go:101-112 | for every valid target, address family and edition the chosen port fits 16 bits |
| `BedrockCodec.BuildStatusRequest` | bedrock.go:205-222 | appending through a reused scratch array yields the 33-byte ping for the clock reading modulo 2^64 |
| `BedrockCodec.RequestIsPing` | bedrock.go:205-222 | the bytes of a request: 1, the time, the magic, the client id |
| `BedrockCodec.PingAcceptsExactly` | internal/stagingserver/bedrock.go:136-147 | the server reads a datagram as a ping exactly when it is laid out so |
| `BedrockCodec.RequestUnderstood` | internal/stagingserver/bedrock.go:136-147 | every client request is accepted by the server's parser with the same ping time |
| `BedrockCodec.EncodeUnconnectedPong` | internal/stagingserver/bedrock.go:149-170 | yields the pong for a valid status, and refuses any other status with its error |
| `BedrockCodec.PongIsAround` | internal/stagingserver/bedrock.go:149-170 | the bytes of a pong: 0x1c, the time, server id 1, the magic, the length high byte first, the status |
| `BedrockCodec.ValidStatusExact` | internal/stagingserver/bedrock.go:36-50 | the server sends exactly UTF-8 texts of at most 65535 bytes that start with MCPE and a semicolon |
| `BedrockCodec.ProbeAcceptsExactly` | internal/stagingserver/bedrock.go:212-233 | the server's own probe accepts exactly pongs for its ping time around such a text |
| `BedrockCodec.BuildStatusResponse` | internal/stagingserver/bedrock.go:128-134 | answers exactly the valid requests, echoing their ping time |
| `BedrockCodec.PongUnderstood` | bedrock.go:232-262 | for every status the server may send, the client reads what the status text says, and refuses the pong for any other ping time |
| `BedrockCodec.ClientAcceptsExactly` | bedrock.go:232-304 | the client reports status st exactly for the datagrams laid out as a pong for its ping time around UTF-8 text whose semicolon-separated fields describe st |
| `BedrockCodec.StatusTextExact` | bedrock.go:264-304 | a text is read as st exactly when its fields are at least six, the brand first, decimal integers within 64 bits, of any sign, for protocol and players, and the rest in their places, later ones optional |
| `BedrockCodec.SplitExact` | bedrock.go:264-265 | the status text is cut at its semicolons and nowhere else |
| `BedrockCodec.StatusTextRoundTrip` | bedrock.go:264-304 | a status with any 64-bit numbers, printed field by field with any further fields, parses back to the same status |
| `BedrockCodec.ClientAcceptanceIsStricter` | internal/stagingserver/bedrock.go:212-233 | every datagram the client accepts is accepted by the server's own probe |
| `BedrockCodec.AcceptanceGap` | bedrock.go:232-304 | the client accepts a datagram if and only if the server's probe does and the status has five semicolons with readable numbers as third, fifth and sixth field |
| `BedrockCodec.ServerAcceptanceIsLooser` | internal/stagingserver/bedrock.go:36-50 | the gap is not empty: a status of brand and semicolon passes the server's check only |
| `BedrockCodec.TruncatedPongRefused` | bedrock.go:185-192 | a well-framed pong longer than the 2048-byte read buffer is never accepted cut short |

## Left out

- Sockets, DNS and SRV lookups, timers, signals, clocks and random sources: they are inputs of the model.
- The connection's deadlines, write errors and timeouts: in the two-party model writes succeed and reads fail only at the end of a stream.
- JSON decoding, UTF-8 validation, address parsing and the table of non-public prefixes: predicates handed in.
- Error texts, and which of the end-of-file errors the library returns: one error value stands for both.
- Floating-point rounding: statistics are over reals; mdev is modelled up to its square root.
- Hexadecimal floats, underscores and the words for infinity and not-a-number in durations: `Duration` reads decimal and exponent numerals.
- Command-line arguments that are not valid Unicode: text is a sequence of characters.
- The dial race with no candidate or one: there is no race to speak of.
- The failover over Bedrock candidates: a plain loop that returns the first success.
- DNS and SRV route selection, literal-IP candidates: short branching code around foreign calls.
- Banner, usage, version, summary and timestamp texts: display formatting.
- Listener set-up and shutdown, the staging server's command and its probe command, and all of the release integration besides its timeout printer.
- Duration.TextExact: a text is a decimal or exponent numeral or nothing, so it does not speak of the hexadecimal floats the program also accepts.
- Duration.FormatRoundTrip: covers whole milliseconds only and takes the float formatter as exact rounding to three places.
