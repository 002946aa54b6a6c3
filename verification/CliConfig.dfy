/**
 From the scanned switches and texts to a validated configuration, and what every accepted
 command line guarantees.
 */
module CliConfig {
  import opened Results
  import opened Text
  import opened Argv
  import opened ArgvLaws
  import Candidates
  import opened Destination
  import Duration

  const SECOND: int := 1_000_000_000
  const DEFAULT_TIMEOUT: int := 5 * SECOND
  const MAX_ALLOWED_TIMEOUT: int := 30 * SECOND

  /** The library parsers the front end consults. */
  datatype Library = Library(isIP: string -> bool, floats: Duration.FloatRange)

  datatype Config = Config(
    target: Target, edition: Edition, family: Candidates.Family, allowPrivate: bool,
    count: int, interval: int, deadline: int, timeout: int,
    quiet: bool, timestamp: bool, numeric: bool, json: bool)

  datatype Command = Probe(config: Config) | ShowVersionLine | ShowUsage | UsageError

  // ----- the parts

  function FamilyOf(raw: Raw): Option<Candidates.Family> {
    if ForceIPv4 in raw.on && ForceIPv6 in raw.on then None
    else if ForceIPv4 in raw.on then Some(Candidates.Only4)
    else if ForceIPv6 in raw.on then Some(Candidates.Only6)
    else Some(Candidates.AnyFamily)
  }

  /** Lower case as far as comparison with ASCII words goes; the Kelvin sign folds to k. */
  function LowerChar(c: char): char {
    if 'A' <= c <= 'Z' then (c as int + 32) as char else if c == '\U{212A}' then 'k' else c
  }

  function Lower(s: string): string {
    seq(|s|, k requires 0 <= k < |s| => LowerChar(s[k]))
  }

  function ParseEdition(text: string): Option<Edition> {
    var name := Lower(Trim(text));
    if name == "" || name == "java" then Some(Java)
    else if name == "bedrock" then Some(Bedrock)
    else None
  }

  function EditionOf(raw: Raw): Option<Edition> {
    var chosen := {EditionSet, JavaAlias, BedrockAlias} * raw.on;
    if |chosen| > 1 then None
    else if JavaAlias in raw.on then Some(Java)
    else if BedrockAlias in raw.on then Some(Bedrock)
    else if EditionSet in raw.on then ParseEdition(raw.edition)
    else Some(Java)
  }

  function TargetOf(raw: Raw, lib: Library): (r: Option<Target>)
    ensures r.Some? ==> SoundTarget(r.value, lib)
  {
    if raw.destination == "" then None
    else
      match ParseDestination(raw.destination, lib.isIP)
      case None => None
      case Some(t) => if ValidTarget(t, lib.isIP) then Some(t) else None
  }

  function CountOf(text: string): (r: Option<int>)
    ensures r.Some? ==> 0 <= r.value <= MAX_INT64 && (text == "" ==> r.value == 0)
  {
    if text == "" then Some(0)
    else
      match Atoi(text)
      case None => None
      case Some(n) => if n <= 0 then None else Some(n)
  }

  function DurationOf(text: string, default: int, lib: Library): (r: Option<int>)
    ensures r.Some? ==> if text == "" then r.value == default else 0 < r.value <= MAX_INT64
  {
    if text == "" then Some(default) else Duration.ParseSeconds(text, lib.floats)
  }

  function TimeoutOf(text: string, lib: Library): (r: Option<int>)
    ensures r.Some? ==> 0 < r.value <= MAX_ALLOWED_TIMEOUT
  {
    match DurationOf(text, DEFAULT_TIMEOUT, lib)
    case None => None
    case Some(d) => if d > MAX_ALLOWED_TIMEOUT then None else Some(d)
  }

  /** JSON output is for one probe at the default pace, with no display options. */
  predicate JsonConflict(raw: Raw) {
    Json in raw.on && (raw.count != "" || raw.interval != "" || raw.deadline != "" || Quiet in raw.on || Timestamp in raw.on)
  }

  // ----- the whole

  function Normalize(raw: Raw, lib: Library): Command {
    if ShowVersion in raw.on then ShowVersionLine
    else
      var family, edition, target := FamilyOf(raw), EditionOf(raw), TargetOf(raw, lib);
      var count, interval := CountOf(raw.count), DurationOf(raw.interval, SECOND, lib);
      var deadline, timeout := DurationOf(raw.deadline, 0, lib), TimeoutOf(raw.timeout, lib);
      if family.None? || edition.None? || target.None? || count.None? || interval.None? || deadline.None?
         || timeout.None? || JsonConflict(raw) then UsageError
      else Probe(Config(target.value, edition.value, family.value, AllowPrivate in raw.on,
                        count.value, interval.value, deadline.value, timeout.value,
                        Quiet in raw.on, Timestamp in raw.on, Numeric in raw.on, Json in raw.on))
  }

  function Interpret(scanned: Scanned, lib: Library): Command {
    match scanned
    case Help => ShowUsage
    case Invalid => UsageError
    case Scan(raw) => Normalize(raw, lib)
  }

  method ParseCLIConfig(args: seq<string>, lib: Library) returns (command: Command)
    ensures command == Interpret(ScanFrom(EMPTY, args), lib)
    ensures command.Probe? ==> Sound(command.config, lib)
  {
    var scanned := ScanArgv(args);
    command := Interpret(scanned, lib);
    if command.Probe? {
      NormalizedIsSound(scanned.raw, lib);
    }
  }

  // ----- what acceptance guarantees

  predicate SoundTarget(t: Target, lib: Library) {
    && Trim(t.host) != "" && ByteLength(t.host) <= 253
    && '[' !in t.host && ']' !in t.host
    && (forall c | c in t.host :: c >= ' ' && c != '\U{7F}')
    && (':' in t.host ==> lib.isIP(t.host))
    && (t.portExplicit ==> 1 <= t.port <= 65535)
  }

  predicate Sound(cfg: Config, lib: Library) {
    && cfg.interval > 0 && 0 < cfg.timeout <= 30_000_000_000
    && cfg.count >= 0 && cfg.deadline >= 0
    && SoundTarget(cfg.target, lib)
    && (cfg.json ==> cfg.interval == 1_000_000_000 && cfg.count == 0 && cfg.deadline == 0 && !cfg.quiet && !cfg.timestamp)
  }

  lemma NormalizedIsSound(raw: Raw, lib: Library)
    ensures Normalize(raw, lib).Probe? ==> Sound(Normalize(raw, lib).config, lib)
  {
  }

  /** The configuration carries what was asked for: nothing given means the default, anything
      given is parsed from its own option and from no other. */
  lemma NormalizedCarries(raw: Raw, lib: Library)
    ensures Normalize(raw, lib).Probe? ==>
            var cfg := Normalize(raw, lib).config;
            && (raw.count == "" ==> cfg.count == 0) && (raw.count != "" ==> Atoi(raw.count) == Some(cfg.count))
            && (raw.interval == "" ==> cfg.interval == 1_000_000_000)
            && (raw.interval != "" ==> Duration.ParseSeconds(raw.interval, lib.floats) == Some(cfg.interval))
            && (raw.deadline == "" ==> cfg.deadline == 0)
            && (raw.deadline != "" ==> Duration.ParseSeconds(raw.deadline, lib.floats) == Some(cfg.deadline))
            && (raw.timeout == "" ==> cfg.timeout == 5_000_000_000)
            && (raw.timeout != "" ==> Duration.ParseSeconds(raw.timeout, lib.floats) == Some(cfg.timeout))
            && ParseDestination(raw.destination, lib.isIP) == Some(cfg.target)
            && (cfg.edition == Bedrock <==>
                  BedrockAlias in raw.on || (EditionSet in raw.on && ParseEdition(raw.edition) == Some(Bedrock)))
            && (cfg.family == Candidates.Only4 <==> ForceIPv4 in raw.on)
            && (cfg.family == Candidates.Only6 <==> ForceIPv6 in raw.on)
            && (cfg.json <==> Json in raw.on) && (cfg.quiet <==> Quiet in raw.on)
            && (cfg.timestamp <==> Timestamp in raw.on) && (cfg.numeric <==> Numeric in raw.on)
            && (cfg.allowPrivate <==> AllowPrivate in raw.on)
  {
    var all := {EditionSet, JavaAlias, BedrockAlias};
    if EditionSet in raw.on && BedrockAlias in raw.on {
      TwoChosen(all * raw.on, EditionSet, BedrockAlias);
    }
    if JavaAlias in raw.on && BedrockAlias in raw.on {
      TwoChosen(all * raw.on, JavaAlias, BedrockAlias);
    }
    if EditionSet in raw.on && JavaAlias in raw.on {
      TwoChosen(all * raw.on, EditionSet, JavaAlias);
    }
  }

  /** Text of a whole number from one up, within 64 bits. */
  ghost predicate IsCount(text: string) {
    exists n :: 0 < n <= 0x7FFF_FFFF_FFFF_FFFF && IsDecimal(text, n)
  }

  /** At most one way of asking for an edition is used, and --edition names one or is blank. */
  predicate EditionClear(raw: Raw) {
    && !(JavaAlias in raw.on && BedrockAlias in raw.on)
    && (EditionSet in raw.on ==>
          JavaAlias !in raw.on && BedrockAlias !in raw.on && ParseEdition(raw.edition).Some?)
  }

  /** Each of the settings that are given can be read. */
  ghost predicate SettingsClear(raw: Raw, lib: Library) {
    && (raw.count != "" ==> IsCount(raw.count))
    && (raw.interval != "" ==> Duration.ParseSeconds(raw.interval, lib.floats).Some?)
    && (raw.deadline != "" ==> Duration.ParseSeconds(raw.deadline, lib.floats).Some?)
    && (raw.timeout != "" ==>
          var d := Duration.ParseSeconds(raw.timeout, lib.floats); d.Some? && d.value <= 30_000_000_000)
  }

  ghost predicate TargetClear(raw: Raw, lib: Library) {
    var t := ParseDestination(raw.destination, lib.isIP);
    raw.destination != "" && t.Some? && SoundTarget(t.value, lib)
  }

  /** What was scanned is accepted exactly when it asks for no contradiction and every part of it
      can be read; JSON output goes with no count, interval, deadline, quiet or timestamp option. */
  lemma NormalizesExactly(raw: Raw, lib: Library)
    requires ShowVersion !in raw.on
    ensures Normalize(raw, lib).Probe?
       <==> && !(ForceIPv4 in raw.on && ForceIPv6 in raw.on)
            && EditionClear(raw) && SettingsClear(raw, lib) && TargetClear(raw, lib)
            && (Json in raw.on ==> raw.count == raw.interval == raw.deadline == "" && raw.on !! {Quiet, Timestamp})
  {
    EditionExact(raw);
    CountExact(raw.count);
    TargetExact(raw, lib);
    TimesExact(raw, lib);
  }

  lemma EditionExact(raw: Raw)
    ensures EditionOf(raw).Some? <==> EditionClear(raw)
  {
    var chosen := {EditionSet, JavaAlias, BedrockAlias} * raw.on;
    if JavaAlias in raw.on && BedrockAlias in raw.on {
      TwoChosen(chosen, JavaAlias, BedrockAlias);
    } else if EditionSet in raw.on && JavaAlias in raw.on {
      TwoChosen(chosen, EditionSet, JavaAlias);
    } else if EditionSet in raw.on && BedrockAlias in raw.on {
      TwoChosen(chosen, EditionSet, BedrockAlias);
    } else {
      var only := if JavaAlias in raw.on then JavaAlias else if BedrockAlias in raw.on then BedrockAlias else EditionSet;
      AtMostOne(chosen, only);
    }
  }

  lemma AtMostOne(chosen: set<Switch>, a: Switch)
    requires forall b | b in chosen :: b == a
    ensures |chosen| <= 1
  {
    assert chosen <= {a};
    var rest := {a} - chosen;
    assert {a} == chosen + rest;
  }

  lemma CountExact(text: string)
    ensures CountOf(text).Some? <==> text == "" || IsCount(text)
  {
    if Atoi(text).Some? {
      AtoiExact(text, Atoi(text).value);
    }
    if n :| 0 < n <= 0x7FFF_FFFF_FFFF_FFFF && IsDecimal(text, n) {
      AtoiExact(text, n);
    }
  }

  lemma TargetExact(raw: Raw, lib: Library)
    ensures TargetOf(raw, lib).Some? <==> TargetClear(raw, lib)
  {
  }

  lemma TimesExact(raw: Raw, lib: Library)
    ensures && DurationOf(raw.interval, SECOND, lib).Some? && DurationOf(raw.deadline, 0, lib).Some?
            && TimeoutOf(raw.timeout, lib).Some? && (raw.count != "" ==> IsCount(raw.count))
       <==> SettingsClear(raw, lib)
  {
  }

  lemma TwoChosen(chosen: set<Switch>, a: Switch, b: Switch)
    requires a in chosen && b in chosen && a != b
    ensures |chosen| > 1
  {
    assert {a, b} <= chosen;
    var rest := chosen - {a, b};
    assert chosen == {a, b} + rest;
  }

  /** For every accepted command line, on every address, the port conversion whose error the
      Bedrock resolver drops succeeds. */
  lemma AcceptedPortFits(args: seq<string>, lib: Library, isV6: bool)
    ensures Interpret(ScanFrom(EMPTY, args), lib).Probe? ==>
            var t := Interpret(ScanFrom(EMPTY, args), lib).config.target;
            ToUint16(PortForAddr(t, isV6, Bedrock)) == Some(PortForAddr(t, isV6, Bedrock))
  {
    if Interpret(ScanFrom(EMPTY, args), lib).Probe? {
      var raw := ScanFrom(EMPTY, args).raw;
      PortAlwaysFits(TargetOf(raw, lib).value, isV6, Bedrock, lib.isIP);
    }
  }

  // ----- rewriting the command line

  /** Splitting a bundle of short options keeps the resulting command, unless the tail split off
      becomes a long option or the end-of-options mark. */
  lemma SplittingKeepsCommand(pre: seq<string>, letters: string, tail: string, post: seq<string>, lib: Library)
    requires Reach(EMPTY, pre).Some? && letters != "" && (forall c | c in letters :: IsSimpleLetter(c))
    requires !IsLongArgument("-" + tail, Reach(EMPTY, pre).value.destination != "")
    ensures Interpret(ScanFrom(EMPTY, Together(pre, letters, tail, post)), lib)
         == Interpret(ScanFrom(EMPTY, Apart(pre, letters, tail, post)), lib)
  {
    SplitsUnlessLong(pre, letters, tail, post);
  }

  /** Splitting at the version letter keeps the command if and only if the letters behind it can
      be read and none of them asks for help. */
  lemma VersionSplitsExactly(pre: seq<string>, letters: string, tail: string, post: seq<string>, lib: Library)
    requires Reach(EMPTY, pre).Some? && forall d | d in letters :: IsSimpleLetter(d)
    ensures Interpret(ScanFrom(EMPTY, SplitUp(pre, letters, 'V', tail, post)), lib) == ShowVersionLine
    ensures Interpret(ScanFrom(EMPTY, Bundled(pre, letters, 'V', tail, post)), lib)
         == if !Readable(tail, post) then UsageError else if AsksHelp(tail) then ShowUsage else ShowVersionLine
    ensures Interpret(ScanFrom(EMPTY, Bundled(pre, letters, 'V', tail, post)), lib)
         == Interpret(ScanFrom(EMPTY, SplitUp(pre, letters, 'V', tail, post)), lib)
       <==> Readable(tail, post) && !AsksHelp(tail)
  {
    StopSplitAnywhere(pre, letters, 'V', tail, post);
    ReadableExactly(SetFlag(SetFlags(Reach(EMPTY, pre).value, letters), 'V'), tail, post);
  }

  /** And at the help letter if and only if they can be read. */
  lemma HelpSplitKeepsCommand(pre: seq<string>, letters: string, tail: string, post: seq<string>, lib: Library)
    requires Reach(EMPTY, pre).Some? && forall d | d in letters :: IsSimpleLetter(d)
    ensures Interpret(ScanFrom(EMPTY, Bundled(pre, letters, 'h', tail, post)), lib)
         == Interpret(ScanFrom(EMPTY, SplitUp(pre, letters, 'h', tail, post)), lib)
       <==> Readable(tail, post)
  {
    HelpSplitsExactly(pre, letters, tail, post);
  }

  /** Nor does moving the destination to another boundary between options. */
  lemma MovingKeepsCommand(a: seq<seq<string>>, b: seq<seq<string>>, a': seq<seq<string>>, b': seq<seq<string>>,
                           d: string, lib: Library)
    requires a + b == a' + b' && AllUnits(a + b) && IsPlainDestination(d)
    ensures Interpret(ScanFrom(EMPTY, Flatten(a) + ([d] + Flatten(b))), lib)
         == Interpret(ScanFrom(EMPTY, Flatten(a') + ([d] + Flatten(b'))), lib)
  {
    MoveDestination(a, b, a', b', d);
  }
}
