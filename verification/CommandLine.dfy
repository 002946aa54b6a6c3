/**
 Every sound configuration can be asked for: a command line for it, and the proof that parsing
 it gives that configuration back. With CliConfig's soundness this makes acceptance exact.
 */
module CommandLine {
  import opened Results
  import opened Text
  import opened Argv
  import opened ArgvLaws
  import opened CliConfig
  import opened Destination
  import Candidates
  import Duration

  // ----- writing

  function Flag(on: bool, arg: string): seq<string> {
    if on then [arg] else []
  }

  function Value(c: char, text: string): seq<string> {
    if text == "" then [] else ["-" + [c], text]
  }

  /** The texts of the settings that are not at their defaults. */
  function CountText(cfg: Config): string {
    if cfg.count <= 0 then "" else Itoa(cfg.count)
  }

  function DurationText(d: int, default: int): string {
    if d == default || d < 0 then "" else Duration.NanosText(d)
  }

  function Values(cfg: Config, rest: seq<string>): seq<string> {
    Value('c', CountText(cfg))
    + (Value('i', DurationText(cfg.interval, SECOND))
       + (Value('w', DurationText(cfg.deadline, 0))
          + (Value('W', DurationText(cfg.timeout, DEFAULT_TIMEOUT)) + rest)))
  }

  function Letter(on: bool, c: char): string {
    if on then [c] else ""
  }

  function Letters(cfg: Config): string {
    Letter(cfg.family == Candidates.Only4, '4') + Letter(cfg.family == Candidates.Only6, '6') + Letter(cfg.quiet, 'q')
    + Letter(cfg.timestamp, 'D') + Letter(cfg.numeric, 'n') + Letter(cfg.json, 'j')
  }

  function LongFlags(cfg: Config, rest: seq<string>): seq<string> {
    Flag(cfg.edition == Bedrock, "--bedrock") + (Flag(cfg.allowPrivate, "--allow-private") + rest)
  }

  /** Options first, then the destination behind a double dash. */
  function ArgsFor(cfg: Config): seq<string> {
    LongFlags(cfg, Separate(Letters(cfg)) + Values(cfg, ["--", ToString(cfg.target)]))
  }

  // ----- reading it back

  function OnIf(raw: Raw, on: bool, s: Switch): Raw {
    if on then TurnOn(raw, s) else raw
  }

  function ValueIf(raw: Raw, c: char, text: string): Raw {
    if text == "" then raw else SetValue(raw, c, text)
  }

  lemma LongReads(raw: Raw, on: bool, name: string, s: Switch, rest: seq<string>)
    requires (name == "--bedrock" && s == BedrockAlias) || (name == "--allow-private" && s == AllowPrivate)
    requires !Stops(raw)
    ensures ScanFrom(raw, Flag(on, name) + rest) == ScanFrom(OnIf(raw, on, s), rest)
    ensures !Stops(OnIf(raw, on, s))
  {
    if on {
      var args := [name] + rest;
      assert args[0] == name && args[1..] == rest;
      NoEquals(name);
      assert name[0] == name[1] == '-' && name[2] != '-' && "--" <= name && "-" <= name;
      assert TakeTurn(raw, args) == Continue(TurnOn(raw, s), 1);
      ScanStep(raw, args);
    } else {
      assert Flag(on, name) + rest == rest;
    }
  }

  lemma NoEquals(name: string)
    requires name == "--bedrock" || name == "--allow-private"
    ensures Index(name, '=') == |name|
  {
    if name == "--bedrock" {
      assert '=' !in "--bedrock";
    } else {
      assert '=' !in "--allow-private";
    }
  }

  lemma ValueReads(raw: Raw, c: char, text: string, rest: seq<string>)
    requires IsValueLetter(c) && !Stops(raw)
    ensures ScanFrom(raw, Value(c, text) + rest) == ScanFrom(ValueIf(raw, c, text), rest)
    ensures !Stops(ValueIf(raw, c, text))
  {
    SetValueKeeps(raw, c, text, "");
    if text == "" {
      assert Value(c, text) + rest == rest;
    } else {
      var following := [text] + rest;
      assert Value(c, text) + rest == ["-" + [c]] + following;
      ShortTurn(raw, [c], following);
      assert [c][1..] == "" && !IsFlagLetter(c);
      assert ShortFlags(raw, [c], following) == Took(SetValue(raw, c, text), 2);
      assert (["-" + [c]] + following)[2..] == rest;
      ScanStep(raw, ["-" + [c]] + following);
    }
  }

  function RawLong(raw: Raw, cfg: Config): Raw {
    OnIf(OnIf(raw, cfg.edition == Bedrock, BedrockAlias), cfg.allowPrivate, AllowPrivate)
  }

  /** The switches a string of simple letters turns on. */
  function SwitchesOf(letters: string): set<Switch> {
    set c | c in letters && IsSimpleLetter(c) :: SWITCHES[c]
  }

  lemma {:induction false} FlagsTurnOn(raw: Raw, letters: string)
    requires forall c | c in letters :: IsSimpleLetter(c)
    ensures SetFlags(raw, letters) == raw.(on := raw.on + SwitchesOf(letters))
    decreases |letters|
  {
    if letters == "" {
      assert raw.on + SwitchesOf(letters) == raw.on;
    } else {
      var c, more := letters[0], letters[1..];
      assert letters == [c] + more && c in letters && IsSimpleLetter(c);
      FlagsTurnOn(SetFlag(raw, c), more);
      assert SwitchesOf(letters) == {SWITCHES[c]} + SwitchesOf(more);
      assert raw.on + {SWITCHES[c]} + SwitchesOf(more) == raw.on + SwitchesOf(letters);
    }
  }

  function RawValues(raw: Raw, cfg: Config): Raw {
    var a := ValueIf(ValueIf(raw, 'c', CountText(cfg)), 'i', DurationText(cfg.interval, SECOND));
    ValueIf(ValueIf(a, 'w', DurationText(cfg.deadline, 0)), 'W', DurationText(cfg.timeout, DEFAULT_TIMEOUT))
  }

  lemma LongFlagsRead(raw: Raw, cfg: Config, rest: seq<string>)
    requires !Stops(raw)
    ensures ScanFrom(raw, LongFlags(cfg, rest)) == ScanFrom(RawLong(raw, cfg), rest) && !Stops(RawLong(raw, cfg))
  {
    var b := OnIf(raw, cfg.edition == Bedrock, BedrockAlias);
    LongReads(raw, cfg.edition == Bedrock, "--bedrock", BedrockAlias, Flag(cfg.allowPrivate, "--allow-private") + rest);
    LongReads(b, cfg.allowPrivate, "--allow-private", AllowPrivate, rest);
  }

  lemma ValuesRead(raw: Raw, cfg: Config, rest: seq<string>)
    requires !Stops(raw)
    ensures ScanFrom(raw, Values(cfg, rest)) == ScanFrom(RawValues(raw, cfg), rest) && !Stops(RawValues(raw, cfg))
  {
    var i, w := DurationText(cfg.interval, SECOND), DurationText(cfg.deadline, 0);
    var t := DurationText(cfg.timeout, DEFAULT_TIMEOUT);
    var t3 := Value('W', t) + rest;
    var t2 := Value('w', w) + t3;
    var t1 := Value('i', i) + t2;
    var r1 := ValueIf(raw, 'c', CountText(cfg));
    var r2 := ValueIf(r1, 'i', i);
    var r3 := ValueIf(r2, 'w', w);
    ValueReads(raw, 'c', CountText(cfg), t1);
    ValueReads(r1, 'i', i, t2);
    ValueReads(r2, 'w', w, t3);
    ValueReads(r3, 'W', t, rest);
  }

  lemma LettersContain(cfg: Config, d: char)
    ensures d in Letters(cfg)
       <==> || (cfg.family == Candidates.Only4 && d == '4') || (cfg.family == Candidates.Only6 && d == '6')
            || (cfg.quiet && d == 'q') || (cfg.timestamp && d == 'D')
            || (cfg.numeric && d == 'n') || (cfg.json && d == 'j')
  {
  }

  lemma LettersAreSimple(cfg: Config)
    ensures forall c | c in Letters(cfg) :: IsSimpleLetter(c)
  {
    forall c | c in Letters(cfg)
      ensures IsSimpleLetter(c)
    {
      LettersContain(cfg, c);
    }
  }

  /** The switches and texts the scanner ends up with. */
  function RawFor(cfg: Config): Raw {
    Raw(ToString(cfg.target), "", CountText(cfg), DurationText(cfg.interval, SECOND), DurationText(cfg.deadline, 0),
        DurationText(cfg.timeout, DEFAULT_TIMEOUT), RawLong(EMPTY, cfg).on + SwitchesOf(Letters(cfg)))
  }

  lemma ValuesFill(raw: Raw, cfg: Config)
    requires raw == EMPTY.(on := raw.on)
    ensures RawValues(raw, cfg).(destination := ToString(cfg.target))
         == RawFor(cfg).(on := raw.on)
  {
  }

  lemma LastReads(raw: Raw, dest: string)
    requires raw.destination == ""
    ensures ScanFrom(raw, ["--", dest]) == Finish(raw.(destination := dest))
  {
    var last := ["--", dest];
    assert last[0] == "--" && last[1] == dest;
  }

  lemma FlagsRead(cfg: Config, rest: seq<string>)
    ensures var raw := EMPTY.(on := RawFor(cfg).on);
            ScanFrom(EMPTY, LongFlags(cfg, Separate(Letters(cfg)) + rest)) == ScanFrom(raw, rest) && !Stops(raw)
  {
    var r := RawLong(EMPTY, cfg);
    LongFlagsRead(EMPTY, cfg, Separate(Letters(cfg)) + rest);
    LettersAreSimple(cfg);
    SeparateScan(r, Letters(cfg), rest);
    FlagsTurnOn(r, Letters(cfg));
    assert r == EMPTY.(on := r.on);
  }

  lemma ValuesScan(raw: Raw, cfg: Config, dest: string)
    requires !Stops(raw) && raw.destination == ""
    ensures ScanFrom(raw, Values(cfg, ["--", dest])) == Scan(RawValues(raw, cfg).(destination := dest))
  {
    ValuesRead(raw, cfg, ["--", dest]);
    ValuesKeepDestination(raw, cfg);
    LastReads(RawValues(raw, cfg), dest);
  }

  lemma ValuesKeepDestination(raw: Raw, cfg: Config)
    ensures RawValues(raw, cfg).destination == raw.destination
  {
  }

  lemma ArgsScan(cfg: Config)
    ensures ScanFrom(EMPTY, ArgsFor(cfg)) == Scan(RawFor(cfg))
  {
    var raw := EMPTY.(on := RawFor(cfg).on);
    FlagsRead(cfg, Values(cfg, ["--", ToString(cfg.target)]));
    ValuesScan(raw, cfg, ToString(cfg.target));
    ValuesFill(raw, cfg);
  }

  // ----- the theorem

  /** What acceptance guarantees in full: a sound configuration within 64 bits, for a host without
      white space at its ends. */
  predicate Askable(cfg: Config, lib: Library) {
    && Sound(cfg, lib)
    && cfg.count <= MAX_INT64 && cfg.interval <= MAX_INT64 && cfg.deadline <= MAX_INT64
    && Trimmed(cfg.target.host) && (!cfg.target.portExplicit ==> cfg.target.port == 0)
  }

  lemma DurationReadsBack(d: int, default: int, lib: Library)
    requires lib.floats.Valid() && (d == default || 1 <= d <= MAX_INT64)
    ensures DurationOf(DurationText(d, default), default, lib) == Some(d)
  {
    if d != default {
      Duration.EveryDurationGiven(d, lib.floats);
    }
  }

  lemma TargetReadsBack(cfg: Config, lib: Library)
    requires Askable(cfg, lib) && AddressSyntax(lib.isIP)
    ensures TargetOf(RawFor(cfg), lib) == Some(cfg.target)
  {
    DestinationRoundTrip(cfg.target, lib.isIP);
  }

  lemma SwitchOfLetter(letters: string, c: char)
    requires IsSimpleLetter(c) && forall d | d in letters :: IsSimpleLetter(d)
    ensures SWITCHES[c] in SwitchesOf(letters) <==> c in letters
  {
    forall d | d in letters && SWITCHES[d] == SWITCHES[c]
      ensures d == c
    {
      DistinctSwitches(c, d);
    }
  }

  lemma DistinctSwitches(c: char, d: char)
    requires IsSimpleLetter(c) && IsSimpleLetter(d) && SWITCHES[d] == SWITCHES[c]
    ensures c == d
  {
  }

  /** Simple letters turn on none of the other switches. */
  lemma OtherSwitches(letters: string)
    requires forall c | c in letters :: IsSimpleLetter(c)
    ensures SwitchesOf(letters) !! {EditionSet, JavaAlias, BedrockAlias, AllowPrivate, ShowHelp, ShowVersion}
  {
  }

  lemma LettersReadBack(cfg: Config)
    ensures var on := SwitchesOf(Letters(cfg));
            && (ForceIPv4 in on <==> cfg.family == Candidates.Only4)
            && (ForceIPv6 in on <==> cfg.family == Candidates.Only6)
            && (Quiet in on <==> cfg.quiet) && (Timestamp in on <==> cfg.timestamp)
            && (Numeric in on <==> cfg.numeric) && (Json in on <==> cfg.json)
            && AllowPrivate !in on && BedrockAlias !in on && EditionSet !in on && JavaAlias !in on && ShowVersion !in on
  {
    LettersAreSimple(cfg);
    forall d: char {
      LettersContain(cfg, d);
    }
    OtherSwitches(Letters(cfg));
    LetterSwitches(Letters(cfg));
  }

  lemma LongReadsBack(cfg: Config)
    ensures var on := RawLong(EMPTY, cfg).on;
            on == (if cfg.edition == Bedrock then {BedrockAlias} else {})
                + (if cfg.allowPrivate then {AllowPrivate} else {})
  {
  }

  /** Which letter turns on which switch. */
  lemma LetterSwitches(letters: string)
    requires forall d | d in letters :: IsSimpleLetter(d)
    ensures var on := SwitchesOf(letters);
            && (ForceIPv4 in on <==> '4' in letters) && (ForceIPv6 in on <==> '6' in letters)
            && (Quiet in on <==> 'q' in letters) && (Timestamp in on <==> 'D' in letters)
            && (Numeric in on <==> 'n' in letters) && (Json in on <==> 'j' in letters)
  {
    SwitchOfLetter(letters, '4');
    SwitchOfLetter(letters, '6');
    SwitchOfLetter(letters, 'q');
    SwitchOfLetter(letters, 'D');
    SwitchOfLetter(letters, 'n');
    SwitchOfLetter(letters, 'j');
  }

  lemma SwitchesReadBack(cfg: Config)
    ensures var on := RawFor(cfg).on;
            && (ForceIPv4 in on <==> cfg.family == Candidates.Only4)
            && (ForceIPv6 in on <==> cfg.family == Candidates.Only6)
            && (Quiet in on <==> cfg.quiet) && (Timestamp in on <==> cfg.timestamp)
            && (Numeric in on <==> cfg.numeric) && (Json in on <==> cfg.json)
            && (AllowPrivate in on <==> cfg.allowPrivate) && (BedrockAlias in on <==> cfg.edition == Bedrock)
            && EditionSet !in on && JavaAlias !in on && ShowVersion !in on
  {
    LongReadsBack(cfg);
    LettersReadBack(cfg);
  }

  lemma EditionReadsBack(raw: Raw, edition: Edition)
    requires EditionSet !in raw.on && JavaAlias !in raw.on && (BedrockAlias in raw.on <==> edition == Bedrock)
    ensures EditionOf(raw) == Some(edition)
  {
    assert {EditionSet, JavaAlias, BedrockAlias} * raw.on == if edition == Bedrock then {BedrockAlias} else {};
  }

  lemma Assembled(raw: Raw, cfg: Config, lib: Library)
    requires ShowVersion !in raw.on && FamilyOf(raw) == Some(cfg.family) && EditionOf(raw) == Some(cfg.edition)
    requires TargetOf(raw, lib) == Some(cfg.target) && CountOf(raw.count) == Some(cfg.count)
    requires DurationOf(raw.interval, SECOND, lib) == Some(cfg.interval)
    requires DurationOf(raw.deadline, 0, lib) == Some(cfg.deadline) && TimeoutOf(raw.timeout, lib) == Some(cfg.timeout)
    requires (Quiet in raw.on <==> cfg.quiet) && (Timestamp in raw.on <==> cfg.timestamp)
    requires (Numeric in raw.on <==> cfg.numeric) && (Json in raw.on <==> cfg.json)
    requires (AllowPrivate in raw.on <==> cfg.allowPrivate) && !JsonConflict(raw)
    ensures Normalize(raw, lib) == Probe(cfg)
  {
  }

  lemma TimesReadBack(cfg: Config, lib: Library)
    requires Askable(cfg, lib) && lib.floats.Valid()
    ensures DurationOf(DurationText(cfg.interval, SECOND), SECOND, lib) == Some(cfg.interval)
    ensures DurationOf(DurationText(cfg.deadline, 0), 0, lib) == Some(cfg.deadline)
    ensures TimeoutOf(DurationText(cfg.timeout, DEFAULT_TIMEOUT), lib) == Some(cfg.timeout)
  {
    DurationReadsBack(cfg.interval, SECOND, lib);
    DurationReadsBack(cfg.deadline, 0, lib);
    DurationReadsBack(cfg.timeout, DEFAULT_TIMEOUT, lib);
  }

  lemma CountReadsBack(cfg: Config)
    requires 0 <= cfg.count <= MAX_INT64
    ensures CountOf(CountText(cfg)) == Some(cfg.count)
  {
    if cfg.count > 0 {
      AtoiOfItoa(cfg.count);
    }
  }

  lemma SettingsReadBack(cfg: Config, lib: Library)
    requires Askable(cfg, lib) && lib.floats.Valid()
    ensures var raw := RawFor(cfg);
            && CountOf(raw.count) == Some(cfg.count) && DurationOf(raw.interval, SECOND, lib) == Some(cfg.interval)
            && DurationOf(raw.deadline, 0, lib) == Some(cfg.deadline) && TimeoutOf(raw.timeout, lib) == Some(cfg.timeout)
            && (cfg.json ==> raw.count == raw.interval == raw.deadline == "")
  {
    TimesReadBack(cfg, lib);
    CountReadsBack(cfg);
  }

  lemma RawNormalizes(cfg: Config, lib: Library)
    requires Askable(cfg, lib) && AddressSyntax(lib.isIP) && lib.floats.Valid()
    ensures Normalize(RawFor(cfg), lib) == Probe(cfg)
  {
    SwitchesReadBack(cfg);
    EditionReadsBack(RawFor(cfg), cfg.edition);
    TargetReadsBack(cfg, lib);
    SettingsReadBack(cfg, lib);
    Assembled(RawFor(cfg), cfg, lib);
  }

  /** Every such configuration is what some command line asks for. */
  lemma ArgsParse(cfg: Config, lib: Library)
    requires Askable(cfg, lib) && AddressSyntax(lib.isIP) && lib.floats.Valid()
    ensures Interpret(ScanFrom(EMPTY, ArgsFor(cfg)), lib) == Probe(cfg)
  {
    ArgsScan(cfg);
    RawNormalizes(cfg, lib);
  }

  lemma AcceptedNumbers(raw: Raw, lib: Library)
    requires Normalize(raw, lib).Probe?
    ensures var cfg := Normalize(raw, lib).config;
            cfg.count <= MAX_INT64 && cfg.interval <= MAX_INT64 && cfg.deadline <= MAX_INT64
  {
  }

  lemma AcceptedTarget(raw: Raw, lib: Library)
    requires AddressSyntax(lib.isIP) && TargetOf(raw, lib).Some?
    ensures var t := TargetOf(raw, lib).value;
            Trimmed(t.host) && (!t.portExplicit ==> t.port == 0)
  {
    ParsedIsTrimmed(raw.destination, lib.isIP);
  }

  lemma AcceptedIsAskable(raw: Raw, lib: Library)
    requires AddressSyntax(lib.isIP) && Normalize(raw, lib).Probe?
    ensures Askable(Normalize(raw, lib).config, lib)
  {
    NormalizedIsSound(raw, lib);
    AcceptedNumbers(raw, lib);
    AcceptedTarget(raw, lib);
  }

  /** The configurations some command line is accepted with are exactly these. */
  lemma AcceptedExactly(cfg: Config, lib: Library)
    requires AddressSyntax(lib.isIP) && lib.floats.Valid()
    ensures (exists args :: Interpret(ScanFrom(EMPTY, args), lib) == Probe(cfg)) <==> Askable(cfg, lib)
  {
    if args :| Interpret(ScanFrom(EMPTY, args), lib) == Probe(cfg) {
      AcceptedIsAskable(ScanFrom(EMPTY, args).raw, lib);
    }
    if Askable(cfg, lib) {
      ArgsParse(cfg, lib);
    }
  }
}
