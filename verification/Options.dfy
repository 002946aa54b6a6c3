/**
 What each option means, whatever stands before and behind it on the command line.
 */
module Options {
  import opened Results
  import opened Text
  import opened Argv
  import opened ArgvLaws
  import opened CliConfig
  import opened Destination

  // ----- one option in front of the rest

  /** The switches of the letters that neither take a value nor stop the scan. */
  lemma LetterMeans(raw: Raw, c: char, rest: seq<string>)
    requires !Stops(raw) && c in {'4', '6', 'q', 'D', 'n', 'j'}
    ensures var s := match c
                     case '4' => ForceIPv4 case '6' => ForceIPv6 case 'q' => Quiet
                     case 'D' => Timestamp case 'n' => Numeric case _ => Json;
            ScanFrom(raw, ["-" + [c]] + rest) == ScanFrom(raw.(on := raw.on + {s}), rest)
  {
    OneLetter(raw, c, rest);
    ScanStep(raw, ["-" + [c]] + rest);
    assert (["-" + [c]] + rest)[1..] == rest;
  }

  function Stored(raw: Raw, c: char, value: string): Raw {
    if c == 'c' then raw.(count := value)
    else if c == 'i' then raw.(interval := value)
    else if c == 'w' then raw.(deadline := value)
    else raw.(timeout := value)
  }

  /** A value letter stores its value, attached or in the next argument, over any earlier one;
      an attached value is not empty. */
  lemma ValueMeans(raw: Raw, c: char, value: string, rest: seq<string>)
    requires !Stops(raw) && c in {'c', 'i', 'w', 'W'}
    ensures ScanFrom(raw, ["-" + [c], value] + rest) == ScanFrom(Stored(raw, c, value), rest)
    ensures value != "" ==> ScanFrom(raw, ["-" + ([c] + value)] + rest) == ScanFrom(Stored(raw, c, value), rest)
    ensures ScanFrom(raw, ["-" + [c]]) == Invalid
  {
    ValueFollows(raw, c, value, rest);
    if value != "" {
      ValueAttached(raw, c, value, rest);
    }
    ShortTurn(raw, [c], []);
    assert ["-" + [c]] + [] == ["-" + [c]];
  }

  lemma ValueFollows(raw: Raw, c: char, value: string, rest: seq<string>)
    requires !Stops(raw) && c in {'c', 'i', 'w', 'W'}
    ensures ScanFrom(raw, ["-" + [c], value] + rest) == ScanFrom(Stored(raw, c, value), rest)
  {
    var following := [value] + rest;
    var args := ["-" + [c]] + following;
    assert ["-" + [c], value] + rest == args && args[2..] == rest;
    ShortTurn(raw, [c], following);
    assert [c][1..] == "";
    SetValueKeeps(raw, c, value, "");
    ScanStep(raw, args);
  }

  lemma ValueAttached(raw: Raw, c: char, value: string, rest: seq<string>)
    requires !Stops(raw) && c in {'c', 'i', 'w', 'W'} && value != ""
    ensures ScanFrom(raw, ["-" + ([c] + value)] + rest) == ScanFrom(Stored(raw, c, value), rest)
  {
    var args := ["-" + ([c] + value)] + rest;
    assert ([c] + value)[1..] == value && args[1..] == rest;
    ShortTurn(raw, [c] + value, rest);
    SetValueKeeps(raw, c, value, "");
    ScanStep(raw, args);
  }

  lemma PlainTurn(raw: Raw, name: string, rest: seq<string>)
    requires name in PLAIN_NAMES
    ensures TakeTurn(raw, [name] + rest)
         == match PlainLongFlag(raw, name, rest)
            case Refused => Stop(Invalid)
            case Took(next, used) => if Stops(next) then Stop(Finish(next)) else Continue(next, used)
  {
    var tail := name[1..];
    assert tail[0] == '-' && name == "-" + tail;
    LongTurn(raw, tail, rest);
    NamesHoldNoEquals(name);
    IndexAbsent(name, '=');
  }

  /** The long options without a value. */
  lemma LongMeans(raw: Raw, rest: seq<string>)
    requires !Stops(raw)
    ensures ScanFrom(raw, ["--java"] + rest) == ScanFrom(raw.(on := raw.on + {JavaAlias}), rest)
    ensures ScanFrom(raw, ["--bedrock"] + rest) == ScanFrom(raw.(on := raw.on + {BedrockAlias}), rest)
    ensures ScanFrom(raw, ["--allow-private"] + rest) == ScanFrom(raw.(on := raw.on + {AllowPrivate}), rest)
    ensures ScanFrom(raw, ["--help"] + rest) == Help
    ensures ScanFrom(raw, ["--version"] + rest) == Scan(raw.(on := raw.on + {ShowVersion}))
  {
    SwitchTurn(raw, "--java", JavaAlias, rest);
    SwitchTurn(raw, "--bedrock", BedrockAlias, rest);
    SwitchTurn(raw, "--allow-private", AllowPrivate, rest);
    PlainTurn(raw, "--help", rest);
    PlainTurn(raw, "--version", rest);
  }

  lemma SwitchTurn(raw: Raw, name: string, s: Switch, rest: seq<string>)
    requires !Stops(raw) && name in PLAIN_NAMES && s != ShowHelp && s != ShowVersion
    requires PlainLongFlag(raw, name, rest) == Took(TurnOn(raw, s), 1)
    ensures ScanFrom(raw, [name] + rest) == ScanFrom(raw.(on := raw.on + {s}), rest)
  {
    PlainTurn(raw, name, rest);
    ScanStep(raw, [name] + rest);
    assert ([name] + rest)[1..] == rest;
  }

  // ----- the edition

  /** --edition with its value, inline or following. */
  lemma EditionMeans(raw: Raw, v: string, rest: seq<string>)
    requires !Stops(raw) && Trim(v) != ""
    ensures ScanFrom(raw, ["--edition", v] + rest) == ScanFrom(raw.(edition := v, on := raw.on + {EditionSet}), rest)
    ensures ScanFrom(raw, ["--edition=" + v] + rest) == ScanFrom(raw.(edition := v, on := raw.on + {EditionSet}), rest)
  {
    EditionFollows(raw, v, rest);
    EditionInline(raw, v, rest);
  }

  lemma EditionFollows(raw: Raw, v: string, rest: seq<string>)
    requires !Stops(raw) && Trim(v) != ""
    ensures ScanFrom(raw, ["--edition", v] + rest) == ScanFrom(raw.(edition := v, on := raw.on + {EditionSet}), rest)
  {
    var args := [EDITION] + ([v] + rest);
    assert [EDITION, v] + rest == args && args[2..] == rest;
    EditionTurn(raw, v, rest);
    ScanStep(raw, args);
  }

  lemma EditionTurn(raw: Raw, v: string, rest: seq<string>)
    requires !Stops(raw) && Trim(v) != ""
    ensures TakeTurn(raw, [EDITION] + ([v] + rest)) == Continue(raw.(edition := v, on := raw.on + {EditionSet}), 2)
  {
    var tail := EDITION[1..];
    assert tail[0] == '-' && EDITION == "-" + tail;
    LongTurn(raw, tail, [v] + rest);
    NamesHoldNoEquals(EDITION);
    IndexAbsent(EDITION, '=');
  }

  lemma EditionInline(raw: Raw, v: string, rest: seq<string>)
    requires !Stops(raw) && Trim(v) != ""
    ensures ScanFrom(raw, ["--edition=" + v] + rest) == ScanFrom(raw.(edition := v, on := raw.on + {EditionSet}), rest)
  {
    var arg := EDITION + "=" + v;
    InlineValue(v);
    assert "--edition=" == EDITION + "=";
    var tail := arg[1..];
    assert tail[0] == arg[1] == (EDITION + "=")[1] == '-' && arg == "-" + tail;
    LongTurn(raw, tail, rest);
    assert LongFlag(raw, arg, rest) == EditionFlag(raw, v, 1);
    ScanStep(raw, [arg] + rest);
    assert ([arg] + rest)[1..] == rest;
  }

  lemma InlineValue(v: string)
    ensures var arg := EDITION + "=" + v;
            && Index(arg, '=') == |EDITION| < |arg| && arg[..|EDITION|] == EDITION && arg[|EDITION| + 1..] == v
  {
    var arg := EDITION + "=" + v;
    assert arg[|EDITION|] == '=' && arg[..|EDITION|] == EDITION;
    NamesHoldNoEquals(EDITION);
    FirstEquals(arg, EDITION);
  }

  const EDITION_SWITCHES: set<Switch> := {EditionSet, JavaAlias, BedrockAlias}

  /** What has been read, with an edition asked for as well. */
  function With(raw: Raw, edition: string, s: Switch): Raw {
    raw.(edition := edition, on := raw.on + {s})
  }

  lemma {:induction false} ShortBeside(raw: Raw, letters: string, following: seq<string>, e: string, s: Switch)
    requires s in EDITION_SWITCHES
    ensures ShortFlags(With(raw, e, s), letters, following)
         == match ShortFlags(raw, letters, following)
            case Refused => Refused
            case Took(next, used) => Took(With(next, e, s), used)
    decreases |letters|
  {
    if letters != "" && IsFlagLetter(letters[0]) {
      var c := letters[0];
      assert raw.on + {s} + {SWITCHES[c]} == raw.on + {SWITCHES[c]} + {s};
      ShortBeside(SetFlag(raw, c), letters[1..], following, e, s);
    }
  }

  lemma PlainBeside(raw: Raw, name: string, following: seq<string>, e: string, s: Switch)
    requires s in EDITION_SWITCHES && name != EDITION
    ensures PlainLongFlag(With(raw, e, s), name, following)
         == match PlainLongFlag(raw, name, following)
            case Refused => Refused
            case Took(next, used) => Took(With(next, e, s), used)
  {
    forall x: Switch
      ensures TurnOn(With(raw, e, s), x) == With(TurnOn(raw, x), e, s)
    {
      assert raw.on + {s} + {x} == raw.on + {x} + {s};
    }
  }

  lemma LongBeside(raw: Raw, arg: string, following: seq<string>, e: string, s: Switch)
    requires s in EDITION_SWITCHES
    requires var r := LongFlag(raw, arg, following); r.Took? ==> EditionSet !in r.raw.on
    ensures LongFlag(With(raw, e, s), arg, following)
         == match LongFlag(raw, arg, following)
            case Refused => Refused
            case Took(next, used) => Took(With(next, e, s), used)
  {
    if arg != EDITION {
      PlainBeside(raw, arg, following, e, s);
    }
  }

  /** The marked state of one turn. */
  function TurnWith(t: Turn, e: string, s: Switch): Turn {
    match t
    case Continue(next, used) => Continue(With(next, e, s), used)
    case Stop(result) => Stop(ScannedWith(result, e, s))
  }

  function ScannedWith(scanned: Scanned, e: string, s: Switch): Scanned {
    if scanned.Scan? then Scan(With(scanned.raw, e, s)) else scanned
  }

  /** No edition has been set by the end of a turn. */
  predicate NoneSet(t: Turn) {
    match t
    case Continue(next, _) => EditionSet !in next.on
    case Stop(result) => result.Scan? ==> EditionSet !in result.raw.on
  }

  lemma OptionBeside(raw: Raw, arg: string, following: seq<string>, e: string, s: Switch)
    requires s in EDITION_SWITCHES && IsOption(arg)
    requires var r := ReadOption(raw, arg, following); r.Took? ==> EditionSet !in r.raw.on
    ensures ReadOption(With(raw, e, s), arg, following)
         == match ReadOption(raw, arg, following)
            case Refused => Refused
            case Took(next, used) => Took(With(next, e, s), used)
  {
    if HasPrefix(arg, "--") {
      LongBeside(raw, arg, following, e, s);
    } else {
      ShortBeside(raw, arg[1..], following, e, s);
    }
  }

  lemma WithKeeps(raw: Raw, e: string, s: Switch)
    requires s in EDITION_SWITCHES
    ensures Stops(With(raw, e, s)) == Stops(raw) && Finish(With(raw, e, s)) == ScannedWith(Finish(raw), e, s)
    ensures forall d :: With(raw, e, s).(destination := d) == With(raw.(destination := d), e, s)
  {
  }

  /** A help text asked for in the option stops the scan with or without an edition. */
  lemma HelpUnset(raw: Raw, arg: string, following: seq<string>)
    requires IsOption(arg) && EditionSet !in raw.on
    requires var r := ReadOption(raw, arg, following); r.Took? && Stops(r.raw) && !Stops(raw)
    ensures EditionSet !in ReadOption(raw, arg, following).raw.on
  {
    if HasPrefix(arg, "--") {
      LongStops(raw, arg, following);
    } else {
      ShortUnset(raw, arg[1..], following);
    }
  }

  lemma LongStops(raw: Raw, arg: string, following: seq<string>)
    requires EditionSet !in raw.on && !Stops(raw)
    ensures var r := LongFlag(raw, arg, following); r.Took? && Stops(r.raw) ==> EditionSet !in r.raw.on
  {
  }

  lemma {:induction false} ShortUnset(raw: Raw, letters: string, following: seq<string>)
    ensures var r := ShortFlags(raw, letters, following);
            r.Took? ==> raw.on <= r.raw.on && (EditionSet in r.raw.on <==> EditionSet in raw.on)
    decreases |letters|
  {
    if letters != "" && IsFlagLetter(letters[0]) {
      ShortUnset(SetFlag(raw, letters[0]), letters[1..], following);
    }
  }

  /** Switches are never turned off. */
  lemma OptionGrows(raw: Raw, arg: string, following: seq<string>)
    requires IsOption(arg)
    ensures var r := ReadOption(raw, arg, following); r.Took? ==> raw.on <= r.raw.on
  {
    if !HasPrefix(arg, "--") {
      ShortUnset(raw, arg[1..], following);
    }
  }

  lemma TurnBeside(raw: Raw, args: seq<string>, e: string, s: Switch)
    requires args != [] && s in EDITION_SWITCHES && EditionSet !in raw.on && !Stops(raw) && NoneSet(TakeTurn(raw, args))
    ensures TakeTurn(With(raw, e, s), args) == TurnWith(TakeTurn(raw, args), e, s)
  {
    var arg := args[0];
    WithKeeps(raw, e, s);
    if IsOption(arg) && arg != "--" {
      var r := ReadOption(raw, arg, args[1..]);
      if r.Took? && Stops(r.raw) {
        HelpUnset(raw, arg, args[1..]);
      }
      OptionBeside(raw, arg, args[1..], e, s);
      if r.Took? {
        WithKeeps(r.raw, e, s);
      }
    } else if arg == "--" && |args| == 2 {
      WithKeeps(raw.(destination := args[1]), e, s);
    }
  }

  lemma TurnGrows(raw: Raw, args: seq<string>)
    requires args != []
    ensures var t := TakeTurn(raw, args);
            if t.Continue? then raw.on <= t.raw.on else t.result.Scan? ==> raw.on <= t.result.raw.on
  {
    if IsOption(args[0]) {
      OptionGrows(raw, args[0], args[1..]);
    }
  }

  lemma {:induction false} ScanGrows(raw: Raw, args: seq<string>)
    ensures ScanFrom(raw, args).Scan? ==> raw.on <= ScanFrom(raw, args).raw.on
    decreases |args|
  {
    if args != [] {
      TurnGrows(raw, args);
      ScanStep(raw, args);
      var t := TakeTurn(raw, args);
      if t.Continue? {
        ScanGrows(t.raw, args[t.used..]);
      }
    }
  }

  /** Asking for an edition, too, changes nothing else, as long as no other --edition follows. */
  lemma {:induction false} ScanBeside(raw: Raw, args: seq<string>, e: string, s: Switch)
    requires s in EDITION_SWITCHES && !Stops(raw)
    requires ScanFrom(raw, args).Scan? && EditionSet !in ScanFrom(raw, args).raw.on
    ensures ScanFrom(With(raw, e, s), args) == Scan(With(ScanFrom(raw, args).raw, e, s))
    decreases |args|
  {
    ScanGrows(raw, args);
    if args == [] {
      WithKeeps(raw, e, s);
    } else {
      ScanStep(raw, args);
      ScanStep(With(raw, e, s), args);
      var t := TakeTurn(raw, args);
      if t.Continue? {
        ScanGrows(t.raw, args[t.used..]);
        TurnBeside(raw, args, e, s);
        TurnRuns(raw, args);
        ScanBeside(t.raw, args[t.used..], e, s);
      } else {
        TurnBeside(raw, args, e, s);
      }
    }
  }

  lemma TurnRuns(raw: Raw, args: seq<string>)
    requires args != [] && !Stops(raw) && TakeTurn(raw, args).Continue?
    ensures !Stops(TakeTurn(raw, args).raw)
  {
  }

  // ----- which edition that is

  /** "bedrock" in any mixture of capital and small letters; the Kelvin sign is a capital k. */
  predicate SpellsBedrock(s: string) {
    && |s| == 7 && s[0] in {'b', 'B'} && s[1] in {'e', 'E'} && s[2] in {'d', 'D'} && s[3] in {'r', 'R'}
    && s[4] in {'o', 'O'} && s[5] in {'c', 'C'} && s[6] in {'k', 'K', '\U{212A}'}
  }

  predicate SpellsJava(s: string) {
    |s| == 4 && s[0] in {'j', 'J'} && s[1] in {'a', 'A'} && s[2] in {'v', 'V'} && s[3] in {'a', 'A'}
  }

  lemma LowerBedrock(s: string)
    ensures Lower(s) == "bedrock" <==> SpellsBedrock(s)
  {
    var w := "bedrock";
    if |s| == 7 {
      assert Lower(s) == w <==> forall k | 0 <= k < 7 :: LowerChar(s[k]) == w[k] by {
        assert forall k | 0 <= k < 7 :: Lower(s)[k] == LowerChar(s[k]);
      }
      assert w[0] == 'b' && w[1] == 'e' && w[2] == 'd' && w[3] == 'r' && w[4] == 'o' && w[5] == 'c' && w[6] == 'k';
    }
  }

  lemma LowerJava(s: string)
    ensures Lower(s) == "java" <==> SpellsJava(s)
  {
    var w := "java";
    if |s| == 4 {
      assert Lower(s) == w <==> forall k | 0 <= k < 4 :: LowerChar(s[k]) == w[k] by {
        assert forall k | 0 <= k < 4 :: Lower(s)[k] == LowerChar(s[k]);
      }
      assert w[0] == 'j' && w[1] == 'a' && w[2] == 'v' && w[3] == 'a';
    }
  }

  /** The edition a value names, if it names one. */
  function Named(v: string): Option<Edition> {
    if SpellsBedrock(Trim(v)) then Some(Bedrock) else if SpellsJava(Trim(v)) then Some(Java) else None
  }

  lemma ParseEditionMeans(v: string)
    requires Trim(v) != ""
    ensures ParseEdition(v) == Named(v)
  {
    LowerBedrock(Trim(v));
    LowerJava(Trim(v));
  }

  /** The command with its edition replaced. */
  function InEdition(command: Command, edition: Option<Edition>): Command {
    match command
    case Probe(cfg) => if edition.None? then UsageError else Probe(cfg.(edition := edition.value))
    case _ => command
  }

  lemma EditionWith(raw: Raw, e: string, s: Switch)
    requires raw.on !! EDITION_SWITCHES && s in EDITION_SWITCHES
    ensures EditionOf(With(raw, e, s))
         == if s == JavaAlias then Some(Java) else if s == BedrockAlias then Some(Bedrock) else ParseEdition(e)
    ensures EditionOf(raw) == Some(Java)
  {
    assert EDITION_SWITCHES * (raw.on + {s}) == {s};
    assert EDITION_SWITCHES * raw.on == {};
  }

  lemma OthersKept(raw: Raw, e: string, s: Switch, lib: Library)
    requires s in EDITION_SWITCHES
    ensures var w := With(raw, e, s);
            && FamilyOf(w) == FamilyOf(raw) && TargetOf(w, lib) == TargetOf(raw, lib)
            && JsonConflict(w) == JsonConflict(raw)
            && forall x | x !in EDITION_SWITCHES :: x in w.on <==> x in raw.on
  {
  }

  lemma NormalizeWith(raw: Raw, e: string, s: Switch, lib: Library)
    requires raw.on !! EDITION_SWITCHES && s in EDITION_SWITCHES
    ensures Normalize(With(raw, e, s), lib) == InEdition(Normalize(raw, lib), EditionOf(With(raw, e, s)))
  {
    EditionWith(raw, e, s);
    OthersKept(raw, e, s, lib);
  }

  /** A command line on which no edition is asked for, up to some boundary between options and
      from there on, and the command it gives. */
  ghost predicate Unset(pre: seq<string>, post: seq<string>) {
    && Reach(EMPTY, pre).Some?
    && var base := ScanFrom(EMPTY, pre + post); base.Scan? && base.raw.on !! EDITION_SWITCHES
  }

  lemma InsertEdition(pre: seq<string>, option: seq<string>, post: seq<string>, e: string, s: Switch, lib: Library)
    requires Unset(pre, post) && s in EDITION_SWITCHES
    requires var raw := Reach(EMPTY, pre).value; ScanFrom(raw, option + post) == ScanFrom(With(raw, e, s), post)
    ensures Interpret(ScanFrom(EMPTY, pre + (option + post)), lib)
         == InEdition(Interpret(ScanFrom(EMPTY, pre + post), lib),
                      if s == JavaAlias then Some(Java) else if s == BedrockAlias then Some(Bedrock)
                      else ParseEdition(e))
  {
    var raw := Reach(EMPTY, pre).value;
    ReachRunning(EMPTY, pre);
    ReachThenScan(EMPTY, pre, option + post);
    ReachThenScan(EMPTY, pre, post);
    ScanBeside(raw, post, e, s);
    var base := ScanFrom(EMPTY, pre + post).raw;
    NormalizeWith(base, e, s, lib);
    EditionWith(base, e, s);
  }

  lemma InsertAlias(pre: seq<string>, name: string, post: seq<string>, s: Switch, edition: Edition, lib: Library)
    requires Unset(pre, post)
    requires (name == "--java" && s == JavaAlias && edition == Java)
          || (name == "--bedrock" && s == BedrockAlias && edition == Bedrock)
    ensures Interpret(ScanFrom(EMPTY, pre + ([name] + post)), lib)
         == InEdition(Interpret(ScanFrom(EMPTY, pre + post), lib), Some(edition))
  {
    var raw := Reach(EMPTY, pre).value;
    ReachRunning(EMPTY, pre);
    LongMeans(raw, post);
    assert raw.(on := raw.on + {s}) == With(raw, raw.edition, s);
    InsertEdition(pre, [name], post, raw.edition, s, lib);
  }

  lemma DefaultIsJava(raw: Raw, lib: Library)
    requires raw.on !! EDITION_SWITCHES
    ensures InEdition(Normalize(raw, lib), Some(Java)) == Normalize(raw, lib)
  {
    EditionWith(raw, "", JavaAlias);
  }

  /** Anywhere on a command line that asks for no other edition: --bedrock and --java choose their
      edition and change nothing else, and without them the edition is Java. */
  lemma AliasExactly(pre: seq<string>, post: seq<string>, lib: Library)
    requires Unset(pre, post)
    ensures var base := Interpret(ScanFrom(EMPTY, pre + post), lib);
            && InEdition(base, Some(Java)) == base
            && Interpret(ScanFrom(EMPTY, pre + (["--java"] + post)), lib) == InEdition(base, Some(Java))
            && Interpret(ScanFrom(EMPTY, pre + (["--bedrock"] + post)), lib) == InEdition(base, Some(Bedrock))
  {
    InsertAlias(pre, "--java", post, JavaAlias, Java, lib);
    InsertAlias(pre, "--bedrock", post, BedrockAlias, Bedrock, lib);
    DefaultIsJava(ScanFrom(EMPTY, pre + post).raw, lib);
  }

  /** And --edition v, or --edition=v, is --bedrock when v, trimmed, spells bedrock in whatever
      case, --java when it spells java, and an error otherwise. */
  lemma EditionExactly(pre: seq<string>, post: seq<string>, v: string, lib: Library)
    requires Unset(pre, post) && Trim(v) != ""
    ensures var base := Interpret(ScanFrom(EMPTY, pre + post), lib);
            && Interpret(ScanFrom(EMPTY, pre + (["--edition", v] + post)), lib) == InEdition(base, Named(v))
            && Interpret(ScanFrom(EMPTY, pre + (["--edition=" + v] + post)), lib) == InEdition(base, Named(v))
  {
    var raw := Reach(EMPTY, pre).value;
    ReachRunning(EMPTY, pre);
    EditionMeans(raw, v, post);
    ParseEditionMeans(v);
    InsertEdition(pre, ["--edition", v], post, v, EditionSet, lib);
    InsertEdition(pre, ["--edition=" + v], post, v, EditionSet, lib);
  }

  /** So for an accepted command line the two options agree if and only if the value names that
      edition, and any other value is an error. */
  lemma EditionAgrees(pre: seq<string>, post: seq<string>, v: string, lib: Library)
    requires Unset(pre, post) && Trim(v) != "" && Interpret(ScanFrom(EMPTY, pre + post), lib).Probe?
    ensures var command := Interpret(ScanFrom(EMPTY, pre + (["--edition", v] + post)), lib);
            && (command == Interpret(ScanFrom(EMPTY, pre + (["--bedrock"] + post)), lib) <==> SpellsBedrock(Trim(v)))
            && (command == Interpret(ScanFrom(EMPTY, pre + (["--java"] + post)), lib) <==> SpellsJava(Trim(v)))
            && (command == UsageError <==> !SpellsBedrock(Trim(v)) && !SpellsJava(Trim(v)))
  {
    EditionExactly(pre, post, v, lib);
    AliasExactly(pre, post, lib);
  }
}
