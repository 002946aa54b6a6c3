/**
 The command-line scanner: a loop over the arguments whose helpers may move the index past a
 value. Its meaning is a recursion over the arguments still to be read; rewriting arguments
 without changing that meaning is what the laws here are about.
 */
module Argv {
  import opened Text

  /** The switches of the raw configuration; each starts off and can only be set. */
  datatype Switch =
    | EditionSet | JavaAlias | BedrockAlias | ForceIPv4 | ForceIPv6 | Quiet | Timestamp | Numeric | Json
    | AllowPrivate | ShowHelp | ShowVersion

  datatype Raw = Raw(
    destination: string, edition: string, count: string, interval: string, deadline: string, timeout: string,
    on: set<Switch>)

  const EMPTY: Raw := Raw("", "", "", "", "", "", {})

  function TurnOn(raw: Raw, s: Switch): Raw {
    raw.(on := raw.on + {s})
  }

  datatype Scanned = Scan(raw: Raw) | Help | Invalid

  /** Outcome of reading one option, with the number of arguments it took. */
  datatype Read = Took(raw: Raw, used: nat) | Refused

  predicate HasPrefix(s: string, prefix: string) {
    prefix <= s
  }

  predicate Stops(raw: Raw) {
    ShowHelp in raw.on || ShowVersion in raw.on
  }

  // ----- one option

  function LongFlag(raw: Raw, arg: string, following: seq<string>): Read {
    var eq := Index(arg, '=');
    if eq == |arg| then PlainLongFlag(raw, arg, following)
    else if arg[..eq] != "--edition" || arg[eq + 1..] == "" then Refused
    else EditionFlag(raw, arg[eq + 1..], 1)
  }

  /** A long option without an inline value. */
  function PlainLongFlag(raw: Raw, name: string, following: seq<string>): Read {
    if name == "--edition" then (if following == [] then Refused else EditionFlag(raw, following[0], 2))
    else if name == "--java" then Took(TurnOn(raw, JavaAlias), 1)
    else if name == "--allow-private" then Took(TurnOn(raw, AllowPrivate), 1)
    else if name == "--bedrock" then Took(TurnOn(raw, BedrockAlias), 1)
    else if name == "--help" then Took(TurnOn(raw, ShowHelp), 1)
    else if name == "--version" then Took(TurnOn(raw, ShowVersion), 1)
    else Refused
  }

  function EditionFlag(raw: Raw, value: string, used: nat): Read {
    if Trim(value) == "" then Refused else Took(TurnOn(raw.(edition := value), EditionSet), used)
  }

  predicate IsFlagLetter(c: char) {
    c in SWITCHES
  }

  const SWITCHES: map<char, Switch> := map[
    '4' := ForceIPv4, '6' := ForceIPv6, 'q' := Quiet, 'D' := Timestamp, 'n' := Numeric, 'j' := Json,
    'V' := ShowVersion, 'h' := ShowHelp]

  predicate IsValueLetter(c: char) {
    c == 'c' || c == 'i' || c == 'w' || c == 'W'
  }

  function SetFlag(raw: Raw, c: char): Raw
    requires IsFlagLetter(c)
  {
    TurnOn(raw, SWITCHES[c])
  }

  function SetValue(raw: Raw, c: char, value: string): Raw {
    match c
    case 'c' => raw.(count := value)
    case 'i' => raw.(interval := value)
    case 'w' => raw.(deadline := value)
    case 'W' => raw.(timeout := value)
    case _ => raw
  }

  /** The letters of one short group still to be read. */
  function ShortFlags(raw: Raw, letters: string, following: seq<string>): Read
    decreases |letters|
  {
    if letters == "" then Took(raw, 1)
    else if IsFlagLetter(letters[0]) then ShortFlags(SetFlag(raw, letters[0]), letters[1..], following)
    else if IsValueLetter(letters[0]) then
      if letters[1..] != "" then Took(SetValue(raw, letters[0], letters[1..]), 1)
      else if following == [] then Refused
      else Took(SetValue(raw, letters[0], following[0]), 2)
    else Refused
  }

  predicate IsOption(arg: string) {
    HasPrefix(arg, "-") && arg != "-"
  }

  function ReadOption(raw: Raw, arg: string, following: seq<string>): Read
    requires IsOption(arg)
  {
    if HasPrefix(arg, "--") then LongFlag(raw, arg, following) else ShortFlags(raw, arg[1..], following)
  }

  // ----- the whole command line

  function Finish(raw: Raw): Scanned {
    if ShowHelp in raw.on then Help else Scan(raw)
  }

  /** One turn of the loop: go on from a later argument, or stop. */
  datatype Turn = Continue(raw: Raw, used: nat) | Stop(result: Scanned)

  function TakeTurn(raw: Raw, args: seq<string>): (t: Turn)
    requires args != []
    ensures t.Continue? ==> 1 <= t.used <= |args|
  {
    var arg := args[0];
    if arg == "" then Stop(Invalid)
    else if arg == "--" then
      if |args| != 2 || raw.destination != "" then Stop(Invalid)
      else Stop(Finish(raw.(destination := args[1])))
    else if !IsOption(arg) then
      if raw.destination != "" then Stop(Invalid) else Continue(raw.(destination := arg), 1)
    else
      UsedBound(raw, arg, args[1..]);
      match ReadOption(raw, arg, args[1..])
      case Refused => Stop(Invalid)
      case Took(next, used) => if Stops(next) then Stop(Finish(next)) else Continue(next, used)
  }

  function ScanFrom(raw: Raw, args: seq<string>): Scanned
    decreases |args|
  {
    if args == [] then Finish(raw)
    else
      match TakeTurn(raw, args)
      case Stop(result) => result
      case Continue(next, used) => ScanFrom(next, args[used..])
  }

  lemma UsedBound(raw: Raw, arg: string, following: seq<string>)
    requires IsOption(arg)
    ensures var r := ReadOption(raw, arg, following);
            r.Took? ==> 1 <= r.used <= 1 + |following|
  {
    if !HasPrefix(arg, "--") {
      ShortBound(raw, arg[1..], following);
    }
  }

  lemma {:induction false} ShortBound(raw: Raw, letters: string, following: seq<string>)
    ensures var r := ShortFlags(raw, letters, following);
            r.Took? ==> 1 <= r.used <= 1 + |following|
    decreases letters
  {
    if letters != "" && IsFlagLetter(letters[0]) {
      ShortBound(SetFlag(raw, letters[0]), letters[1..], following);
    }
  }

  lemma ScanStep(raw: Raw, args: seq<string>)
    requires args != []
    ensures ScanFrom(raw, args)
         == match TakeTurn(raw, args)
            case Stop(result) => result
            case Continue(next, used) => ScanFrom(next, args[used..])
  {
  }

  // ----- the loops

  method ConsumeShortFlags(raw: Raw, arg: string, args: seq<string>, index: nat)
    returns (next: Raw, ok: bool, index': nat)
    requires index < |args| && args[index] == arg && arg != ""
    ensures index <= index' < |args|
    ensures match ShortFlags(raw, arg[1..], args[index + 1..])
            case Refused => !ok
            case Took(r, used) => ok && next == r && index' == index + used - 1
  {
    next, ok, index' := raw, true, index;
    for pos := 1 to |arg|
      invariant ShortFlags(raw, arg[1..], args[index + 1..]) == ShortFlags(next, arg[pos..], args[index + 1..])
      invariant ok && index' == index
    {
      var c := arg[pos];
      assert arg[pos..][0] == c && arg[pos..][1..] == arg[pos + 1..];
      if IsFlagLetter(c) {
        next := SetFlag(next, c);
      } else if IsValueLetter(c) {
        var value := arg[pos + 1..];
        if value == "" {
          if index + 1 >= |args| {
            return next, false, index;
          }
          index' := index + 1;
          value := args[index'];
        }
        next := SetValue(next, c, value);
        return;
      } else {
        return next, false, index;
      }
    }
    assert arg[|arg|..] == "";
  }

  method ConsumeLongFlag(raw: Raw, arg: string, args: seq<string>, index: nat)
    returns (next: Raw, ok: bool, index': nat)
    requires index < |args| && args[index] == arg
    ensures index <= index' < |args|
    ensures match LongFlag(raw, arg, args[index + 1..])
            case Refused => !ok
            case Took(r, used) => ok && next == r && index' == index + used - 1
  {
    next, ok, index' := raw, true, index;
    var name, value, hasInlineValue := arg, "", false;
    var eq := Index(arg, '=');
    if eq < |arg| {
      name, value, hasInlineValue := arg[..eq], arg[eq + 1..], true;
    }
    if name == "--edition" {
      if hasInlineValue && value == "" {
        return raw, false, index;
      }
      if !hasInlineValue {
        if index + 1 >= |args| {
          return raw, false, index;
        }
        index' := index + 1;
        value := args[index'];
      }
      if Trim(value) == "" {
        return raw, false, index;
      }
      next := TurnOn(raw.(edition := value), EditionSet);
    } else if hasInlineValue {
      ok := false;
    } else if name == "--java" {
      next := TurnOn(raw, JavaAlias);
    } else if name == "--allow-private" {
      next := TurnOn(raw, AllowPrivate);
    } else if name == "--bedrock" {
      next := TurnOn(raw, BedrockAlias);
    } else if name == "--help" {
      next := TurnOn(raw, ShowHelp);
    } else if name == "--version" {
      next := TurnOn(raw, ShowVersion);
    } else {
      ok := false;
    }
  }

  /** One pass of the loop over an option: the helpers' view and the recursion's agree. */
  method ConsumeOption(raw: Raw, args: seq<string>, index: nat) returns (next: Raw, ok: bool, index': nat)
    requires index < |args| && IsOption(args[index]) && args[index] != "--"
    ensures index <= index' < |args|
    ensures ScanFrom(raw, args[index..])
         == if !ok then Invalid else if Stops(next) then Finish(next) else ScanFrom(next, args[index' + 1..])
  {
    var arg := args[index];
    assert args[index..][0] == arg && args[index..][1..] == args[index + 1..];
    if HasPrefix(arg, "--") {
      next, ok, index' := ConsumeLongFlag(raw, arg, args, index);
    } else {
      next, ok, index' := ConsumeShortFlags(raw, arg, args, index);
    }
    ScanStep(raw, args[index..]);
    assert args[index..][index' + 1 - index..] == args[index' + 1..];
  }

  /** The arguments that are not options. */
  lemma NonOption(raw: Raw, args: seq<string>, i: nat)
    requires i < |args| && (args[i] == "--" || !IsOption(args[i]))
    ensures ScanFrom(raw, args[i..])
         == if args[i] == "" then Invalid
            else if args[i] == "--" then
              if i + 2 != |args| || raw.destination != "" then Invalid else Finish(raw.(destination := args[i + 1]))
            else if raw.destination != "" then Invalid
            else ScanFrom(raw.(destination := args[i]), args[i + 1..])
  {
    assert args[i..][0] == args[i] && args[i..][1..] == args[i + 1..];
    ScanStep(raw, args[i..]);
  }

  /** One pass of the loop over the mark or a destination. */
  method ConsumeDestination(raw: Raw, args: seq<string>, index: nat)
    returns (next: Raw, ok: bool, index': nat, done: bool)
    requires index < |args| && (args[index] == "--" || !IsOption(args[index]))
    ensures index < index' <= |args|
    ensures ScanFrom(raw, args[index..])
         == if !ok then Invalid else if done then Finish(next) else ScanFrom(next, args[index'..])
  {
    NonOption(raw, args, index);
    next, ok, index', done := raw, false, index + 1, false;
    var i := index;
    if args[i] == "" {
      return;
    }
    if raw.destination != "" {
      return;
    }
    if args[i] == "--" {
      if i + 2 != |args| {
        return;
      }
      i := i + 1;
      done := true;
    }
    next, ok, index' := raw.(destination := args[i]), true, i + 1;
  }

  /** The loop reads every argument list to an end, although its helpers move the index. */
  method ScanArgv(args: seq<string>) returns (result: Scanned)
    ensures result == ScanFrom(EMPTY, args)
  {
    var raw := EMPTY;
    var i := 0;
    var done := false;
    ghost var meaning := ScanFrom(EMPTY, args);
    assert args[0..] == args;
    while i < |args| && !done
      invariant 0 <= i <= |args|
      invariant meaning == if done then Finish(raw) else ScanFrom(raw, args[i..])
      decreases !done, |args| - i
    {
      var ok := true;
      if args[i] == "--" || !IsOption(args[i]) {
        raw, ok, i, done := ConsumeDestination(raw, args, i);
      } else {
        raw, ok, i := ConsumeOption(raw, args, i);
        i, done := i + 1, Stops(raw);
      }
      if !ok {
        return Invalid;
      }
    }
    assert args[|args|..] == [];
    result := if ShowHelp in raw.on then Help else Scan(raw);
  }
}
