/**
 Which command lines the scanner reads, as a grammar: complete options and at most one
 destination in any order, then the end, the end-of-options mark with the destination, or an
 option that stops the scan.
 */
module ArgvGrammar {
  import opened Text
  import opened Argv
  import opened ArgvLaws

  // ----- one option

  predicate AllFlags(s: string) {
    forall c | c in s :: IsFlagLetter(c)
  }

  /** Letters of a group over the given number of arguments: flag letters and then nothing, or a
      value letter with its value, attached or in the next argument. */
  predicate IsGroup(letters: string, used: nat, flags: string, rest: string) {
    && letters == flags + rest && AllFlags(flags)
    && if rest == "" then used == 1 else IsValueLetter(rest[0]) && used == if |rest| == 1 then 2 else 1
  }

  predicate HoldsStop(flags: string) {
    'h' in flags || 'V' in flags
  }

  lemma {:induction false} GroupIsRead(raw: Raw, letters: string, following: seq<string>, used: nat, flags: string,
                                       rest: string)
    requires IsGroup(letters, used, flags, rest) && used <= 1 + |following|
    ensures var r := ShortFlags(raw, letters, following);
            r.Took? && r.used == used && Stops(r.raw) == (Stops(raw) || HoldsStop(flags))
    decreases |flags|
  {
    if flags == "" {
      assert letters == rest;
      if rest != "" {
        SetValueStops(raw, rest[0]);
      }
    } else {
      var c := flags[0];
      assert c in flags && letters[0] == c && letters[1..] == flags[1..] + rest;
      assert flags == [c] + flags[1..];
      SetFlagStops(raw, c);
      GroupIsRead(SetFlag(raw, c), letters[1..], following, used, flags[1..], rest);
    }
  }

  lemma SetValueStops(raw: Raw, c: char)
    requires IsValueLetter(c)
    ensures !IsFlagLetter(c) && forall value :: Stops(SetValue(raw, c, value)) == Stops(raw)
  {
  }

  lemma {:induction false} ReadIsGroup(raw: Raw, letters: string, following: seq<string>)
    returns (flags: string, rest: string)
    requires ShortFlags(raw, letters, following).Took?
    ensures IsGroup(letters, ShortFlags(raw, letters, following).used, flags, rest)
    decreases |letters|
  {
    flags, rest := "", letters;
    if letters != "" && IsFlagLetter(letters[0]) {
      var c := letters[0];
      var more;
      more, rest := ReadIsGroup(SetFlag(raw, c), letters[1..], following);
      flags := [c] + more;
      assert letters == [c] + letters[1..];
    }
  }

  /** A long option with its value, if it takes one. */
  predicate IsLongUnit(u: seq<string>) {
    || (|u| == 1 && (u[0] in PLAIN_NAMES || IsInlineEdition(u[0])))
    || (|u| == 2 && u[0] == EDITION && Trim(u[1]) != "")
  }

  predicate IsShortUnit(u: seq<string>, flags: string, rest: string) {
    u != [] && flags + rest != "" && u[0] == "-" + (flags + rest) && IsGroup(flags + rest, |u|, flags, rest)
  }

  /** The arguments of one option, and whether it stops the scan. */
  ghost predicate IsUnit(u: seq<string>, stops: bool) {
    || (IsLongUnit(u) && stops == (u[0] == "--help" || u[0] == "--version"))
    || (exists flags, rest :: IsShortUnit(u, flags, rest) && stops == HoldsStop(flags))
  }

  /** What reading an option gives. */
  predicate ReadsAs(r: Read, raw: Raw, used: nat, stops: bool) {
    r.Took? && r.used == used && Stops(r.raw) == stops && r.raw.destination == raw.destination
  }

  lemma LongDashes(arg: string)
    requires arg in PLAIN_NAMES || arg == EDITION || IsInlineEdition(arg)
    ensures HasPrefix(arg, "--") && arg != "--" && IsOption(arg)
  {
    if IsInlineEdition(arg) {
      var head := EDITION + "=";
      assert |arg| >= |head| > 2 && arg[0] == head[0] && arg[1] == head[1];
    }
  }

  lemma LongUnitRead(raw: Raw, args: seq<string>, k: nat)
    requires k <= |args| && IsLongUnit(args[..k]) && !Stops(raw)
    ensures IsOption(args[0]) && args[0] != "--"
    ensures ReadsAs(ReadOption(raw, args[0], args[1..]), raw, k, args[0] == "--help" || args[0] == "--version")
  {
    var u := args[..k];
    assert u[0] == args[0] && (k == 2 ==> u[1] == args[1..][0]);
    LongDashes(args[0]);
    LongReads(raw, args[0], args[1..]);
    if args[0] in PLAIN_NAMES || IsInlineEdition(args[0]) {
      NotEditionAlone(args[0]);
    }
  }

  lemma NotEditionAlone(arg: string)
    requires IsInlineEdition(arg) || arg in PLAIN_NAMES
    ensures arg != EDITION
  {
  }

  lemma ShortUnitRead(raw: Raw, args: seq<string>, k: nat, flags: string, rest: string)
    requires k <= |args| && IsShortUnit(args[..k], flags, rest) && !Stops(raw)
    ensures IsOption(args[0]) && args[0] != "--"
    ensures ReadsAs(ReadOption(raw, args[0], args[1..]), raw, k, HoldsStop(flags))
  {
    var letters := flags + rest;
    assert args[0] == "-" + letters;
    assert letters[0] != '-' by {
      assert if flags == "" then letters[0] == rest[0] else letters[0] == flags[0] && flags[0] in flags;
    }
    ShortOption(raw, letters, args[1..]);
    GroupIsRead(raw, letters, args[1..], k, flags, rest);
    ShortKeepsDestination(raw, letters, args[1..], "");
  }

  /** An option in front of the arguments is read as such. */
  lemma UnitRead(raw: Raw, args: seq<string>, k: nat, stops: bool)
    requires k <= |args| && IsUnit(args[..k], stops) && !Stops(raw)
    ensures k >= 1 && IsOption(args[0]) && args[0] != "--"
    ensures ReadsAs(ReadOption(raw, args[0], args[1..]), raw, k, stops)
  {
    if IsLongUnit(args[..k]) && stops == (args[..k][0] == "--help" || args[..k][0] == "--version") {
      LongUnitRead(raw, args, k);
    } else {
      var flags, rest :| IsShortUnit(args[..k], flags, rest) && stops == HoldsStop(flags);
      ShortUnitRead(raw, args, k, flags, rest);
    }
  }

  lemma LongReadIsUnit(raw: Raw, args: seq<string>)
    requires args != [] && !Stops(raw) && LongFlag(raw, args[0], args[1..]).Took?
    ensures var r := LongFlag(raw, args[0], args[1..]);
            && 1 <= r.used <= |args| && IsLongUnit(args[..r.used]) && r.raw.destination == raw.destination
            && Stops(r.raw) == (args[0] == "--help" || args[0] == "--version")
  {
    LongReads(raw, args[0], args[1..]);
  }

  lemma ShortReadIsUnit(raw: Raw, args: seq<string>) returns (flags: string, rest: string)
    requires args != [] && IsOption(args[0]) && !Stops(raw) && ShortFlags(raw, args[0][1..], args[1..]).Took?
    ensures var r := ShortFlags(raw, args[0][1..], args[1..]);
            && 1 <= r.used <= |args| && IsShortUnit(args[..r.used], flags, rest)
            && r.raw.destination == raw.destination && Stops(r.raw) == HoldsStop(flags)
  {
    var letters := args[0][1..];
    assert args[0] == "-" + letters;
    ShortBound(raw, letters, args[1..]);
    flags, rest := ReadIsGroup(raw, letters, args[1..]);
    GroupIsRead(raw, letters, args[1..], ShortFlags(raw, letters, args[1..]).used, flags, rest);
    ShortKeepsDestination(raw, letters, args[1..], "");
  }

  /** And what is read as an option is one. */
  lemma ReadIsUnit(raw: Raw, args: seq<string>)
    requires args != [] && IsOption(args[0]) && !Stops(raw) && ReadOption(raw, args[0], args[1..]).Took?
    ensures var r := ReadOption(raw, args[0], args[1..]);
            && 1 <= r.used <= |args| && IsUnit(args[..r.used], Stops(r.raw))
            && r.raw.destination == raw.destination
  {
    if HasPrefix(args[0], "--") {
      LongReadIsUnit(raw, args);
    } else {
      var flags, rest := ShortReadIsUnit(raw, args);
    }
  }

  // ----- the line

  predicate IsDestinationWord(w: seq<string>) {
    |w| == 1 && IsPlainDestination(w[0])
  }

  ghost predicate IsWord(w: seq<string>) {
    IsUnit(w, false) || IsDestinationWord(w)
  }

  /** How many destinations are named. */
  function Named(words: seq<seq<string>>): nat {
    if words == [] then 0 else (if IsDestinationWord(words[0]) then 1 else 0) + Named(words[1..])
  }

  /** How a line may end: here; with the mark and the destination, if none was named; or with an
      option that stops the scan and anything behind it. */
  ghost predicate IsEnding(e: seq<string>, named: nat) {
    || e == []
    || (|e| == 2 && e[0] == "--" && named == 0)
    || (exists k :: 1 <= k <= |e| && IsUnit(e[..k], true))
  }

  ghost predicate IsLine(args: seq<string>, words: seq<seq<string>>, ending: seq<string>, before: nat) {
    && args == Flatten(words) + ending
    && (forall w | w in words :: IsWord(w))
    && before + Named(words) <= 1
    && IsEnding(ending, before + Named(words))
  }

  function Given(raw: Raw): nat {
    if raw.destination == "" then 0 else 1
  }

  lemma WordTurn(raw: Raw, w: seq<string>, rest: seq<string>)
    requires !Stops(raw) && IsWord(w) && Given(raw) + (if IsDestinationWord(w) then 1 else 0) <= 1
    ensures var t := TakeTurn(raw, w + rest);
            && w != [] && t.Continue? && t.used == |w| && !Stops(t.raw)
            && Given(t.raw) == Given(raw) + if IsDestinationWord(w) then 1 else 0
  {
    var args := w + rest;
    if IsDestinationWord(w) {
      assert args[0] == w[0];
    } else {
      assert args[..|w|] == w;
      UnitRead(raw, args, |w|, false);
    }
  }

  lemma EndingScans(raw: Raw, e: seq<string>)
    requires !Stops(raw) && IsEnding(e, Given(raw))
    ensures ScanFrom(raw, e) != Invalid
  {
    if e != [] && !(|e| == 2 && e[0] == "--" && Given(raw) == 0) {
      var k :| 1 <= k <= |e| && IsUnit(e[..k], true);
      UnitRead(raw, e, k, true);
    }
  }

  lemma {:induction false} LineScans(raw: Raw, args: seq<string>, words: seq<seq<string>>, ending: seq<string>)
    requires !Stops(raw) && IsLine(args, words, ending, Given(raw))
    ensures ScanFrom(raw, args) != Invalid
    decreases |words|
  {
    if words == [] {
      assert args == ending;
      EndingScans(raw, ending);
    } else {
      var w, rest := words[0], Flatten(words[1..]) + ending;
      assert w in words && args == w + rest;
      WordTurn(raw, w, rest);
      ScanStep(raw, args);
      assert args[|w|..] == rest;
      LineScans(TakeTurn(raw, args).raw, rest, words[1..], ending);
    }
  }

  /** What one turn that goes on has read. */
  lemma TurnIsWord(raw: Raw, args: seq<string>)
    requires args != [] && !Stops(raw) && TakeTurn(raw, args).Continue?
    ensures var t := TakeTurn(raw, args); var w := args[..t.used];
            && IsWord(w) && !Stops(t.raw) && Given(t.raw) == Given(raw) + if IsDestinationWord(w) then 1 else 0
  {
    var t := TakeTurn(raw, args);
    var w := args[..t.used];
    assert w[0] == args[0];
    if IsOption(args[0]) {
      ReadIsUnit(raw, args);
    }
  }

  /** What one turn that ends the scan has read. */
  lemma StopIsEnding(raw: Raw, args: seq<string>)
    requires args != [] && !Stops(raw) && TakeTurn(raw, args).Stop? && TakeTurn(raw, args).result != Invalid
    ensures IsEnding(args, Given(raw))
  {
    if args[0] != "--" {
      assert IsOption(args[0]);
      ReadIsUnit(raw, args);
    }
  }

  lemma EndingIsLine(e: seq<string>, before: nat)
    requires before <= 1 && IsEnding(e, before)
    ensures IsLine(e, [], e, before)
  {
    assert e == Flatten([]) + e;
  }

  lemma {:induction false} LineOf(raw: Raw, args: seq<string>) returns (words: seq<seq<string>>, ending: seq<string>)
    requires !Stops(raw) && ScanFrom(raw, args) != Invalid
    ensures IsLine(args, words, ending, Given(raw))
    decreases |args|
  {
    if args == [] {
      words, ending := [], args;
      EndingIsLine(args, Given(raw));
    } else {
      ScanStep(raw, args);
      match TakeTurn(raw, args) {
        case Stop(_) =>
          words, ending := [], args;
          StopIsEnding(raw, args);
          EndingIsLine(args, Given(raw));
        case Continue(next, used) =>
          TurnIsWord(raw, args);
          words, ending := LineOf(next, args[used..]);
          LineCons(args, used, words, ending, Given(raw));
          words := [args[..used]] + words;
      }
    }
  }

  lemma LineCons(args: seq<string>, k: nat, words: seq<seq<string>>, ending: seq<string>, before: nat)
    requires k <= |args| && IsWord(args[..k])
    requires IsLine(args[k..], words, ending, before + if IsDestinationWord(args[..k]) then 1 else 0)
    ensures IsLine(args, [args[..k]] + words, ending, before)
  {
    var all := [args[..k]] + words;
    assert all[0] == args[..k] && all[1..] == words;
    assert args == args[..k] + args[k..];
  }

  /** A command line scans without error if and only if it is complete options and at most one
      destination, in any order, with one of the endings. */
  lemma ScansExactly(args: seq<string>)
    ensures ScanFrom(EMPTY, args) != Invalid <==> exists words, ending :: IsLine(args, words, ending, 0)
  {
    if ScanFrom(EMPTY, args) != Invalid {
      var words, ending := LineOf(EMPTY, args);
    }
    if words, ending :| IsLine(args, words, ending, 0) {
      LineScans(EMPTY, args, words, ending);
    }
  }

  /** The options that the laws about moving a destination speak of are those of the grammar. */
  lemma OptionUnitExactly(u: seq<string>)
    ensures IsOptionUnit(u) <==> IsUnit(u, false)
  {
    if u != [] {
      assert u[..|u|] == u;
      if IsOptionUnit(u) {
        ReadIsUnit(EMPTY, u);
      }
      if IsUnit(u, false) {
        UnitRead(EMPTY, u, |u|, false);
      }
    }
  }
}
