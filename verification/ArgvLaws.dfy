/**
 Rewritings of a command line that the scanner cannot tell apart.
 */
module ArgvLaws {
  import opened Results
  import opened Text
  import opened Argv

  // ----- reading a prefix

  /** Where the scanner stands after reading exactly the arguments of pre as complete options
      and destination, if it does so without stopping. */
  function Reach(raw: Raw, pre: seq<string>): Option<Raw>
    decreases |pre|
  {
    if pre == [] then Some(raw)
    else
      match TakeTurn(raw, pre)
      case Stop(_) => None
      case Continue(next, used) => Reach(next, pre[used..])
  }

  lemma {:induction false} ShortExtends(raw: Raw, letters: string, following: seq<string>, more: seq<string>)
    requires ShortFlags(raw, letters, following).Took?
    ensures ShortFlags(raw, letters, following + more) == ShortFlags(raw, letters, following)
    decreases |letters|
  {
    if letters != "" && IsFlagLetter(letters[0]) {
      ShortExtends(SetFlag(raw, letters[0]), letters[1..], following, more);
    }
  }

  /** Arguments behind a complete unit do not change how it is read. */
  lemma TurnExtends(raw: Raw, pre: seq<string>, more: seq<string>)
    requires pre != [] && TakeTurn(raw, pre).Continue?
    ensures TakeTurn(raw, pre + more) == TakeTurn(raw, pre)
  {
    assert (pre + more)[0] == pre[0] && (pre + more)[1..] == pre[1..] + more;
    if IsOption(pre[0]) && !HasPrefix(pre[0], "--") {
      ShortExtends(raw, pre[0][1..], pre[1..], more);
    }
  }

  lemma DropConcat(a: seq<string>, b: seq<string>, k: nat)
    requires k <= |a|
    ensures (a + b)[k..] == a[k..] + b
  {
  }

  lemma {:induction false} ReachThenScan(raw: Raw, pre: seq<string>, rest: seq<string>)
    requires Reach(raw, pre).Some?
    ensures ScanFrom(raw, pre + rest) == ScanFrom(Reach(raw, pre).value, rest)
    decreases |pre|
  {
    if pre == [] {
      assert pre + rest == rest;
    } else {
      var turn := TakeTurn(raw, pre);
      ReachThenScan(turn.raw, pre[turn.used..], rest);
      TurnExtends(raw, pre, rest);
      DropConcat(pre, rest, turn.used);
      ScanStep(raw, pre + rest);
    }
  }

  lemma {:induction false} ReachRunning(raw: Raw, pre: seq<string>)
    requires Reach(raw, pre).Some? && !Stops(raw)
    ensures !Stops(Reach(raw, pre).value)
    decreases |pre|
  {
    if pre != [] {
      var turn := TakeTurn(raw, pre);
      ReachRunning(turn.raw, pre[turn.used..]);
    }
  }

  // ----- splitting a bundle of short options

  predicate IsSimpleLetter(c: char) {
    IsFlagLetter(c) && c != 'V' && c != 'h'
  }

  function Separate(letters: string): seq<string> {
    if letters == "" then [] else ["-" + [letters[0]]] + Separate(letters[1..])
  }

  function SetFlags(raw: Raw, letters: string): Raw
    requires forall c | c in letters :: IsSimpleLetter(c)
    decreases |letters|
  {
    if letters == "" then raw
    else
      assert letters[0] in letters && IsSimpleLetter(letters[0]);
      SetFlags(SetFlag(raw, letters[0]), letters[1..])
  }

  lemma {:induction false} BundleReads(raw: Raw, letters: string, tail: string, following: seq<string>)
    requires forall c | c in letters :: IsSimpleLetter(c)
    ensures ShortFlags(raw, letters + tail, following) == ShortFlags(SetFlags(raw, letters), tail, following)
    decreases |letters|
  {
    if letters == "" {
      assert letters + tail == tail;
    } else {
      assert letters[0] in letters;
      assert (letters + tail)[1..] == letters[1..] + tail;
      BundleReads(SetFlag(raw, letters[0]), letters[1..], tail, following);
    }
  }

  lemma ShortOption(raw: Raw, letters: string, following: seq<string>)
    requires letters != "" && letters[0] != '-'
    ensures var arg := "-" + letters;
            && arg != "" && arg != "--" && IsOption(arg)
            && ReadOption(raw, arg, following) == ShortFlags(raw, letters, following)
  {
    var arg := "-" + letters;
    assert arg[0] == '-' && arg[1] == letters[0] && arg[1..] == letters;
    assert "--"[1] == '-';
  }

  /** A turn at a short group. */
  lemma ShortTurn(raw: Raw, letters: string, rest: seq<string>)
    requires letters != "" && letters[0] != '-'
    ensures TakeTurn(raw, ["-" + letters] + rest)
         == match ShortFlags(raw, letters, rest)
            case Refused => Stop(Invalid)
            case Took(next, used) => if Stops(next) then Stop(Finish(next)) else Continue(next, used)
  {
    var args := ["-" + letters] + rest;
    assert args[0] == "-" + letters && args[1..] == rest;
    ShortOption(raw, letters, rest);
  }

  lemma SetFlagStops(raw: Raw, c: char)
    requires IsFlagLetter(c)
    ensures Stops(SetFlag(raw, c)) == (Stops(raw) || c == 'V' || c == 'h')
  {
  }

  lemma SetFlagKeepsDestination(raw: Raw, c: char, d: string)
    requires IsFlagLetter(c)
    ensures SetFlag(raw.(destination := d), c) == SetFlag(raw, c).(destination := d)
    ensures SetFlag(raw, c).destination == raw.destination
  {
  }

  lemma SetValueKeeps(raw: Raw, c: char, value: string, d: string)
    ensures SetValue(raw.(destination := d), c, value) == SetValue(raw, c, value).(destination := d)
    ensures SetValue(raw, c, value).destination == raw.destination
    ensures Stops(SetValue(raw, c, value)) == Stops(raw)
  {
  }

  lemma OneLetter(raw: Raw, c: char, rest: seq<string>)
    requires IsSimpleLetter(c) && !Stops(raw)
    ensures TakeTurn(raw, ["-" + [c]] + rest) == Continue(SetFlag(raw, c), 1)
    ensures !Stops(SetFlag(raw, c))
  {
    ShortTurn(raw, [c], rest);
    assert [c][1..] == "";
    assert ShortFlags(raw, [c], rest) == ShortFlags(SetFlag(raw, c), "", rest);
    SetFlagStops(raw, c);
  }

  lemma {:induction false} SeparateScan(raw: Raw, letters: string, rest: seq<string>)
    requires !Stops(raw) && forall c | c in letters :: IsSimpleLetter(c)
    ensures ScanFrom(raw, Separate(letters) + rest) == ScanFrom(SetFlags(raw, letters), rest)
    ensures !Stops(SetFlags(raw, letters))
    decreases |letters|
  {
    if letters == "" {
      assert Separate(letters) + rest == rest;
    } else {
      var c, more := letters[0], Separate(letters[1..]) + rest;
      assert Separate(letters) + rest == ["-" + [c]] + more;
      assert (["-" + [c]] + more)[1..] == more;
      assert c in letters;
      OneLetter(raw, c, more);
      SeparateScan(SetFlag(raw, c), letters[1..], rest);
    }
  }

  /** The rest of a group as an argument of its own. */
  function TailArg(tail: string): seq<string> {
    if tail == "" then [] else ["-" + tail]
  }

  lemma ConcatLetters(letters: string, stop: string)
    requires letters != ""
    ensures "-" + letters + stop == "-" + (letters + stop) && (letters + stop)[0] == letters[0]
  {
  }

  /** Reading a group of flag letters and what follows them, from a running scanner. */
  lemma GroupScan(raw: Raw, letters: string, tail: string, rest: seq<string>)
    requires letters != "" && (forall d | d in letters :: IsSimpleLetter(d))
    ensures TakeTurn(raw, ["-" + letters + tail] + rest)
         == match ShortFlags(SetFlags(raw, letters), tail, rest)
            case Refused => Stop(Invalid)
            case Took(next, used) => if Stops(next) then Stop(Finish(next)) else Continue(next, used)
  {
    ConcatLetters(letters, tail);
    assert letters[0] in letters && IsSimpleLetter(letters[0]);
    ShortTurn(raw, letters + tail, rest);
    BundleReads(raw, letters, tail, rest);
  }

  /** From a running scanner, a short group and its letters given separately mean the same. The
      tail is anything that can follow the letters: a value letter with its value attached or
      in the next argument, further letters, help, version, or an error. */
  lemma SplitHere(raw: Raw, letters: string, tail: string, rest: seq<string>)
    requires !Stops(raw) && letters != "" && (forall c | c in letters :: IsSimpleLetter(c))
    requires tail != "" ==> tail[0] != '-'
    ensures ScanFrom(raw, ["-" + letters + tail] + rest) == ScanFrom(raw, Separate(letters) + (TailArg(tail) + rest))
  {
    GroupScan(raw, letters, tail, rest);
    SeparateScan(raw, letters, TailArg(tail) + rest);
    var mid := SetFlags(raw, letters);
    if tail == "" {
      assert TailArg(tail) + rest == rest;
      assert (["-" + letters + tail] + rest)[1..] == rest;
    } else {
      ShortTurn(mid, tail, rest);
      SameTurnSameScan(raw, ["-" + letters + tail], mid, ["-" + tail], rest);
    }
  }

  lemma SameTurnSameScan(r1: Raw, a: seq<string>, r2: Raw, b: seq<string>, rest: seq<string>)
    requires |a| == |b| == 1 && TakeTurn(r1, a + rest) == TakeTurn(r2, b + rest)
    ensures ScanFrom(r1, a + rest) == ScanFrom(r2, b + rest)
  {
    var t := TakeTurn(r1, a + rest);
    if t.Continue? {
      assert (a + rest)[t.used..] == (b + rest)[t.used..];
    }
  }

  /** Anywhere the scanner reads a short group as options, splitting the group changes nothing. */
  lemma SplitBundle(pre: seq<string>, letters: string, tail: string, post: seq<string>)
    requires Reach(EMPTY, pre).Some?
    requires letters != "" && (forall c | c in letters :: IsSimpleLetter(c))
    requires tail != "" ==> tail[0] != '-'
    ensures ScanFrom(EMPTY, pre + (["-" + letters + tail] + post))
         == ScanFrom(EMPTY, pre + (Separate(letters) + (TailArg(tail) + post)))
  {
    ReachRunning(EMPTY, pre);
    ReachThenScan(EMPTY, pre, ["-" + letters + tail] + post);
    ReachThenScan(EMPTY, pre, Separate(letters) + (TailArg(tail) + post));
    SplitHere(Reach(EMPTY, pre).value, letters, tail, post);
  }

  /** A dash inside a group is an error, while split off it may start a long option. */
  lemma DashInGroupInvalid(pre: seq<string>, letters: string, tail: string, post: seq<string>)
    requires Reach(EMPTY, pre).Some?
    requires letters != "" && (forall c | c in letters :: IsSimpleLetter(c))
    requires tail != "" && tail[0] == '-'
    ensures ScanFrom(EMPTY, pre + (["-" + letters + tail] + post)) == Invalid
  {
    ReachThenScan(EMPTY, pre, ["-" + letters + tail] + post);
    GroupScan(Reach(EMPTY, pre).value, letters, tail, post);
  }

  // ----- a tail that starts with a dash

  /** The long options that stand alone. */
  const PLAIN_NAMES: set<string> := {"--java", "--allow-private", "--bedrock", "--help", "--version"}

  const EDITION: string := "--edition"

  /** --edition= with a value that is not blank. */
  predicate IsInlineEdition(arg: string) {
    EDITION + "=" <= arg && Trim(arg[|EDITION| + 1..]) != ""
  }

  lemma IndexAbsent(s: string, c: char)
    ensures Index(s, c) == |s| <==> c !in s
  {
    if c in s {
      var k :| 0 <= k < |s| && s[k] == c;
    }
  }

  lemma NamesHoldNoEquals(name: string)
    requires name in PLAIN_NAMES || name == EDITION
    ensures '=' !in name
  {
  }

  lemma FirstEquals(arg: string, name: string)
    requires '=' !in name && |name| < |arg| && arg[..|name|] == name && arg[|name|] == '='
    ensures Index(arg, '=') == |name|
  {
    forall k | 0 <= k < |name|
      ensures arg[k] != '='
    {
      assert arg[k] == arg[..|name|][k] == name[k] && name[k] in name;
    }
  }

  /** The name before the first equals sign. */
  lemma InlineAt(arg: string, name: string)
    requires '=' !in name
    ensures var eq := Index(arg, '=');
            && (eq < |arg| && arg[..eq] == name <==> name + "=" <= arg)
            && (name + "=" <= arg ==> eq == |name|)
  {
    var head := name + "=";
    assert head[..|name|] == name && head[|name|] == '=';
    if head <= arg {
      assert arg[..|head|] == head;
      assert arg[..|name|] == arg[..|head|][..|name|];
      FirstEquals(arg, name);
    }
    var eq := Index(arg, '=');
    if eq < |arg| && arg[..eq] == name {
      assert arg[..eq + 1] == head;
    }
  }

  lemma PlainReads(raw: Raw, arg: string, following: seq<string>)
    ensures var r := PlainLongFlag(raw, arg, following);
            && (r.Took? <==> arg in PLAIN_NAMES || (arg == EDITION && following != [] && Trim(following[0]) != ""))
            && (r.Took? ==> LongTook(raw, arg, r))
  {
  }

  /** What a long option never changes, what it takes and whether it stops the scan. */
  predicate LongTook(raw: Raw, arg: string, r: Read)
    requires r.Took?
  {
    && r.raw.destination == raw.destination
    && r.used == (if arg == EDITION then 2 else 1)
    && Stops(r.raw) == (Stops(raw) || arg == "--help" || arg == "--version")
  }

  /** Which long options can be read. */
  lemma LongReads(raw: Raw, arg: string, following: seq<string>)
    ensures var r := LongFlag(raw, arg, following);
            && (r.Took? <==> || arg in PLAIN_NAMES || IsInlineEdition(arg)
                             || (arg == EDITION && following != [] && Trim(following[0]) != ""))
            && (r.Took? ==> LongTook(raw, arg, r))
  {
    NamesHoldNoEquals(EDITION);
    InlineAt(arg, EDITION);
    IndexAbsent(arg, '=');
    if '=' in arg {
      InlineReads(raw, arg, following);
    } else {
      PlainReads(raw, arg, following);
    }
  }

  lemma InlineReads(raw: Raw, arg: string, following: seq<string>)
    requires '=' in arg
    ensures var r := LongFlag(raw, arg, following);
            && arg !in PLAIN_NAMES && arg != EDITION
            && (r.Took? <==> IsInlineEdition(arg))
            && (r.Took? ==> LongTook(raw, arg, r))
  {
    if arg in PLAIN_NAMES || arg == EDITION {
      NamesHoldNoEquals(arg);
    } else {
      var eq := Index(arg, '=');
      IndexAbsent(arg, '=');
      NamesHoldNoEquals(EDITION);
      InlineAt(arg, EDITION);
      assert Trim("") == "";
      assert arg != "--help" && arg != "--version";
    }
  }

  /** A turn at an argument that starts with two dashes. */
  lemma LongTurn(raw: Raw, tail: string, rest: seq<string>)
    requires tail != "" && tail[0] == '-'
    ensures var arg := "-" + tail;
            && (arg == "--" <==> tail == "-")
            && (arg != "--" ==>
                  TakeTurn(raw, [arg] + rest)
                  == match LongFlag(raw, arg, rest)
                     case Refused => Stop(Invalid)
                     case Took(next, used) => if Stops(next) then Stop(Finish(next)) else Continue(next, used))
            && (arg == "--" ==>
                  TakeTurn(raw, [arg] + rest)
                  == Stop(if |rest| != 1 || raw.destination != "" then Invalid
                          else Finish(raw.(destination := rest[0]))))
  {
    var arg, args := "-" + tail, ["-" + tail] + rest;
    assert args[0] == arg && args[1..] == rest && arg[0] == '-' && arg[1] == '-';
    assert tail == "-" <==> |arg| == 2;
    assert |rest| == 1 ==> args[1] == rest[0];
    assert HasPrefix(arg, "--");
  }

  /** Some continuation lets the scanner read this argument, which starts with two dashes. */
  predicate IsLongArgument(arg: string, destinationGiven: bool) {
    || arg in PLAIN_NAMES || arg == EDITION || IsInlineEdition(arg)
    || (arg == "--" && !destinationGiven)
  }

  lemma UnreadableStops(raw: Raw, tail: string, rest: seq<string>)
    requires tail != "" && tail[0] == '-' && !IsLongArgument("-" + tail, raw.destination != "")
    ensures ScanFrom(raw, ["-" + tail] + rest) == Invalid
  {
    LongTurn(raw, tail, rest);
    LongReads(raw, "-" + tail, rest);
  }

  /** What to write behind such an argument for it to be read. */
  function Completion(arg: string): seq<string> {
    if arg == EDITION || arg == "--" then ["x"] else []
  }

  lemma CompletedReads(raw: Raw, tail: string)
    requires tail != "" && tail[0] == '-' && IsLongArgument("-" + tail, raw.destination != "")
    ensures ScanFrom(raw, ["-" + tail] + Completion("-" + tail)) != Invalid
  {
    var arg := "-" + tail;
    if arg == "--" {
      LongTurn(raw, tail, ["x"]);
    } else {
      CompletedOption(raw, arg);
      LongLast(raw, tail, Completion(arg));
    }
  }

  lemma CompletedOption(raw: Raw, arg: string)
    requires arg in PLAIN_NAMES || arg == EDITION || IsInlineEdition(arg)
    ensures var r := LongFlag(raw, arg, Completion(arg)); r.Took? && r.used == 1 + |Completion(arg)|
  {
    LongReads(raw, arg, Completion(arg));
    assert Trim("x") == "x" by {
      TrimExact("x");
    }
    if arg != EDITION {
      assert Completion(arg) == [] by {
        assert |arg| > 2;
      }
    }
  }

  lemma LongLast(raw: Raw, tail: string, rest: seq<string>)
    requires tail != "" && tail[0] == '-' && "-" + tail != "--"
    requires var r := LongFlag(raw, "-" + tail, rest); r.Took? && r.used == 1 + |rest|
    ensures ScanFrom(raw, ["-" + tail] + rest) != Invalid
  {
    LongTurn(raw, tail, rest);
    LastTurn(raw, ["-" + tail] + rest);
  }

  lemma LastTurn(raw: Raw, args: seq<string>)
    requires args != []
    requires var t := TakeTurn(raw, args); if t.Stop? then t.result != Invalid else t.used == |args|
    ensures ScanFrom(raw, args) != Invalid
  {
    var t := TakeTurn(raw, args);
    if t.Continue? {
      assert args[t.used..] == [];
    }
  }

  lemma {:induction false} SetFlagsKeepDestination(raw: Raw, letters: string)
    requires forall c | c in letters :: IsSimpleLetter(c)
    ensures SetFlags(raw, letters).destination == raw.destination
    decreases |letters|
  {
    if letters != "" {
      assert letters[0] in letters;
      SetFlagsKeepDestination(SetFlag(raw, letters[0]), letters[1..]);
    }
  }

  /** The arguments with a group in one piece, and with its letters and its tail split up. */
  function Together(pre: seq<string>, letters: string, tail: string, post: seq<string>): seq<string> {
    pre + (["-" + letters + tail] + post)
  }

  function Apart(pre: seq<string>, letters: string, tail: string, post: seq<string>): seq<string> {
    pre + (Separate(letters) + (TailArg(tail) + post))
  }

  lemma ApartScan(pre: seq<string>, letters: string, tail: string, post: seq<string>)
    requires Reach(EMPTY, pre).Some? && forall c | c in letters :: IsSimpleLetter(c)
    ensures var mid := SetFlags(Reach(EMPTY, pre).value, letters);
            && ScanFrom(EMPTY, Apart(pre, letters, tail, post)) == ScanFrom(mid, TailArg(tail) + post)
            && mid.destination == Reach(EMPTY, pre).value.destination
  {
    var raw := Reach(EMPTY, pre).value;
    ReachRunning(EMPTY, pre);
    ReachThenScan(EMPTY, pre, Separate(letters) + (TailArg(tail) + post));
    SeparateScan(raw, letters, TailArg(tail) + post);
    SetFlagsKeepDestination(raw, letters);
  }

  /** Only a tail with a dash in front becomes a long argument. */
  lemma LongNeedsDash(tail: string, destinationGiven: bool)
    requires IsLongArgument("-" + tail, destinationGiven)
    ensures tail != "" && tail[0] == '-'
  {
    var arg := "-" + tail;
    assert |arg| >= 2 && arg[1] == '-' by {
      if EDITION + "=" <= arg {
        assert arg[1] == (EDITION + "=")[1];
      }
    }
    assert tail[0] == arg[1];
  }

  /** A tail that does not become such an argument can be split off. */
  lemma SplitsUnlessLong(pre: seq<string>, letters: string, tail: string, post: seq<string>)
    requires Reach(EMPTY, pre).Some? && letters != "" && (forall c | c in letters :: IsSimpleLetter(c))
    requires !IsLongArgument("-" + tail, Reach(EMPTY, pre).value.destination != "")
    ensures ScanFrom(EMPTY, Together(pre, letters, tail, post)) == ScanFrom(EMPTY, Apart(pre, letters, tail, post))
  {
    if tail != "" && tail[0] == '-' {
      DashInGroupInvalid(pre, letters, tail, post);
      ApartScan(pre, letters, tail, post);
      UnreadableStops(SetFlags(Reach(EMPTY, pre).value, letters), tail, post);
    } else {
      SplitBundle(pre, letters, tail, post);
    }
  }

  /** Splitting a group behind letters that neither take a value nor stop the scan is harmless,
      whatever follows, if and only if the tail does not become an argument the group could not
      hold: a long option, or the end-of-options mark where a destination may still come. */
  lemma SplitsExactly(pre: seq<string>, letters: string, tail: string)
    requires Reach(EMPTY, pre).Some? && letters != "" && (forall c | c in letters :: IsSimpleLetter(c))
    ensures (forall post :: ScanFrom(EMPTY, Together(pre, letters, tail, post))
                         == ScanFrom(EMPTY, Apart(pre, letters, tail, post)))
       <==> !IsLongArgument("-" + tail, Reach(EMPTY, pre).value.destination != "")
  {
    var raw, arg := Reach(EMPTY, pre).value, "-" + tail;
    if IsLongArgument(arg, raw.destination != "") {
      var post := Completion(arg);
      LongNeedsDash(tail, raw.destination != "");
      DashInGroupInvalid(pre, letters, tail, post);
      ApartScan(pre, letters, tail, post);
      CompletedReads(SetFlags(raw, letters), tail);
      assert ScanFrom(EMPTY, Together(pre, letters, tail, post)) != ScanFrom(EMPTY, Apart(pre, letters, tail, post));
    } else {
      forall post
        ensures ScanFrom(EMPTY, Together(pre, letters, tail, post)) == ScanFrom(EMPTY, Apart(pre, letters, tail, post))
      {
        SplitsUnlessLong(pre, letters, tail, post);
      }
    }
  }

  lemma JavaAlone(raw: Raw)
    requires !Stops(raw)
    ensures ScanFrom(raw, ["--java"]) == Scan(TurnOn(raw, JavaAlias))
  {
    assert "--java" == "-" + "-java" && ["--java"] + [] == ["--java"] && ["--java"][1..] == [];
    LongTurn(raw, "-java", []);
    NamesHoldNoEquals("--java");
    IndexAbsent("--java", '=');
  }

  /** Such a command line: -4-java is an error where -4 --java is not. */
  lemma DashDoesNotSplit()
    ensures ScanFrom(EMPTY, ["-4-java"]) == Invalid
    ensures ScanFrom(EMPTY, ["-4", "--java"]) == Scan(EMPTY.(on := {ForceIPv4, JavaAlias}))
  {
    assert ScanFrom(EMPTY, ["-4-java"]) == Invalid by {
      DashInGroupInvalid([], "4", "-java", []);
      assert "-4-java" == "-" + "4" + "-java";
      assert [] + (["-4-java"] + []) == ["-4-java"];
    }
    assert ScanFrom(EMPTY, ["-4", "--java"]) == ScanFrom(SetFlag(EMPTY, '4'), ["--java"]) by {
      OneLetter(EMPTY, '4', ["--java"]);
      assert "-4" == "-" + ['4'] && ["-4"] + ["--java"] == ["-4", "--java"];
      assert ["-4", "--java"][1..] == ["--java"];
    }
    JavaAlone(SetFlag(EMPTY, '4'));
  }

  // ----- splitting after help or version

  /** The letters of a group can all be read: flag letters to the end, or up to a value letter
      whose value is attached or follows. */
  predicate Readable(letters: string, following: seq<string>) {
    letters == "" ||
    if IsFlagLetter(letters[0]) then Readable(letters[1..], following)
    else IsValueLetter(letters[0]) && (letters[1..] != "" || following != [])
  }

  /** The help letter is among the letters before any value. */
  predicate AsksHelp(letters: string) {
    letters != "" && IsFlagLetter(letters[0]) && (letters[0] == 'h' || AsksHelp(letters[1..]))
  }

  lemma {:induction false} ReadableExactly(raw: Raw, letters: string, following: seq<string>)
    ensures var r := ShortFlags(raw, letters, following);
            && (r.Took? <==> Readable(letters, following))
            && (r.Took? ==>
                  && (ShowHelp in r.raw.on <==> ShowHelp in raw.on || AsksHelp(letters))
                  && (ShowVersion in raw.on ==> ShowVersion in r.raw.on))
    decreases |letters|
  {
    if letters != "" && IsFlagLetter(letters[0]) {
      ReadableExactly(SetFlag(raw, letters[0]), letters[1..], following);
    }
  }

  predicate IsStopLetter(c: char) {
    c == 'h' || c == 'V'
  }

  /** A stop letter ends the scan, so what follows it as arguments of its own is never read. */
  lemma StopAlone(raw: Raw, c: char, rest: seq<string>)
    requires IsStopLetter(c)
    ensures ScanFrom(raw, ["-" + [c]] + rest) == Finish(SetFlag(raw, c))
  {
    ShortTurn(raw, [c], rest);
    assert [c][1..] == "";
    assert ShortFlags(raw, [c], rest) == ShortFlags(SetFlag(raw, c), "", rest);
    SetFlagStops(raw, c);
  }

  /** In a group, what follows it is read, for better or worse. */
  lemma StopBundled(raw: Raw, c: char, tail: string, rest: seq<string>)
    requires IsStopLetter(c)
    ensures var r := ShortFlags(SetFlag(raw, c), tail, rest);
            ScanFrom(raw, ["-" + [c] + tail] + rest) == if r.Took? then Finish(r.raw) else Invalid
  {
    assert "-" + [c] + tail == "-" + ([c] + tail);
    assert ([c] + tail)[1..] == tail;
    ShortTurn(raw, [c] + tail, rest);
    SetFlagStops(raw, c);
    ReadableExactly(SetFlag(raw, c), tail, rest);
  }

  /** A group of simple letters, a stop letter and a tail. */
  lemma StopInGroup(raw: Raw, letters: string, c: char, tail: string, rest: seq<string>)
    requires (forall d | d in letters :: IsSimpleLetter(d)) && IsStopLetter(c)
    ensures var r := ShortFlags(SetFlag(SetFlags(raw, letters), c), tail, rest);
            ScanFrom(raw, ["-" + letters + ([c] + tail)] + rest) == if r.Took? then Finish(r.raw) else Invalid
  {
    if letters == "" {
      assert "-" + letters + ([c] + tail) == "-" + [c] + tail;
      StopBundled(raw, c, tail, rest);
    } else {
      var mid := SetFlags(raw, letters);
      GroupScan(raw, letters, [c] + tail, rest);
      assert ([c] + tail)[1..] == tail;
      assert ShortFlags(mid, [c] + tail, rest) == ShortFlags(SetFlag(mid, c), tail, rest);
      SetFlagStops(mid, c);
      ReadableExactly(SetFlag(mid, c), tail, rest);
    }
  }

  /** The same letters separately: the scan ends at the stop letter. */
  lemma StopSeparate(raw: Raw, letters: string, c: char, rest: seq<string>)
    requires !Stops(raw) && (forall d | d in letters :: IsSimpleLetter(d)) && IsStopLetter(c)
    ensures ScanFrom(raw, Separate(letters) + (["-" + [c]] + rest)) == Finish(SetFlag(SetFlags(raw, letters), c))
  {
    SeparateScan(raw, letters, ["-" + [c]] + rest);
    StopAlone(SetFlags(raw, letters), c, rest);
  }

  /** The arguments with the stop letter in a group, and with the group split up around it. */
  function Bundled(pre: seq<string>, letters: string, c: char, tail: string, post: seq<string>): seq<string> {
    pre + (["-" + letters + ([c] + tail)] + post)
  }

  function SplitUp(pre: seq<string>, letters: string, c: char, tail: string, post: seq<string>): seq<string> {
    pre + (Separate(letters) + (["-" + [c]] + (TailArg(tail) + post)))
  }

  lemma StopSplitAnywhere(pre: seq<string>, letters: string, c: char, tail: string, post: seq<string>)
    requires Reach(EMPTY, pre).Some? && (forall d | d in letters :: IsSimpleLetter(d)) && IsStopLetter(c)
    ensures var mid := SetFlag(SetFlags(Reach(EMPTY, pre).value, letters), c);
            var r := ShortFlags(mid, tail, post);
            && !Stops(SetFlags(Reach(EMPTY, pre).value, letters))
            && ScanFrom(EMPTY, Bundled(pre, letters, c, tail, post)) == (if r.Took? then Finish(r.raw) else Invalid)
            && ScanFrom(EMPTY, SplitUp(pre, letters, c, tail, post)) == Finish(mid)
  {
    var raw := Reach(EMPTY, pre).value;
    ReachRunning(EMPTY, pre);
    ReachThenScan(EMPTY, pre, ["-" + letters + ([c] + tail)] + post);
    ReachThenScan(EMPTY, pre, Separate(letters) + (["-" + [c]] + (TailArg(tail) + post)));
    SeparateScan(raw, letters, []);
    StopInGroup(raw, letters, c, tail, post);
    StopSeparate(raw, letters, c, TailArg(tail) + post);
  }

  /** Splitting a group at the help letter changes nothing if and only if the letters behind it
      can be read; otherwise the group is an error and the split command line is help. */
  lemma HelpSplitsExactly(pre: seq<string>, letters: string, tail: string, post: seq<string>)
    requires Reach(EMPTY, pre).Some? && forall d | d in letters :: IsSimpleLetter(d)
    ensures ScanFrom(EMPTY, SplitUp(pre, letters, 'h', tail, post)) == Help
    ensures ScanFrom(EMPTY, Bundled(pre, letters, 'h', tail, post)) == if Readable(tail, post) then Help else Invalid
  {
    StopSplitAnywhere(pre, letters, 'h', tail, post);
    ReadableExactly(SetFlag(SetFlags(Reach(EMPTY, pre).value, letters), 'h'), tail, post);
  }

  /** Such a command line: -hZ is an error where -h -Z is help. */
  lemma HelpDoesNotSplit()
    ensures ScanFrom(EMPTY, ["-hZ"]) == Invalid
    ensures ScanFrom(EMPTY, ["-h", "-Z"]) == Help
  {
    assert "-hZ"[1..] == "hZ" && "hZ"[1..] == "Z" && "-h"[1..] == "h" && "h"[1..] == "";
    assert ["-hZ"][1..] == [] && ["-h", "-Z"][1..] == ["-Z"];
  }

  // ----- moving the destination

  /** A complete option with its value, if it takes one; neither help nor version. */
  predicate IsOptionUnit(unit: seq<string>) {
    && unit != [] && IsOption(unit[0]) && unit[0] != "--"
    && var t := TakeTurn(EMPTY, unit);
       t.Continue? && t.used == |unit|
  }

  function Flatten(units: seq<seq<string>>): seq<string> {
    if units == [] then [] else units[0] + Flatten(units[1..])
  }

  /** How far a group is read does not depend on what has been read before. */
  lemma {:induction false} ShortAlike(r1: Raw, r2: Raw, letters: string, following: seq<string>)
    requires Stops(r1) == Stops(r2)
    ensures var a, b := ShortFlags(r1, letters, following), ShortFlags(r2, letters, following);
            a.Took? == b.Took? && (a.Took? ==> a.used == b.used && Stops(a.raw) == Stops(b.raw))
    decreases |letters|
  {
    if letters != "" && IsFlagLetter(letters[0]) {
      SetFlagStops(r1, letters[0]);
      SetFlagStops(r2, letters[0]);
      ShortAlike(SetFlag(r1, letters[0]), SetFlag(r2, letters[0]), letters[1..], following);
    }
  }

  lemma LongAlike(r1: Raw, r2: Raw, arg: string, following: seq<string>)
    requires Stops(r1) == Stops(r2)
    ensures var a, b := LongFlag(r1, arg, following), LongFlag(r2, arg, following);
            a.Took? == b.Took? && (a.Took? ==> a.used == b.used && Stops(a.raw) == Stops(b.raw))
  {
  }

  lemma OptionAlike(r1: Raw, r2: Raw, unit: seq<string>)
    requires unit != [] && IsOption(unit[0]) && unit[0] != "--" && !Stops(r1) && !Stops(r2)
    requires TakeTurn(r1, unit).Continue?
    ensures TakeTurn(r2, unit).Continue? && TakeTurn(r2, unit).used == TakeTurn(r1, unit).used
  {
    if HasPrefix(unit[0], "--") {
      LongAlike(r1, r2, unit[0], unit[1..]);
    } else {
      ShortAlike(r1, r2, unit[0][1..], unit[1..]);
    }
  }

  lemma {:induction false} ShortKeepsDestination(raw: Raw, letters: string, following: seq<string>, d: string)
    ensures match ShortFlags(raw, letters, following)
            case Refused => ShortFlags(raw.(destination := d), letters, following) == Refused
            case Took(next, used) =>
              && next.destination == raw.destination
              && ShortFlags(raw.(destination := d), letters, following) == Took(next.(destination := d), used)
    decreases |letters|
  {
    if letters != "" {
      var c := letters[0];
      if IsFlagLetter(c) {
        SetFlagKeepsDestination(raw, c, d);
        ShortKeepsDestination(SetFlag(raw, c), letters[1..], following, d);
      } else {
        SetValueKeeps(raw, c, letters[1..], d);
        if following != [] {
          SetValueKeeps(raw, c, following[0], d);
        }
      }
    }
  }

  lemma LongKeepsDestination(raw: Raw, arg: string, following: seq<string>, d: string)
    ensures match LongFlag(raw, arg, following)
            case Refused => LongFlag(raw.(destination := d), arg, following) == Refused
            case Took(next, used) =>
              && next.destination == raw.destination
              && LongFlag(raw.(destination := d), arg, following) == Took(next.(destination := d), used)
  {
  }

  /** Options neither look at the destination nor touch it. */
  lemma OptionKeepsDestination(raw: Raw, unit: seq<string>, d: string)
    requires unit != [] && IsOption(unit[0]) && unit[0] != "--" && TakeTurn(raw, unit).Continue?
    ensures var t := TakeTurn(raw, unit);
            && t.raw.destination == raw.destination
            && TakeTurn(raw.(destination := d), unit) == Continue(t.raw.(destination := d), t.used)
  {
    if HasPrefix(unit[0], "--") {
      LongKeepsDestination(raw, unit[0], unit[1..], d);
    } else {
      ShortKeepsDestination(raw, unit[0][1..], unit[1..], d);
    }
  }

  ghost predicate AllUnits(units: seq<seq<string>>) {
    forall u | u in units :: IsOptionUnit(u)
  }

  lemma {:induction false} UnitsReach(raw: Raw, units: seq<seq<string>>, d: string)
    requires !Stops(raw) && AllUnits(units)
    ensures Reach(raw, Flatten(units)).Some?
    ensures Reach(raw.(destination := d), Flatten(units))
         == Some(Reach(raw, Flatten(units)).value.(destination := d))
    decreases |units|
  {
    if units != [] {
      var u, rest := units[0], Flatten(units[1..]);
      assert u in units;
      OptionAlike(EMPTY, raw, u);
      OptionKeepsDestination(raw, u, d);
      var t := TakeTurn(raw, u);
      TurnExtends(raw, u, rest);
      TurnExtends(raw.(destination := d), u, rest);
      assert (u + rest)[|u|..] == rest;
      UnitsReach(t.raw, units[1..], d);
    }
  }

  lemma {:induction false} FlattenConcat(a: seq<seq<string>>, b: seq<seq<string>>)
    ensures Flatten(a + b) == Flatten(a) + Flatten(b)
  {
    if a == [] {
      assert a + b == b;
    } else {
      FlattenConcat(a[1..], b);
      assert (a + b)[1..] == a[1..] + b;
    }
  }

  lemma {:induction false} ReachConcat(raw: Raw, a: seq<string>, b: seq<string>)
    requires Reach(raw, a).Some?
    ensures Reach(raw, a + b) == Reach(Reach(raw, a).value, b)
    decreases |a|
  {
    if a == [] {
      assert a + b == b;
    } else {
      var t := TakeTurn(raw, a);
      ReachConcat(t.raw, a[t.used..], b);
      TurnExtends(raw, a, b);
      DropConcat(a, b, t.used);
      ReachStep(raw, a + b, t.raw, t.used);
    }
  }

  lemma ReachStep(raw: Raw, pre: seq<string>, next: Raw, used: nat)
    requires pre != [] && TakeTurn(raw, pre) == Continue(next, used)
    ensures Reach(raw, pre) == Reach(next, pre[used..])
  {
  }

  predicate IsPlainDestination(d: string) {
    d != "" && !IsOption(d)
  }

  /** Where among the options the destination stands makes no difference: the result is that of
      the options alone, with the destination filled in. */
  lemma DestinationAmongUnits(before: seq<seq<string>>, after: seq<seq<string>>, d: string)
    requires AllUnits(before) && AllUnits(after) && IsPlainDestination(d)
    ensures Reach(EMPTY, Flatten(before + after)).Some?
    ensures ScanFrom(EMPTY, Flatten(before) + ([d] + Flatten(after)))
         == Finish(Reach(EMPTY, Flatten(before + after)).value.(destination := d))
  {
    UnitsReach(EMPTY, before, "");
    var mid := Reach(EMPTY, Flatten(before)).value;
    assert EMPTY.(destination := "") == EMPTY;
    ReachRunning(EMPTY, Flatten(before));
    ReachThenScan(EMPTY, Flatten(before), [d] + Flatten(after));
    var args := [d] + Flatten(after);
    assert args[0] == d && args[1..] == Flatten(after);
    UnitsReach(mid, after, d);
    assert mid.destination == "";
    FlattenConcat(before, after);
    ReachConcat(EMPTY, Flatten(before), Flatten(after));
    ReachThenScan(mid.(destination := d), Flatten(after), []);
    assert Flatten(after) + [] == Flatten(after);
  }

  /** Hence the single destination may move to any boundary between options. */
  lemma MoveDestination(a: seq<seq<string>>, b: seq<seq<string>>, a': seq<seq<string>>, b': seq<seq<string>>, d: string)
    requires a + b == a' + b' && AllUnits(a + b) && IsPlainDestination(d)
    ensures ScanFrom(EMPTY, Flatten(a) + ([d] + Flatten(b))) == ScanFrom(EMPTY, Flatten(a') + ([d] + Flatten(b')))
  {
    PartsAreUnits(a, b);
    PartsAreUnits(a', b');
    DestinationAmongUnits(a, b, d);
    DestinationAmongUnits(a', b', d);
  }

  lemma PartsAreUnits(a: seq<seq<string>>, b: seq<seq<string>>)
    requires AllUnits(a + b)
    ensures AllUnits(a) && AllUnits(b)
  {
    forall u | u in a || u in b
      ensures IsOptionUnit(u)
    {
      assert u in a + b;
    }
  }
}
