/**
 The whole program: a command line is scanned, validated and turned into usage text, a version
 line, one JSON probe or a text session.
 */
module Program {
  import opened Argv
  import opened CliConfig
  import Session

  /** What lies outside: whether the target could be prepared, how a single probe went, and the
      tape a session runs on. */
  datatype World = World(prepared: bool, answered: bool, start: int, tape: seq<Session.Round>)

  /** The part of a configuration that a session depends on. */
  function SessionConfig(cfg: Config): Session.Config {
    Session.Config(cfg.count, cfg.interval, cfg.deadline, cfg.timeout, cfg.quiet, cfg.timestamp)
  }

  /** What the command line asks for; the first word is the program's own name. */
  function Asked(argv: seq<string>, lib: Library): Command {
    Interpret(ScanFrom(EMPTY, if |argv| > 1 then argv[1..] else []), lib)
  }

  lemma AskedIsSound(argv: seq<string>, lib: Library)
    ensures Asked(argv, lib).Probe? ==> Sound(Asked(argv, lib).config, lib)
  {
    var scanned := ScanFrom(EMPTY, if |argv| > 1 then argv[1..] else []);
    if scanned.Scan? {
      NormalizedIsSound(scanned.raw, lib);
    }
  }

  /** Rounds within which the session of a sound configuration is over: its count, or one for
      every nanosecond of its deadline and one more. */
  predicate LongEnough(cfg: Config, rounds: nat) {
    0 < cfg.count <= rounds || 0 < cfg.deadline < rounds
  }

  /** Every probe gets a timeout of at most half a minute, and some. */
  predicate TimeoutsBounded(probes: seq<Session.Probe>) {
    forall k | 0 <= k < |probes| :: 0 < probes[k].timeout <= 30_000_000_000
  }

  lemma IntervalsFill(n: nat, interval: int, deadline: int)
    requires interval > 0 && n > 0 && n > deadline
    ensures (n - 1) * interval >= deadline
  {
    var m := n - 1;
    assert m * interval == m + m * (interval - 1) && m * (interval - 1) >= 0;
  }

  /** A session goes by the configuration it is given: the probes start an interval apart or when
      the round before is done, which includes stamping a reply line only if lines are printed and
      stamped, and their timeout is the configured one, cut down to the time left. */
  lemma SessionKeepsConfig(cfg: Config, probes: seq<Session.Probe>, tape: seq<Session.Round>, start: int, k: nat)
    requires Session.FromTape(probes, tape, SessionConfig(cfg), start) && k < |probes|
    ensures var left := start + cfg.deadline - probes[k].launch;
            probes[k].timeout == if cfg.deadline > 0 && left < cfg.timeout then left else cfg.timeout
    ensures k > 0 ==>
              var p, r := probes[k - 1], tape[k - 1];
              var spent := p.launch - p.start + r.probeTime + r.paceGap
                           + (if r.answered && cfg.timestamp && !cfg.quiet then r.stampGap else 0)
                           + (if cfg.deadline > 0 then r.recheckGap else 0);
              probes[k].start - p.start
                == (if spent < cfg.interval then cfg.interval else spent) + r.oversleep + tape[k].startGap
                   + (if cfg.deadline > 0 then tape[k].checkGap else 0)
    ensures cfg.count > 0 ==> k < cfg.count
  {
    Session.StartsExactly(probes, tape, SessionConfig(cfg), start, k);
    Session.LaunchesExactly(probes, tape, SessionConfig(cfg), start, k);
    Session.AtRound(probes, tape, SessionConfig(cfg), start, k);
  }

  /** The program's own name does not matter, and without arguments there is nothing to read. */
  lemma NameIgnored(name: string, args: seq<string>, lib: Library)
    ensures Asked([name] + args, lib) == Interpret(ScanFrom(EMPTY, args), lib)
    ensures Asked([], lib) == Interpret(ScanFrom(EMPTY, []), lib)
  {
    assert ([name] + args)[1..] == args;
  }

  /** Bounded and paced probes, and an end on every tape long enough. */
  ghost predicate WellRun(cfg: Config, probes: seq<Session.Probe>, tape: seq<Session.Round>, start: int)
    requires |probes| <= |tape|
  {
    && TimeoutsBounded(probes)
    && cfg.interval > 0
    && (forall k | 0 < k < |probes| :: probes[k].start >= probes[k - 1].start + cfg.interval)
    && (cfg.count > 0 ==> |probes| <= cfg.count)
    && (cfg.deadline > 0 && probes != [] ==> (|probes| - 1) * cfg.interval < cfg.deadline)
    && (|probes| == |tape| && LongEnough(cfg, |tape|) ==> Session.Ended(probes, tape, SessionConfig(cfg), start))
  }

  lemma BoundedTimeouts(probes: seq<Session.Probe>, cfg: Config, start: int)
    requires Session.Paced(probes, SessionConfig(cfg), start) && 0 < cfg.timeout <= MAX_ALLOWED_TIMEOUT
    ensures TimeoutsBounded(probes)
    ensures forall k | 0 < k < |probes| :: probes[k].start >= probes[k - 1].start + cfg.interval
  {
    forall k | 0 <= k < |probes|
      ensures 0 < probes[k].timeout <= 30_000_000_000
    {
      assert Session.ProbeTimed(probes[k], SessionConfig(cfg), start);
    }
  }

  lemma DeadlineBounds(probes: seq<Session.Probe>, cfg: Config, start: int)
    requires Session.Paced(probes, SessionConfig(cfg), start) && cfg.interval > 0 && cfg.deadline > 0 && probes != []
    ensures (|probes| - 1) * cfg.interval < cfg.deadline && |probes| <= cfg.deadline
  {
    Session.DeadlineBoundsProbes(probes, SessionConfig(cfg), start);
    if |probes| > cfg.deadline {
      IntervalsFill(|probes|, cfg.interval, cfg.deadline);
    }
  }

  lemma SoundSession(cfg: Config, probes: seq<Session.Probe>, tape: seq<Session.Round>, start: int)
    requires cfg.interval > 0 && 0 < cfg.timeout <= MAX_ALLOWED_TIMEOUT
    requires Session.FromTape(probes, tape, SessionConfig(cfg), start)
    ensures WellRun(cfg, probes, tape, start)
  {
    Session.TapeKeepsPace(probes, tape, SessionConfig(cfg), start);
    BoundedTimeouts(probes, cfg, start);
    if cfg.deadline > 0 && probes != [] {
      DeadlineBounds(probes, cfg, start);
    }
  }

  /** For every command line that is accepted, any session it runs sends bounded, paced probes;
      and if it has a count or a deadline, the session is over on every tape long enough. */
  lemma AcceptedSession(argv: seq<string>, lib: Library, probes: seq<Session.Probe>, tape: seq<Session.Round>,
                        start: int)
    requires Asked(argv, lib).Probe?
    requires Session.FromTape(probes, tape, SessionConfig(Asked(argv, lib).config), start)
    ensures WellRun(Asked(argv, lib).config, probes, tape, start)
  {
    AskedIsSound(argv, lib);
    SoundSession(Asked(argv, lib).config, probes, tape, start);
  }

  /** What a session's exit status says about its probes. */
  predicate ExitSays(exit: int, cfg: Config, probes: seq<Session.Probe>) {
    && (exit == 0 || exit == 1)
    && (exit == 0 <==>
          if cfg.count > 0 && cfg.deadline > 0
          then |probes| == cfg.count && (forall k | 0 <= k < |probes| :: probes[k].answered)
          else exists k :: 0 <= k < |probes| && probes[k].answered)
  }

  lemma {:induction false} AnsweredMeans(probes: seq<Session.Probe>)
    ensures Session.Answered(probes) == |probes| <==> forall k | 0 <= k < |probes| :: probes[k].answered
    ensures Session.Answered(probes) > 0 <==> exists k :: 0 <= k < |probes| && probes[k].answered
  {
    if probes != [] {
      var last := |probes| - 1;
      AnsweredMeans(probes[..last]);
      assert probes == probes[..last] + [probes[last]];
    }
  }

  /** One run of the program. If the tape ends first, finished is false and the result is the
      run so far. */
  method RunWithRuntime(argv: seq<string>, lib: Library, world: World)
    returns (finished: bool, probes: seq<Session.Probe>, lines: seq<nat>, exit: int)
    ensures match Asked(argv, lib)
            case UsageError => finished && exit == 2 && probes == []
            case ShowUsage => finished && exit == 0 && probes == []
            case ShowVersionLine => finished && exit == 0 && probes == []
            case Probe(cfg) =>
              if !world.prepared then finished && exit == 2 && probes == []
              else if cfg.json then
                finished && |probes| == 1 && probes[0].timeout == cfg.timeout && exit == (if world.answered then 0 else 1)
              else
                && Session.FromTape(probes, world.tape, SessionConfig(cfg), world.start)
                && (finished <==> Session.Ended(probes, world.tape, SessionConfig(cfg), world.start))
                && (LongEnough(cfg, |world.tape|) ==> finished)
                && WellRun(cfg, probes, world.tape, world.start)
                && ExitSays(exit, cfg, probes)
                && lines == (if cfg.quiet then [] else Session.ReplySeqs(probes))
    ensures TimeoutsBounded(probes)
  {
    var command := ParseCLIConfig(if |argv| > 1 then argv[1..] else [], lib);
    finished, probes, lines := true, [], [];
    match command {
      case ShowUsage => exit := 0;
      case UsageError => exit := 2;
      case ShowVersionLine => exit := 0;
      case Probe(cfg) =>
        if !world.prepared {
          exit := 2;
        } else if cfg.json {
          probes := [Session.Probe(world.start, world.start, cfg.timeout, world.answered, 0)];
          exit := if world.answered then 0 else 1;
        } else {
          finished, probes, lines, exit := RunSession(cfg, world);
          AcceptedSession(argv, lib, probes, world.tape, world.start);
        }
    }
  }

  method RunSession(cfg: Config, world: World)
    returns (finished: bool, probes: seq<Session.Probe>, lines: seq<nat>, exit: int)
    ensures Session.FromTape(probes, world.tape, SessionConfig(cfg), world.start)
    ensures finished <==> Session.Ended(probes, world.tape, SessionConfig(cfg), world.start)
    ensures !finished ==> |probes| == |world.tape|
    ensures ExitSays(exit, cfg, probes)
    ensures lines == if cfg.quiet then [] else Session.ReplySeqs(probes)
  {
    var transmitted, received, min, max, mean, m2, loss, end;
    finished, probes, lines, transmitted, received, min, max, mean, m2, loss, end, exit :=
      Session.RunTextSession(SessionConfig(cfg), world.start, world.tape);
    AnsweredMeans(probes);
  }
}
