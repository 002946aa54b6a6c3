/**
 The text session: probes at a fixed pace until a count, a deadline or an interrupt ends it.
 The environment is a tape with one entry per round of the loop, holding how much the clock
 has moved at each reading and what the probe, the context and the sleep did, so that every
 tape is a possible run of a monotone clock.
 */
module Session {
  import opened RttStats

  /** Durations in nanoseconds; a count or deadline of zero or less means none was set. */
  datatype Config = Config(count: int, interval: int, deadline: int, timeout: int, quiet: bool, timestamp: bool)

  datatype Round = Round(
    checkGap: nat, startGap: nat, remainingGap: nat,
    probeTime: nat, answered: bool, latency: int, stampGap: nat,
    interrupted: bool, recheckGap: nat, paceGap: nat,
    sleepFails: bool, oversleep: nat)

  /** What one round did: when it read its start time, when the probe went out, with what
      timeout, and what came back. */
  datatype Probe = Probe(start: int, launch: int, timeout: int, answered: bool, latency: int)

  // ----- what the log says

  function Answered(probes: seq<Probe>): (n: nat)
    ensures n <= |probes|
  {
    if probes == [] then 0
    else Answered(probes[..|probes| - 1]) + if probes[|probes| - 1].answered then 1 else 0
  }

  /** The 1-based ordinals of the answered probes. */
  function ReplySeqs(probes: seq<Probe>): seq<nat> {
    if probes == [] then []
    else ReplySeqs(probes[..|probes| - 1]) + if probes[|probes| - 1].answered then [|probes|] else []
  }

  function Latencies(probes: seq<Probe>): seq<real> {
    if probes == [] then []
    else
      var last := probes[|probes| - 1];
      Latencies(probes[..|probes| - 1]) + if last.answered then [Millis(last.latency)] else []
  }

  /** Reply lines carry the ordinals of the answered probes, each once, in order. */
  lemma {:induction false} ReplySeqsExact(probes: seq<Probe>)
    ensures |ReplySeqs(probes)| == |Latencies(probes)| == Answered(probes)
    ensures forall k :: k in ReplySeqs(probes) <==> 1 <= k <= |probes| && probes[k - 1].answered
    ensures forall a, b | 0 <= a < b < |ReplySeqs(probes)| :: ReplySeqs(probes)[a] < ReplySeqs(probes)[b]
  {
    if probes != [] {
      var front := probes[..|probes| - 1];
      ReplySeqsExact(front);
      assert forall a | 0 <= a < |ReplySeqs(front)| :: ReplySeqs(front)[a] in ReplySeqs(front);
    }
  }

  /** And the samples are those probes' latencies in milliseconds. */
  lemma {:induction false} SamplesExact(probes: seq<Probe>, a: nat)
    requires a < |ReplySeqs(probes)|
    ensures |Latencies(probes)| == |ReplySeqs(probes)| && 1 <= ReplySeqs(probes)[a] <= |probes|
    ensures Latencies(probes)[a] * 1000000.0 == probes[ReplySeqs(probes)[a] - 1].latency as real
  {
    var front := probes[..|probes| - 1];
    ReplySeqsExact(probes);
    ReplySeqsExact(front);
    if a < |ReplySeqs(front)| {
      SamplesExact(front, a);
    }
  }

  // ----- timing

  predicate ProbeTimed(p: Probe, cfg: Config, start: int) {
    && start <= p.start <= p.launch
    && p.timeout <= cfg.timeout
    && (cfg.timeout > 0 ==> p.timeout > 0)
    && (cfg.deadline > 0 ==> p.launch < start + cfg.deadline && p.timeout <= start + cfg.deadline - p.launch)
  }

  /** Every probe in time, and each at least one interval after the one before. */
  predicate Paced(probes: seq<Probe>, cfg: Config, start: int) {
    && (forall k | 0 <= k < |probes| :: ProbeTimed(probes[k], cfg, start))
    && (forall k | 0 < k < |probes| :: probes[k].start >= probes[k - 1].start + cfg.interval)
  }

  lemma {:induction false} PaceAddsUp(probes: seq<Probe>, cfg: Config, start: int, k: nat)
    requires Paced(probes, cfg, start) && k < |probes|
    ensures probes[k].start >= start + k * cfg.interval
  {
    if k > 0 {
      PaceAddsUp(probes, cfg, start, k - 1);
      assert k * cfg.interval == (k - 1) * cfg.interval + cfg.interval;
    }
  }

  /** A deadline bounds the number of probes, count or no count. */
  lemma DeadlineBoundsProbes(probes: seq<Probe>, cfg: Config, start: int)
    requires Paced(probes, cfg, start) && cfg.deadline > 0 && probes != []
    ensures (|probes| - 1) * cfg.interval < cfg.deadline
  {
    PaceAddsUp(probes, cfg, start, |probes| - 1);
  }

  lemma LogSnoc(probes: seq<Probe>, p: Probe)
    ensures Answered(probes + [p]) == Answered(probes) + if p.answered then 1 else 0
    ensures ReplySeqs(probes + [p]) == if p.answered then ReplySeqs(probes) + [|probes| + 1] else ReplySeqs(probes)
    ensures Latencies(probes + [p]) == if p.answered then Latencies(probes) + [Millis(p.latency)] else Latencies(probes)
  {
    var all := probes + [p];
    assert all[..|all| - 1] == probes && all[|all| - 1] == p;
  }

  // ----- the run a tape determines

  /** When a round is done with its probe: after a stamped reply the clock is read once more. */
  function Settled(p: Probe, r: Round, cfg: Config): int {
    p.launch + r.probeTime + if r.answered && !cfg.quiet && cfg.timestamp then r.stampGap else 0
  }

  /** When the next round begins: as soon as this one is done, but not before an interval has
      passed since its start. */
  function ReadyAfter(p: Probe, r: Round, cfg: Config): (next: int)
    ensures next >= p.start + cfg.interval && next >= Settled(p, r, cfg)
  {
    var done := Settled(p, r, cfg) + (if cfg.deadline > 0 then r.recheckGap else 0) + r.paceGap;
    r.oversleep + if done < p.start + cfg.interval then p.start + cfg.interval else done
  }

  function ReadyAt(probes: seq<Probe>, tape: seq<Round>, cfg: Config, start: int): int
    requires |probes| <= |tape|
  {
    if probes == [] then start else ReadyAfter(probes[|probes| - 1], tape[|probes| - 1], cfg)
  }

  /** The deadline passes before the probe of a round can go out. */
  predicate OutOfTime(ready: int, r: Round, cfg: Config, start: int) {
    cfg.deadline > 0 && ready + r.checkGap + r.startGap + r.remainingGap >= start + cfg.deadline
  }

  /** The probe of a round that is ready at the given time. */
  predicate IsProbeOf(p: Probe, r: Round, ready: int, cfg: Config, start: int) {
    && p.answered == r.answered && p.latency == r.latency
    && p.start == ready + r.startGap + (if cfg.deadline > 0 then r.checkGap else 0)
    && p.launch == p.start + (if cfg.deadline > 0 then r.remainingGap else 0)
    && p.timeout == if cfg.deadline > 0 && start + cfg.deadline - p.launch < cfg.timeout
                    then start + cfg.deadline - p.launch else cfg.timeout
  }

  /** A round's probe, the n-th, is not the last of the session. */
  predicate RoundGoesOn(p: Probe, r: Round, n: nat, cfg: Config, start: int) {
    && !r.interrupted && !r.sleepFails
    && (cfg.count > 0 ==> n < cfg.count)
    && (cfg.deadline > 0 ==> Settled(p, r, cfg) + r.recheckGap < start + cfg.deadline)
  }

  predicate GoesOn(probes: seq<Probe>, tape: seq<Round>, cfg: Config, start: int)
    requires |probes| <= |tape|
  {
    probes == [] || RoundGoesOn(probes[|probes| - 1], tape[|probes| - 1], |probes|, cfg, start)
  }

  /** Probe by probe, the log is what the tape says. */
  predicate FromTape(probes: seq<Probe>, tape: seq<Round>, cfg: Config, start: int) {
    |probes| <= |tape| &&
    (probes == [] ||
     var last := |probes| - 1;
     var front, ready := probes[..last], ReadyAt(probes[..last], tape, cfg, start);
     && FromTape(front, tape, cfg, start) && GoesOn(front, tape, cfg, start)
     && !OutOfTime(ready, tape[last], cfg, start) && IsProbeOf(probes[last], tape[last], ready, cfg, start))
  }

  /** The session is over after these probes. */
  predicate Ended(probes: seq<Probe>, tape: seq<Round>, cfg: Config, start: int)
    requires |probes| <= |tape|
  {
    || !GoesOn(probes, tape, cfg, start)
    || (|probes| < |tape| && OutOfTime(ReadyAt(probes, tape, cfg, start), tape[|probes|], cfg, start))
  }

  lemma FromTapeSnoc(probes: seq<Probe>, p: Probe, tape: seq<Round>, cfg: Config, start: int)
    requires FromTape(probes, tape, cfg, start) && GoesOn(probes, tape, cfg, start) && |probes| < |tape|
    requires var ready := ReadyAt(probes, tape, cfg, start);
             && !OutOfTime(ready, tape[|probes|], cfg, start)
             && IsProbeOf(p, tape[|probes|], ready, cfg, start)
    ensures FromTape(probes + [p], tape, cfg, start)
    ensures GoesOn(probes + [p], tape, cfg, start) == RoundGoesOn(p, tape[|probes|], |probes| + 1, cfg, start)
    ensures ReadyAt(probes + [p], tape, cfg, start) == ReadyAfter(p, tape[|probes|], cfg)
  {
    assert (probes + [p])[..|probes|] == probes;
  }

  lemma ProbeOfIsTimed(p: Probe, r: Round, ready: int, cfg: Config, start: int)
    requires ready >= start && !OutOfTime(ready, r, cfg, start) && IsProbeOf(p, r, ready, cfg, start)
    ensures p.start >= ready && ProbeTimed(p, cfg, start)
  {
  }

  lemma PacedSnoc(probes: seq<Probe>, p: Probe, cfg: Config, start: int)
    requires Paced(probes, cfg, start) && ProbeTimed(p, cfg, start)
    requires probes != [] ==> p.start >= probes[|probes| - 1].start + cfg.interval
    ensures Paced(probes + [p], cfg, start)
  {
  }

  /** Every log of a tape keeps the pace. */
  lemma {:induction false} TapeKeepsPace(probes: seq<Probe>, tape: seq<Round>, cfg: Config, start: int)
    requires FromTape(probes, tape, cfg, start)
    ensures Paced(probes, cfg, start) && ReadyAt(probes, tape, cfg, start) >= start
    ensures probes != [] ==> ReadyAt(probes, tape, cfg, start) >= probes[|probes| - 1].start + cfg.interval
  {
    if probes != [] {
      var k := |probes| - 1;
      var front := probes[..k];
      TapeKeepsPace(front, tape, cfg, start);
      ProbeOfIsTimed(probes[k], tape[k], ReadyAt(front, tape, cfg, start), cfg, start);
      PacedSnoc(front, probes[k], cfg, start);
      assert probes == front + [probes[k]];
    }
  }

  /** A log and a tape leave no choice: two logs of a tape that are both over, or both as long as
      it, are the same. */
  lemma OneRunPerTape(a: seq<Probe>, b: seq<Probe>, tape: seq<Round>, cfg: Config, start: int)
    requires FromTape(a, tape, cfg, start) && FromTape(b, tape, cfg, start)
    requires Ended(a, tape, cfg, start) || |a| == |tape|
    requires Ended(b, tape, cfg, start) || |b| == |tape|
    ensures a == b
  {
    if |a| < |b| {
      Prefix(a, b, tape, cfg, start);
    } else {
      Prefix(b, a, tape, cfg, start);
    }
  }

  lemma {:induction false} Prefix(a: seq<Probe>, b: seq<Probe>, tape: seq<Round>, cfg: Config, start: int)
    requires FromTape(a, tape, cfg, start) && FromTape(b, tape, cfg, start) && |a| <= |b|
    ensures a == b[..|a|]
    ensures |a| < |b| ==> !Ended(a, tape, cfg, start)
    decreases |b|
  {
    if |a| < |b| {
      var front := b[..|b| - 1];
      Prefix(a, front, tape, cfg, start);
      assert front[..|a|] == b[..|a|];
      if |a| == |front| {
        assert a == front;
      }
    } else if a != [] {
      var k := |a| - 1;
      Prefix(a[..k], b[..k], tape, cfg, start);
      assert b[..k][..k] == b[..k];
      assert a[k] == b[k];
      assert a == a[..k] + [a[k]] && b == b[..k] + [b[k]] && b[..|a|] == b;
    }
  }

  // ----- when each probe goes out

  lemma {:induction false} AtRound(probes: seq<Probe>, tape: seq<Round>, cfg: Config, start: int, k: nat)
    requires FromTape(probes, tape, cfg, start) && k < |probes|
    ensures GoesOn(probes[..k], tape, cfg, start)
    ensures var ready := ReadyAt(probes[..k], tape, cfg, start);
            !OutOfTime(ready, tape[k], cfg, start) && IsProbeOf(probes[k], tape[k], ready, cfg, start)
  {
    if k < |probes| - 1 {
      var front := probes[..|probes| - 1];
      AtRound(front, tape, cfg, start, k);
      assert front[..k] == probes[..k] && front[k] == probes[k];
    }
  }

  /** What the clock readings of a round add before its probe starts. */
  function Lead(r: Round, cfg: Config): nat {
    r.startGap + if cfg.deadline > 0 then r.checkGap else 0
  }

  /** The first probe starts at once. Each later one starts an interval after the one before it,
      or, when that round took longer, as soon as the round is done: after the probe itself and
      the clock readings that follow it. Only oversleeping and the round's own clock readings
      come on top. */
  lemma StartsExactly(probes: seq<Probe>, tape: seq<Round>, cfg: Config, start: int, k: nat)
    requires FromTape(probes, tape, cfg, start) && k < |probes|
    ensures k == 0 ==> probes[0].start == start + Lead(tape[0], cfg)
    ensures k > 0 ==>
              var p, r := probes[k - 1], tape[k - 1];
              var spent := p.launch - p.start + r.probeTime + r.paceGap
                           + (if r.answered && cfg.timestamp && !cfg.quiet then r.stampGap else 0)
                           + (if cfg.deadline > 0 then r.recheckGap else 0);
              probes[k].start - p.start
                == (if spent < cfg.interval then cfg.interval else spent) + r.oversleep + Lead(tape[k], cfg)
  {
    AtRound(probes, tape, cfg, start, k);
    assert k > 0 ==> probes[..k][k - 1] == probes[k - 1];
  }

  /** When a probe is launched and how long it may take. */
  lemma LaunchesExactly(probes: seq<Probe>, tape: seq<Round>, cfg: Config, start: int, k: nat)
    requires FromTape(probes, tape, cfg, start) && k < |probes|
    ensures cfg.deadline <= 0 ==> probes[k].launch == probes[k].start && probes[k].timeout == cfg.timeout
    ensures cfg.deadline > 0 ==>
              var left := start + cfg.deadline - probes[k].launch;
              && probes[k].launch == probes[k].start + tape[k].remainingGap && left > 0
              && probes[k].timeout == if left < cfg.timeout then left else cfg.timeout
    ensures probes[k].answered == tape[k].answered && probes[k].latency == tape[k].latency
    ensures k > 0 ==> !tape[k - 1].interrupted && !tape[k - 1].sleepFails
  {
    AtRound(probes, tape, cfg, start, k);
  }

  /** A round that takes no time but its probe's. */
  predicate NoGaps(r: Round) {
    r.checkGap == r.startGap == r.remainingGap == r.stampGap == r.recheckGap == r.paceGap == r.oversleep == 0
  }

  /** With a clock that stands still between probes, every probe is done within the interval. */
  predicate Steady(tape: seq<Round>, interval: int) {
    forall r | r in tape :: NoGaps(r) && r.probeTime <= interval
  }

  predicate AtMultiples(probes: seq<Probe>, start: int, interval: int) {
    forall k | 0 <= k < |probes| :: probes[k].start == start + k * interval
  }

  lemma {:induction false} SteadyProbe(probes: seq<Probe>, tape: seq<Round>, cfg: Config, start: int, k: nat)
    requires FromTape(probes, tape, cfg, start) && k < |probes| && Steady(tape, cfg.interval)
    ensures probes[k].start == probes[k].launch == start + k * cfg.interval
  {
    StartsExactly(probes, tape, cfg, start, k);
    LaunchesExactly(probes, tape, cfg, start, k);
    assert tape[k] in tape;
    if k > 0 {
      SteadyProbe(probes, tape, cfg, start, k - 1);
      assert tape[k - 1] in tape;
      assert k * cfg.interval == (k - 1) * cfg.interval + cfg.interval;
    }
  }

  /** Then the probes go out at exact multiples of the interval. */
  lemma SteadyPace(probes: seq<Probe>, tape: seq<Round>, cfg: Config, start: int)
    requires FromTape(probes, tape, cfg, start) && Steady(tape, cfg.interval)
    ensures AtMultiples(probes, start, cfg.interval)
  {
    forall k | 0 <= k < |probes|
      ensures probes[k].start == start + k * cfg.interval
    {
      SteadyProbe(probes, tape, cfg, start, k);
    }
  }

  /** A probe that takes the interval or longer is followed by the next one with no sleep. */
  lemma NoSleepWhenLate(probes: seq<Probe>, tape: seq<Round>, cfg: Config, start: int, k: nat)
    requires FromTape(probes, tape, cfg, start) && 0 < k < |probes|
    requires NoGaps(tape[k - 1]) && NoGaps(tape[k]) && tape[k - 1].probeTime >= cfg.interval
    ensures probes[k].start == probes[k - 1].launch + tape[k - 1].probeTime
  {
    StartsExactly(probes, tape, cfg, start, k);
    LaunchesExactly(probes, tape, cfg, start, k - 1);
  }

  // ----- results

  function PacketLossPercent(transmitted: nat, received: nat): real {
    if transmitted == 0 then 0.0 else (transmitted - received) as real * 100.0 / transmitted as real
  }

  /** The part of the probes that was lost, in percent: between none and all, zero exactly when
      nothing was lost, a hundred exactly when probes went out and none came back. */
  lemma LossInRange(transmitted: nat, received: nat)
    requires received <= transmitted
    ensures PacketLossPercent(transmitted, received) * transmitted as real == 100.0 * (transmitted - received) as real
    ensures 0.0 <= PacketLossPercent(transmitted, received) <= 100.0
    ensures PacketLossPercent(transmitted, received) == 0.0 <==> received == transmitted
    ensures PacketLossPercent(transmitted, received) == 100.0 <==> transmitted > 0 && received == 0
  {
    if transmitted > 0 {
      var t, l := transmitted as real, (transmitted - received) as real;
      var loss := l * 100.0 / t;
      assert loss * t == l * 100.0;
      Divide(0.0, loss, t);
      Divide(loss, 100.0, t);
    }
  }

  function ExitStatus(cfg: Config, received: nat): int {
    if cfg.count > 0 && cfg.deadline > 0 && received < cfg.count then 1
    else if received == 0 then 1
    else 0
  }

  /** With both a count and a deadline, success means exactly count probes, all answered;
      otherwise it means that some probe was answered. */
  lemma ExitMeans(cfg: Config, transmitted: nat, received: nat)
    requires received <= transmitted && (cfg.count > 0 ==> transmitted <= cfg.count)
    ensures cfg.count > 0 && cfg.deadline > 0 ==>
              (ExitStatus(cfg, received) == 0 <==> transmitted == received == cfg.count)
    ensures cfg.count <= 0 || cfg.deadline <= 0 ==> (ExitStatus(cfg, received) == 0 <==> received > 0)
  {
  }

  // ----- the loop

  /** The checks before a probe: whether to send one, when it starts and with what timeout. */
  method PlanProbe(cfg: Config, start: int, now: int, round: Round)
    returns (go: bool, probeStart: int, launch: int, timeout: int)
    requires now >= start
    ensures go <==> !OutOfTime(now, round, cfg, start)
    ensures go ==>
              var p := Probe(probeStart, launch, timeout, round.answered, round.latency);
              now <= probeStart && ProbeTimed(p, cfg, start) && IsProbeOf(p, round, now, cfg, start)
    ensures !go ==> cfg.deadline > 0 && launch >= start + cfg.deadline
  {
    go, probeStart, launch, timeout := true, now, now, cfg.timeout;
    var hasDeadline, deadlineAt := cfg.deadline > 0, start + cfg.deadline;
    if hasDeadline {
      launch := launch + round.checkGap;
      if launch >= deadlineAt {
        return false, probeStart, launch, timeout;
      }
    }
    launch := launch + round.startGap;
    probeStart := launch;
    if hasDeadline {
      launch := launch + round.remainingGap;
      var remaining := deadlineAt - launch;
      if remaining <= 0 {
        return false, probeStart, launch, timeout;
      }
      if remaining < timeout {
        timeout := remaining;
      }
    }
  }

  /** The checks and the sleep after a probe: going on means the interval since its start has
      passed. */
  method AwaitNext(cfg: Config, start: int, transmitted: nat, p: Probe, now: int, round: Round)
    returns (go: bool, next: int)
    requires now == Settled(p, round, cfg)
    ensures next >= now
    ensures go <==> RoundGoesOn(p, round, transmitted, cfg, start)
    ensures go ==> next == ReadyAfter(p, round, cfg)
    ensures go ==>
              var passed := now - p.start + (if cfg.deadline > 0 then round.recheckGap else 0) + round.paceGap;
              next - p.start == (if passed < cfg.interval then cfg.interval else passed) + round.oversleep
    ensures !go && !round.interrupted && !(cfg.count > 0 && transmitted >= cfg.count) && !round.sleepFails ==>
              cfg.deadline > 0 && next >= start + cfg.deadline
  {
    next := now;
    if round.interrupted {
      return false, next;
    }
    if cfg.count > 0 && transmitted >= cfg.count {
      return false, next;
    }
    if cfg.deadline > 0 {
      next := next + round.recheckGap;
      if next >= start + cfg.deadline {
        return false, next;
      }
    }
    next := next + round.paceGap;
    var pause := cfg.interval - (next - p.start);
    var sleepFor := if pause > 0 then pause else 0;
    if round.sleepFails {
      return false, next + round.oversleep;
    }
    return true, next + sleepFor + round.oversleep;
  }

  /** Printing a reply, which reads the clock once more when lines are stamped. */
  method ReplyLine(cfg: Config, lines: seq<nat>, seqNo: nat, now: int, round: Round)
    returns (lines': seq<nat>, now': int)
    ensures lines' == if cfg.quiet then lines else lines + [seqNo]
    ensures now' == now + if !cfg.quiet && cfg.timestamp then round.stampGap else 0
  {
    lines', now' := lines, now;
    if !cfg.quiet {
      if cfg.timestamp {
        now' := now + round.stampGap;
      }
      lines' := lines + [seqNo];
    }
  }

  /** Counters, reply lines and samples agree with the log of probes. */
  ghost predicate LogKept(cfg: Config, probes: seq<Probe>, lines: seq<nat>, transmitted: nat, received: nat,
                          samples: seq<real>) {
    && transmitted == |probes| && received == Answered(probes)
    && lines == (if cfg.quiet then [] else ReplySeqs(probes))
    && samples == Latencies(probes)
  }

  /** Counting a probe and, when it was answered, adding its sample and printing its line. */
  method Record(cfg: Config, p: Probe, round: Round, rtt: Stats, ghost probes: seq<Probe>,
                ghost samples: seq<real>, lines: seq<nat>, transmitted: nat, received: nat, seqNo: nat)
    returns (now: int, lines': seq<nat>, transmitted': nat, received': nat)
    requires LogKept(cfg, probes, lines, transmitted, received, samples) && seqNo == transmitted + 1
    requires rtt.Of(samples) && rtt.count == received && p.answered == round.answered && p.latency == round.latency
    modifies rtt
    ensures now == Settled(p, round, cfg) && transmitted' == transmitted + 1
    ensures LogKept(cfg, probes + [p], lines', transmitted', received', Latencies(probes + [p]))
    ensures rtt.Of(Latencies(probes + [p])) && rtt.count == received'
  {
    LogSnoc(probes, p);
    transmitted', received', lines' := transmitted + 1, received, lines;
    now := p.launch + round.probeTime;
    if round.answered {
      received' := received + 1;
      rtt.Add(round.latency, samples);
      lines', now := ReplyLine(cfg, lines, seqNo, now, round);
    }
  }

  /** The loss figure and the exit status of a session. */
  method Summarise(cfg: Config, transmitted: nat, received: nat) returns (loss: real, exit: int)
    requires received <= transmitted && (cfg.count > 0 ==> transmitted <= cfg.count)
    ensures loss * transmitted as real == 100.0 * (transmitted - received) as real && 0.0 <= loss <= 100.0
    ensures loss == 0.0 <==> received == transmitted
    ensures loss == 100.0 <==> transmitted > 0 && received == 0
    ensures exit == 0 || exit == 1
    ensures cfg.count > 0 && cfg.deadline > 0 ==> (exit == 0 <==> transmitted == received == cfg.count)
    ensures cfg.count <= 0 || cfg.deadline <= 0 ==> (exit == 0 <==> received > 0)
  {
    loss := PacketLossPercent(transmitted, received);
    LossInRange(transmitted, received);
    exit := ExitStatus(cfg, received);
    ExitMeans(cfg, transmitted, received);
  }

  /** Why a session may end: its count is reached, the clock has reached the deadline, or its
      last round was interrupted, before or during the sleep. */
  predicate StopReason(cfg: Config, start: int, tape: seq<Round>, transmitted: nat, end: int) {
    || (cfg.count > 0 && transmitted == cfg.count)
    || (cfg.deadline > 0 && end >= start + cfg.deadline)
    || (0 < transmitted <= |tape| && (tape[transmitted - 1].interrupted || tape[transmitted - 1].sleepFails))
  }

  /** The loop itself, with rtt collecting the samples. */
  method ProbeLoop(cfg: Config, start: int, tape: seq<Round>, rtt: Stats)
    returns (finished: bool, probes: seq<Probe>, lines: seq<nat>, transmitted: nat, received: nat, now: int)
    requires rtt.Of([])
    modifies rtt
    ensures LogKept(cfg, probes, lines, transmitted, received, Latencies(probes))
    ensures cfg.count > 0 ==> transmitted <= cfg.count
    ensures rtt.Of(Latencies(probes)) && rtt.count == received
    ensures FromTape(probes, tape, cfg, start) && (finished <==> Ended(probes, tape, cfg, start))
    ensures finished ==> StopReason(cfg, start, tape, transmitted, now)
    ensures !finished ==> transmitted == |tape| && (cfg.count > 0 ==> transmitted < cfg.count)
  {
    now := start;
    probes, lines, transmitted, received, finished := [], [], 0, 0, false;
    var seqNo := 1;
    while !finished && transmitted < |tape|
      invariant transmitted <= |tape|
      invariant now >= start
      invariant LogKept(cfg, probes, lines, transmitted, received, Latencies(probes)) && seqNo == transmitted + 1
      invariant cfg.count > 0 ==> transmitted <= cfg.count
      invariant cfg.count > 0 && !finished ==> transmitted < cfg.count
      invariant rtt.Of(Latencies(probes)) && rtt.count == received
      invariant FromTape(probes, tape, cfg, start) && (finished <==> !GoesOn(probes, tape, cfg, start))
      invariant !finished ==> now == ReadyAt(probes, tape, cfg, start)
      invariant finished ==> StopReason(cfg, start, tape, transmitted, now)
      decreases !finished, |tape| - transmitted
    {
      var round := tape[transmitted];
      if cfg.count > 0 && transmitted >= cfg.count {
        finished := true;
        break;
      }
      var go, probeStart, launch, timeout := PlanProbe(cfg, start, now, round);
      if !go {
        finished, now := true, launch;
        break;
      }
      var p := Probe(probeStart, launch, timeout, round.answered, round.latency);
      FromTapeSnoc(probes, p, tape, cfg, start);
      now, lines, transmitted, received :=
        Record(cfg, p, round, rtt, probes, Latencies(probes), lines, transmitted, received, seqNo);
      probes := probes + [p];
      seqNo := seqNo + 1;
      go, now := AwaitNext(cfg, start, transmitted, p, now, round);
      finished := !go;
    }
  }

  /** Runs the session over the tape. If the tape ends first, finished is false and the result
      is the session so far; with a count or a deadline, a long enough tape always finishes. */
  method RunTextSession(cfg: Config, start: int, tape: seq<Round>)
    returns (finished: bool, probes: seq<Probe>, lines: seq<nat>, transmitted: nat, received: nat,
             min: real, max: real, mean: real, m2: real, loss: real, end: int, exit: int)
    ensures Paced(probes, cfg, start)
    ensures transmitted == |probes| && received == Answered(probes) <= transmitted
    ensures cfg.count > 0 ==> transmitted <= cfg.count
    ensures lines == if cfg.quiet then [] else ReplySeqs(probes)
    ensures Summarises(received, min, max, mean, m2, Latencies(probes))
    ensures loss * transmitted as real == 100.0 * (transmitted - received) as real && 0.0 <= loss <= 100.0
    ensures loss == 0.0 <==> received == transmitted
    ensures loss == 100.0 <==> transmitted > 0 && received == 0
    ensures exit == 0 || exit == 1
    ensures cfg.count > 0 && cfg.deadline > 0 ==> (exit == 0 <==> transmitted == received == cfg.count)
    ensures cfg.count <= 0 || cfg.deadline <= 0 ==> (exit == 0 <==> received > 0)
    ensures transmitted <= |tape|
    ensures FromTape(probes, tape, cfg, start) && (finished <==> Ended(probes, tape, cfg, start))
    ensures Steady(tape, cfg.interval) ==> AtMultiples(probes, start, cfg.interval)
    ensures !finished ==> transmitted == |tape|
    ensures finished ==> StopReason(cfg, start, tape, transmitted, end)
    ensures 0 < cfg.count <= |tape| ==> finished
    ensures cfg.deadline > 0 && tape != [] && (|tape| - 1) * cfg.interval >= cfg.deadline ==> finished
  {
    var rtt := new Stats();
    finished, probes, lines, transmitted, received, end := ProbeLoop(cfg, start, tape, rtt);
    TapeKeepsPace(probes, tape, cfg, start);
    if Steady(tape, cfg.interval) {
      SteadyPace(probes, tape, cfg, start);
    }
    if cfg.deadline > 0 && probes != [] {
      DeadlineBoundsProbes(probes, cfg, start);
    }
    min, max, mean, m2 := rtt.min, rtt.max, rtt.mean, rtt.m2;
    loss, exit := Summarise(cfg, transmitted, received);
  }
}
