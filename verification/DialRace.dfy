/**
 The staggered dial race over two or more candidates as a step system: one worker per
 candidate, a results channel with room for one result each, a cancel flag shared with the
 caller's context, a clock, and the collector. A connection is named by its candidate's index.
 */
module DialRace {

  /** delay is the fallback delay after defaulting; candidate i waits i times that long. */
  datatype Race = Race(n: nat, delay: nat) {
    predicate Valid() {
      n >= 2 && delay > 0
    }

    function Wait(i: nat): nat {
      i * delay
    }
  }

  datatype Attempt = Success(who: nat) | Failure(who: nat)

  datatype Worker = Idle | Waiting(since: nat) | Dialing | Checking | Sending(result: Attempt) | Finished

  /** Winner is the instant between receiving a success and cancelling the others. */
  datatype Collector =
    | Receiving(remaining: nat, errs: seq<nat>)
    | Winner(who: nat)
    | Returned(who: nat)
    | Failed(errs: seq<nat>)
    | FailedEmpty

  /** sent and dialedAt are histories: results in channel order and the clock at each dial. */
  datatype State = State(
    clock: nat, cancelled: bool, workers: seq<Worker>, channel: seq<Attempt>, received: seq<Attempt>,
    collector: Collector, dialed: set<nat>, closed: set<nat>,
    sent: seq<Attempt>, dialedAt: map<nat, nat>)

  datatype Action =
    | Launch(i: nat) | Fire(i: nat) | Abandon(i: nat)
    | DialFails(i: nat) | DialOpens(i: nat) | Check(i: nat) | Send(i: nat)
    | Receive | Cancel | GiveUp
    | ParentCancels | Tick(d: nat)

  predicate At(s: State, i: nat, w: Worker) {
    i < |s.workers| && s.workers[i] == w
  }

  predicate Enabled(s: State, a: Action, race: Race) {
    match a
    case Launch(i) => At(s, i, Idle)
    case Fire(i) => i < |s.workers| && s.workers[i].Waiting? && s.clock >= s.workers[i].since + race.Wait(i)
    case Abandon(i) => i < |s.workers| && s.workers[i].Waiting? && s.cancelled
    case DialFails(i) => At(s, i, Dialing)
    case DialOpens(i) => At(s, i, Dialing)
    case Check(i) => At(s, i, Checking)
    case Send(i) => i < |s.workers| && s.workers[i].Sending? && |s.channel| < race.n
    case Receive => s.collector.Receiving? && s.collector.remaining > 0 && s.channel != []
    case Cancel => s.collector.Winner?
    case GiveUp => s.collector.Receiving? && s.collector.remaining == 0
    case ParentCancels => true
    case Tick(_) => true
  }

  function Move(s: State, i: nat, w: Worker): State
    requires i < |s.workers|
  {
    s.(workers := s.workers[i := w])
  }

  function StartDial(s: State, i: nat): State
    requires i < |s.workers|
  {
    Move(s, i, Dialing).(dialedAt := s.dialedAt[i := s.clock])
  }

  function Apply(s: State, a: Action, race: Race): State
    requires Enabled(s, a, race)
  {
    match a
    case Launch(i) => if race.Wait(i) > 0 then Move(s, i, Waiting(s.clock)) else StartDial(s, i)
    case Fire(i) => StartDial(s, i)
    case Abandon(i) => Move(s, i, Sending(Failure(i)))
    case DialFails(i) => Move(s, i, Sending(Failure(i)))
    case DialOpens(i) => Move(s, i, Checking).(dialed := s.dialed + {i})
    case Check(i) =>
      if s.cancelled then Move(s, i, Sending(Failure(i))).(closed := s.closed + {i})
      else Move(s, i, Sending(Success(i)))
    case Send(i) =>
      var r := s.workers[i].result;
      Move(s, i, Finished).(channel := s.channel + [r], sent := s.sent + [r])
    case Receive => AfterReceive(s)
    case Cancel => s.(cancelled := true, collector := Returned(s.collector.who))
    case GiveUp =>
      var errs := s.collector.errs;
      s.(cancelled := true, collector := if errs == [] then FailedEmpty else Failed(errs))
    case ParentCancels => s.(cancelled := true)
    case Tick(d) => s.(clock := s.clock + d)
  }

  function AfterReceive(s: State): State
    requires s.collector.Receiving? && s.collector.remaining > 0 && s.channel != []
  {
    var r := s.channel[0];
    var t := s.(channel := s.channel[1..], received := s.received + [r]);
    match r
    case Success(who) => t.(collector := Winner(who))
    case Failure(who) => t.(collector := Receiving(s.collector.remaining - 1, s.collector.errs + [who]))
  }

  function Start(race: Race): State {
    State(0, false, seq(race.n, _ => Idle), [], [], Receiving(race.n, []), {}, {}, [], map[])
  }

  ghost predicate IsRun(s: State, run: seq<Action>, race: Race)
    decreases |run|
  {
    run != [] ==> Enabled(s, run[0], race) && IsRun(Apply(s, run[0], race), run[1..], race)
  }

  ghost function After(s: State, run: seq<Action>, race: Race): State
    requires IsRun(s, run, race)
    decreases |run|
  {
    if run == [] then s else After(Apply(s, run[0], race), run[1..], race)
  }

  // ----- invariant

  predicate Unsent(i: nat, sent: seq<Attempt>) {
    Success(i) !in sent && Failure(i) !in sent
  }

  /** Where worker i stands, and what that says about its connection and its result. */
  ghost predicate WorkerOk(s: State, i: nat)
    requires i < |s.workers|
  {
    var open, shut := i in s.dialed, i in s.closed;
    match s.workers[i]
    case Idle => !open && !shut && Unsent(i, s.sent)
    case Waiting(since) => !open && !shut && Unsent(i, s.sent)
    case Dialing => !open && !shut && Unsent(i, s.sent) && i in s.dialedAt
    case Checking => open && !shut && Unsent(i, s.sent) && i in s.dialedAt
    case Sending(r) =>
      && Unsent(i, s.sent)
      && (r == Success(i) ==> open && !shut)
      && (r != Success(i) ==> r == Failure(i) && (open <==> shut))
      && (open ==> i in s.dialedAt)
    case Finished =>
      && (Success(i) in s.sent <==> Failure(i) !in s.sent)
      && (Success(i) in s.sent ==> open && !shut)
      && (Failure(i) in s.sent ==> (open <==> shut))
      && (open ==> i in s.dialedAt)
  }

  ghost predicate WorkersOk(s: State, race: Race) {
    && |s.workers| == race.n
    && (forall i: nat | i < race.n :: WorkerOk(s, i))
    && (forall i | i in s.dialed || i in s.closed || i in s.dialedAt :: i < race.n)
    && (forall i | i in s.dialedAt :: s.dialedAt[i] >= race.Wait(i))
    && (forall r | r in s.sent :: r.who < race.n)
  }

  ghost predicate Distinct(sent: seq<Attempt>) {
    forall j, k | 0 <= j < k < |sent| :: sent[j].who != sent[k].who
  }

  ghost function Unfinished(s: State): set<nat> {
    set i: nat | i < |s.workers| && s.workers[i] != Finished
  }

  function Names(rs: seq<Attempt>): seq<nat> {
    seq(|rs|, k requires 0 <= k < |rs| => rs[k].who)
  }

  predicate AllFailed(rs: seq<Attempt>) {
    forall r | r in rs :: r.Failure?
  }

  ghost predicate CollectorOk(s: State, race: Race) {
    && s.sent == s.received + s.channel
    && match s.collector
       case Receiving(remaining, errs) =>
         remaining + |s.received| == race.n && AllFailed(s.received) && errs == Names(s.received)
       case Winner(who) =>
         s.received != [] && AllFailed(s.received[..|s.received| - 1]) && s.received[|s.received| - 1] == Success(who)
       case Returned(who) =>
         && s.received != [] && AllFailed(s.received[..|s.received| - 1])
         && s.received[|s.received| - 1] == Success(who) && s.cancelled
       case Failed(errs) =>
         |s.received| == race.n && AllFailed(s.received) && errs == Names(s.received) && s.cancelled
       case FailedEmpty => false
  }

  ghost predicate Inv(s: State, race: Race) {
    && race.Valid()
    && WorkersOk(s, race)
    && Distinct(s.sent)
    && |Unfinished(s)| + |s.sent| == race.n
    && CollectorOk(s, race)
  }

  // ----- every step keeps it

  lemma {:induction false} RangeSize(n: nat, xs: set<nat>)
    requires forall i: nat :: i in xs <==> i < n
    ensures |xs| == n
  {
    if n == 0 {
      assert xs == {};
    } else {
      RangeSize(n - 1, xs - {n - 1});
    }
  }

  lemma StartInv(race: Race)
    requires race.Valid()
    ensures Inv(Start(race), race)
  {
    var s := Start(race);
    RangeSize(race.n, Unfinished(s));
    assert forall i: nat | i < race.n :: s.workers[i] == Idle;
    assert Names(s.received) == [];
  }

  predicate MovesWorker(a: Action) {
    a.Launch? || a.Fire? || a.Abandon? || a.DialFails? || a.DialOpens? || a.Check?
  }

  lemma OneWorkerOk(s: State, a: Action, race: Race, i: nat)
    requires i < |s.workers| && WorkerOk(s, i) && Enabled(s, a, race) && MovesWorker(a)
    ensures WorkerOk(Apply(s, a, race), i)
  {
  }

  lemma WorkerStepOk(s: State, a: Action, race: Race)
    requires WorkersOk(s, race) && Enabled(s, a, race) && MovesWorker(a)
    ensures WorkersOk(Apply(s, a, race), race)
  {
    forall i: nat | i < race.n
      ensures WorkerOk(Apply(s, a, race), i)
    {
      OneWorkerOk(s, a, race, i);
    }
  }

  /** Steps of a worker short of sending leave the channel, the history of results and the
      count of unfinished workers alone. */
  lemma WorkerStepKeeps(s: State, a: Action, race: Race)
    requires Inv(s, race) && Enabled(s, a, race) && MovesWorker(a)
    ensures Inv(Apply(s, a, race), race)
  {
    WorkerStepOk(s, a, race);
    assert Unfinished(Apply(s, a, race)) == Unfinished(s);
  }

  lemma SendKeepsWorkers(s: State, i: nat, race: Race)
    requires Inv(s, race) && Enabled(s, Send(i), race)
    ensures WorkersOk(Apply(s, Send(i), race), race)
  {
    var t := Apply(s, Send(i), race);
    assert WorkerOk(s, i);
    forall k: nat | k < race.n
      ensures WorkerOk(t, k)
    {
      assert WorkerOk(s, k);
    }
    forall r | r in t.sent
      ensures r.who < race.n
    {
      assert r in s.sent || r.who == i;
    }
  }

  lemma SendKeeps(s: State, i: nat, race: Race)
    requires Inv(s, race) && Enabled(s, Send(i), race)
    ensures Inv(Apply(s, Send(i), race), race)
  {
    var t := Apply(s, Send(i), race);
    assert WorkerOk(s, i);
    SendKeepsWorkers(s, i, race);
    assert Unfinished(t) == Unfinished(s) - {i};
    forall j | 0 <= j < |s.sent|
      ensures s.sent[j].who != i
    {
      assert s.sent[j] in s.sent;
    }
    assert t.sent == t.received + t.channel;
  }

  /** Changing nothing the workers' part of the invariant looks at. */
  lemma SameWorkers(s: State, t: State, race: Race)
    requires WorkersOk(s, race) && t.workers == s.workers && t.sent == s.sent && t.dialedAt == s.dialedAt
    requires t.dialed == s.dialed && t.closed == s.closed
    ensures WorkersOk(t, race) && Unfinished(t) == Unfinished(s)
  {
    forall i: nat | i < race.n
      ensures WorkerOk(t, i)
    {
      assert WorkerOk(s, i);
    }
  }

  lemma NamesSnoc(rs: seq<Attempt>, r: Attempt)
    ensures Names(rs + [r]) == Names(rs) + [r.who]
  {
  }

  /** Moving one result from the channel to what was received keeps the order of results. */
  lemma Shift(received: seq<Attempt>, channel: seq<Attempt>)
    requires channel != []
    ensures received + [channel[0]] + channel[1..] == received + channel
    ensures (received + [channel[0]])[..|received|] == received
  {
  }

  lemma ReceiveSuccessOk(s: State, race: Race)
    requires CollectorOk(s, race) && Enabled(s, Receive, race) && s.channel[0].Success?
    ensures CollectorOk(AfterReceive(s), race)
  {
    Shift(s.received, s.channel);
  }

  lemma ReceiveFailureOk(s: State, race: Race)
    requires CollectorOk(s, race) && Enabled(s, Receive, race) && s.channel[0].Failure?
    ensures CollectorOk(AfterReceive(s), race)
  {
    Shift(s.received, s.channel);
    NamesSnoc(s.received, s.channel[0]);
  }

  lemma ReceiveKeeps(s: State, race: Race)
    requires Inv(s, race) && Enabled(s, Receive, race)
    ensures Inv(Apply(s, Receive, race), race)
  {
    SameWorkers(s, AfterReceive(s), race);
    if s.channel[0].Success? {
      ReceiveSuccessOk(s, race);
    } else {
      ReceiveFailureOk(s, race);
    }
  }

  /** Steps that touch neither workers nor channel. */
  lemma OtherStepKeeps(s: State, a: Action, race: Race)
    requires Inv(s, race) && Enabled(s, a, race) && (a.Cancel? || a.GiveUp? || a.ParentCancels? || a.Tick?)
    ensures Inv(Apply(s, a, race), race)
  {
    SameWorkers(s, Apply(s, a, race), race);
  }

  lemma StepKeeps(s: State, a: Action, race: Race)
    requires Inv(s, race) && Enabled(s, a, race)
    ensures Inv(Apply(s, a, race), race)
  {
    match a {
      case Send(i) => SendKeeps(s, i, race);
      case Receive => ReceiveKeeps(s, race);
      case Cancel => OtherStepKeeps(s, a, race);
      case GiveUp => OtherStepKeeps(s, a, race);
      case ParentCancels => OtherStepKeeps(s, a, race);
      case Tick(_) => OtherStepKeeps(s, a, race);
      case _ => WorkerStepKeeps(s, a, race);
    }
  }

  lemma {:induction false} RunKeeps(s: State, run: seq<Action>, race: Race)
    requires Inv(s, race) && IsRun(s, run, race)
    ensures Inv(After(s, run, race), race)
    decreases |run|
  {
    if run != [] {
      StepKeeps(s, run[0], race);
      RunKeeps(Apply(s, run[0], race), run[1..], race);
    }
  }

  /** A state some run of the race leads to. */
  ghost predicate Reachable(s: State, race: Race) {
    exists run: seq<Action> :: IsRun(Start(race), run, race) && After(Start(race), run, race) == s
  }

  lemma ReachableInv(s: State, race: Race)
    requires race.Valid() && Reachable(s, race)
    ensures Inv(s, race)
  {
    var run :| IsRun(Start(race), run, race) && After(Start(race), run, race) == s;
    StartInv(race);
    RunKeeps(Start(race), run, race);
  }

  // ----- safety

  /** Number of results worker i has sent. */
  ghost function SentBy(i: nat, sent: seq<Attempt>): nat {
    multiset(sent)[Success(i)] + multiset(sent)[Failure(i)]
  }

  lemma {:induction false} SentByCounts(i: nat, sent: seq<Attempt>)
    requires Distinct(sent)
    ensures SentBy(i, sent) == if Unsent(i, sent) then 0 else 1
  {
    if sent != [] {
      var k := |sent| - 1;
      SentByCounts(i, sent[..k]);
      assert sent == sent[..k] + [sent[k]];
      if sent[k].who == i {
        assert Unsent(i, sent[..k]);
      }
    }
  }

  /** In every reachable state: one result per worker that is done and none from the others;
      unfinished workers, buffered and received results add up to n, so a send always finds
      room, even after the collector has left; nobody dials before its turn. */
  lemma RaceSafety(s: State, race: Race)
    requires race.Valid() && Reachable(s, race)
    ensures |s.workers| == race.n
    ensures forall i: nat | i < race.n :: SentBy(i, s.sent) == if s.workers[i] == Finished then 1 else 0
    ensures |Unfinished(s)| + |s.channel| + |s.received| == race.n
    ensures forall i: nat | i < race.n && s.workers[i].Sending? :: Enabled(s, Send(i), race)
    ensures forall i | i in s.dialedAt :: s.dialedAt[i] >= i * race.delay
    ensures forall i | i in s.dialed :: i in s.dialedAt
  {
    ReachableInv(s, race);
    forall i: nat | i < race.n
      ensures SentBy(i, s.sent) == if s.workers[i] == Finished then 1 else 0
      ensures s.workers[i].Sending? ==> Enabled(s, Send(i), race)
      ensures i in s.dialed ==> i in s.dialedAt
    {
      assert WorkerOk(s, i);
      SentByCounts(i, s.sent);
      if s.workers[i].Sending? {
        assert i in Unfinished(s);
      }
    }
  }

  // ----- the stagger

  /** How far the clock moves in a run. */
  function Elapsed(run: seq<Action>): nat {
    if run == [] then 0 else (if run[0].Tick? then run[0].d else 0) + Elapsed(run[1..])
  }

  ghost predicate SomeCancel(run: seq<Action>) {
    exists k :: 0 <= k < |run| && Cancels(run[k])
  }

  lemma {:induction false} ClockAndCancel(s: State, run: seq<Action>, race: Race)
    requires IsRun(s, run, race)
    ensures After(s, run, race).clock == s.clock + Elapsed(run)
    ensures After(s, run, race).cancelled <==> s.cancelled || SomeCancel(run)
    decreases |run|
  {
    if run != [] {
      ClockAndCancel(Apply(s, run[0], race), run[1..], race);
      if k :| 0 < k < |run| && Cancels(run[k]) {
        assert run[1..][k - 1] == run[k];
      }
    }
  }

  /** A worker starts waiting when it is launched, and at no other time. */
  lemma StepWaits(s: State, a: Action, race: Race, i: nat)
    requires Enabled(s, a, race) && i < |s.workers|
    ensures var t := Apply(s, a, race);
            && |t.workers| == |s.workers|
            && (t.workers[i].Waiting? && a != Launch(i) ==> t.workers[i] == s.workers[i])
            && (t.workers[i].Waiting? && a == Launch(i) ==> t.workers[i] == Waiting(s.clock))
            && (a == Launch(i) ==> s.workers[i] == Idle) && (t.workers[i] == Idle ==> s.workers[i] == Idle)
  {
  }

  /** Once it has been launched, what it is waiting for does not change. */
  lemma {:induction false} KeepsWaiting(s: State, run: seq<Action>, race: Race, i: nat)
    requires IsRun(s, run, race) && i < |s.workers| && s.workers[i] != Idle
    ensures |After(s, run, race).workers| == |s.workers|
    ensures After(s, run, race).workers[i].Waiting? ==> After(s, run, race).workers[i] == s.workers[i]
    decreases |run|
  {
    if run != [] {
      StepWaits(s, run[0], race, i);
      KeepsWaiting(Apply(s, run[0], race), run[1..], race, i);
    }
  }

  lemma {:induction false} WaitsSinceLaunch(s: State, run: seq<Action>, race: Race, i: nat, j: nat)
    requires IsRun(s, run, race) && i < |s.workers| && j < |run| && run[j] == Launch(i)
    ensures var t := After(s, run, race);
            |t.workers| == |s.workers| && (t.workers[i].Waiting? ==> t.clock == t.workers[i].since + Elapsed(run[j..]))
    decreases |run|
  {
    var next := Apply(s, run[0], race);
    StepWaits(s, run[0], race, i);
    if j == 0 {
      assert run[0..] == run;
      KeepsWaiting(next, run[1..], race, i);
      ClockAndCancel(s, run, race);
    } else {
      WaitsSinceLaunch(next, run[1..], race, i, j - 1);
      assert run[1..][j - 1..] == run[j..];
    }
  }

  /** In every run: a worker still waiting may dial exactly when i delays have gone by since its
      launch, and may abandon exactly when the race has been cancelled. */
  lemma StaggerExact(run: seq<Action>, race: Race, i: nat, j: nat)
    requires IsRun(Start(race), run, race) && i < race.n && j < |run| && run[j] == Launch(i)
    ensures var s := After(Start(race), run, race);
            i < |s.workers| && (s.workers[i].Waiting? ==>
              && (Enabled(s, Fire(i), race) <==> Elapsed(run[j..]) >= i * race.delay)
              && (Enabled(s, Abandon(i), race) <==> SomeCancel(run)))
  {
    WaitsSinceLaunch(Start(race), run, race, i, j);
    ClockAndCancel(Start(race), run, race);
  }

  /** A launched worker dials at once, or waits from then on, as its delays are none or some;
      with a positive delay only the first candidate's are none. */
  lemma LaunchExact(s: State, race: Race, i: nat)
    requires race.Valid() && Enabled(s, Launch(i), race)
    ensures var t := Apply(s, Launch(i), race);
            && t.workers[i] == (if i * race.delay == 0 then Dialing else Waiting(s.clock))
            && (t.workers[i] == Dialing <==> i == 0)
            && (t.workers[i] == Dialing ==> t.dialedAt == s.dialedAt[i := s.clock])
  {
    assert i > 0 ==> i * race.delay >= i;
  }

  /** And whoever is waiting was launched. */
  lemma {:induction false} WaitingWasLaunched(s: State, run: seq<Action>, race: Race, i: nat)
    requires IsRun(s, run, race) && i < |s.workers| && s.workers[i] == Idle
    ensures |After(s, run, race).workers| == |s.workers|
    ensures After(s, run, race).workers[i] != Idle ==> Launch(i) in run
    decreases |run|
  {
    if run != [] && run[0] != Launch(i) {
      StepWaits(s, run[0], race, i);
      WaitingWasLaunched(Apply(s, run[0], race), run[1..], race, i);
    } else if run != [] {
      assert run[0] in run;
      StepWaits(s, run[0], race, i);
      KeepsWaiting(Apply(s, run[0], race), run[1..], race, i);
    }
  }

  /** Nothing holds the surroundings back: at any time the caller may cancel, the clock may move
      by any amount, and a dial may end either way. */
  lemma SurroundingsAreFree(s: State, race: Race, d: nat, i: nat)
    ensures Enabled(s, ParentCancels, race) && Apply(s, ParentCancels, race) == s.(cancelled := true)
    ensures Enabled(s, Tick(d), race) && Apply(s, Tick(d), race) == s.(clock := s.clock + d)
    ensures At(s, i, Dialing) ==> Enabled(s, DialFails(i), race) && Enabled(s, DialOpens(i), race)
  {
  }

  // ----- conservation of connections

  predicate HeldByWorker(s: State, i: nat) {
    i < |s.workers| && (s.workers[i] == Checking || s.workers[i] == Sending(Success(i)))
  }

  predicate TakenByCollector(s: State, i: nat) {
    s.collector == Winner(i) || s.collector == Returned(i)
  }

  function Count(b: bool): nat {
    if b then 1 else 0
  }

  /** In every reachable state an opened connection is in exactly one place. */
  lemma ConnectionConserved(s: State, race: Race, i: nat)
    requires race.Valid() && Reachable(s, race) && i in s.dialed
    ensures Count(HeldByWorker(s, i)) + Count(i in s.closed) + Count(Success(i) in s.channel)
          + Count(TakenByCollector(s, i)) == 1
  {
    ReachableInv(s, race);
    assert WorkerOk(s, i);
    ReceivedSuccess(s, race, i);
    forall j, k | 0 <= j < |s.received| && 0 <= k < |s.channel|
      ensures s.received[j].who != s.channel[k].who
    {
      assert s.sent[j] == s.received[j] && s.sent[|s.received| + k] == s.channel[k];
    }
    assert Success(i) in s.sent <==> Success(i) in s.received || Success(i) in s.channel;
  }

  /** The only success the collector ever takes out is the one it returns. */
  lemma ReceivedSuccess(s: State, race: Race, i: nat)
    requires Inv(s, race)
    ensures Success(i) in s.received <==> TakenByCollector(s, i)
  {
    var last := |s.received| - 1;
    if last >= 0 {
      assert s.received == s.received[..last] + [s.received[last]];
      assert Success(i) in s.received <==> Success(i) in s.received[..last] || s.received[last] == Success(i);
    }
  }

  /** The connection handed to the caller is open, was never closed, and is the first success
      in channel order. */
  lemma ReturnedIsFirstSuccess(s: State, race: Race, who: nat)
    requires race.Valid() && Reachable(s, race) && s.collector == Returned(who)
    ensures who in s.dialed && who !in s.closed && s.cancelled
    ensures exists k :: 0 <= k < |s.sent| && s.sent[k] == Success(who) && AllFailed(s.sent[..k])
  {
    ReachableInv(s, race);
    var k := |s.received| - 1;
    assert s.sent[k] == s.received[k] == Success(who);
    assert s.sent[k] in s.sent;
    assert WorkerOk(s, who);
    assert s.sent[..k] == s.received[..k];
  }

  /** When the race fails, every opened connection has been closed and the joined error names
      each candidate exactly once; the branch for an empty error list is never taken. */
  lemma FailureIsComplete(s: State, race: Race)
    requires race.Valid() && Reachable(s, race)
    ensures s.collector != FailedEmpty
    ensures s.collector.Failed? ==>
              && s.dialed == s.closed && s.channel == []
              && |s.collector.errs| == race.n
              && (forall i: nat | i < race.n :: i in s.collector.errs)
              && (forall j, k | 0 <= j < k < race.n :: s.collector.errs[j] != s.collector.errs[k])
  {
    ReachableInv(s, race);
    if s.collector.Failed? {
      var errs := s.collector.errs;
      assert |Unfinished(s)| == 0 && s.channel == [] && s.sent == s.received;
      forall i: nat | i < race.n
        ensures i in errs && (i in s.dialed <==> i in s.closed)
      {
        assert i !in Unfinished(s) && WorkerOk(s, i);
        assert Failure(i) in s.received;
        var j :| 0 <= j < |s.received| && s.received[j] == Failure(i);
        assert errs[j] == i;
      }
    }
  }

  ghost predicate Quiet(s: State) {
    Unfinished(s) == {} && (s.collector.Returned? || s.collector.Failed?)
  }

  // ----- which losers stay open

  /** The steps that cancel the race's context. */
  predicate Cancels(a: Action) {
    a.Cancel? || a.GiveUp? || a.ParentCancels?
  }

  /** Worker i makes its check before anything in the run cancels. */
  ghost predicate ChecksInTime(run: seq<Action>, i: nat) {
    exists k :: 0 <= k < |run| && run[k] == Check(i) && forall j | 0 <= j < k :: !Cancels(run[j])
  }

  lemma ChecksInTimeStep(run: seq<Action>, i: nat)
    requires run != []
    ensures ChecksInTime(run, i) <==> run[0] == Check(i) || (!Cancels(run[0]) && ChecksInTime(run[1..], i))
  {
    if k :| 0 <= k < |run| && run[k] == Check(i) && forall j | 0 <= j < k :: !Cancels(run[j]) {
      if k > 0 {
        assert run[1..][k - 1] == Check(i);
        assert forall j | 0 <= j < k - 1 :: run[1..][j] == run[j + 1];
      }
    }
    if k :| 0 <= k < |run[1..]| && run[1..][k] == Check(i) && forall j | 0 <= j < k :: !Cancels(run[1..][j]) {
      assert run[k + 1] == Check(i);
      assert forall j | 0 < j < k + 1 :: run[j] == run[1..][j - 1];
    }
  }

  /** Worker i reports its connection, or has done so. */
  predicate Reports(s: State, i: nat) {
    At(s, i, Sending(Success(i))) || Success(i) in s.sent
  }

  lemma StepReports(s: State, a: Action, race: Race, i: nat)
    requires Inv(s, race) && Enabled(s, a, race)
    ensures Reports(Apply(s, a, race), i) <==> Reports(s, i) || (a == Check(i) && !s.cancelled)
  {
    if i < race.n {
      assert WorkerOk(s, i);
    }
    if a.Send? {
      assert WorkerOk(s, a.i);
    }
  }

  lemma StepCancels(s: State, a: Action, race: Race)
    requires Enabled(s, a, race)
    ensures Apply(s, a, race).cancelled <==> s.cancelled || Cancels(a)
  {
  }

  lemma {:induction false} RunReports(s: State, run: seq<Action>, race: Race, i: nat)
    requires Inv(s, race) && IsRun(s, run, race)
    ensures Reports(After(s, run, race), i) <==> Reports(s, i) || (!s.cancelled && ChecksInTime(run, i))
    decreases |run|
  {
    if run != [] {
      var t := Apply(s, run[0], race);
      StepKeeps(s, run[0], race);
      StepReports(s, run[0], race, i);
      RunReports(t, run[1..], race, i);
      ChecksInTimeStep(run, i);
      StepCancels(s, run[0], race);
    }
  }

  /** Once everyone is done, what was reported is what is open. */
  lemma QuietReports(s: State, race: Race, i: nat)
    requires Inv(s, race) && Quiet(s)
    ensures Reports(s, i) <==> i in s.dialed && i !in s.closed
  {
    if i < race.n {
      assert i !in Unfinished(s) && WorkerOk(s, i);
    }
  }

  /** For every run to its end: the connections left open, the returned one among them, are
      exactly those whose worker made its check before the run's first cancelling step. */
  lemma LosersLeftOpen(run: seq<Action>, race: Race, i: nat)
    requires race.Valid() && IsRun(Start(race), run, race) && Quiet(After(Start(race), run, race))
    ensures var s := After(Start(race), run, race);
            i in s.dialed && i !in s.closed <==> ChecksInTime(run, i)
  {
    StartInv(race);
    RunKeeps(Start(race), run, race);
    RunReports(Start(race), run, race, i);
    QuietReports(After(Start(race), run, race), race, i);
  }

  /** Hence nothing besides the returned connection is left open exactly when no two workers
      make their checks before the first cancelling step. */
  lemma NothingLeaksExactly(run: seq<Action>, race: Race, who: nat)
    requires race.Valid() && IsRun(Start(race), run, race) && Quiet(After(Start(race), run, race))
    requires After(Start(race), run, race).collector == Returned(who)
    ensures var s := After(Start(race), run, race);
            && who in s.dialed - s.closed && ChecksInTime(run, who)
            && (s.dialed - s.closed == {who} <==> forall i: nat | ChecksInTime(run, i) :: i == who)
  {
    var s := After(Start(race), run, race);
    ReturnedIsFirstSuccess(s, race, who);
    forall i: nat
      ensures i in s.dialed - s.closed <==> ChecksInTime(run, i)
    {
      LosersLeftOpen(run, race, i);
    }
  }

  lemma {:induction false} RunExtends(s: State, run: seq<Action>, a: Action, race: Race)
    requires IsRun(s, run, race) && Enabled(After(s, run, race), a, race)
    ensures IsRun(s, run + [a], race) && After(s, run + [a], race) == Apply(After(s, run, race), a, race)
    decreases |run|
  {
    if run == [] {
      assert run + [a] == [a];
    } else {
      RunExtends(Apply(s, run[0], race), run[1..], a, race);
      assert (run + [a])[1..] == run[1..] + [a];
    }
  }

  lemma ReachableStep(s: State, a: Action, race: Race, t: State)
    requires Reachable(s, race) && Enabled(s, a, race) && Apply(s, a, race) == t
    ensures Reachable(t, race)
  {
    var run :| IsRun(Start(race), run, race) && After(Start(race), run, race) == s;
    RunExtends(Start(race), run, a, race);
  }

  /** The second worker is dialling before the first has an answer. */
  lemma BothDial(race: Race, s: State)
    requires race == Race(2, 1)
    requires s == State(1, false, [Dialing, Dialing], [], [], Receiving(2, []), {}, {}, [], map[0 := 0, 1 := 1])
    ensures Reachable(s, race)
  {
    var s0 := State(0, false, [Idle, Idle], [], [], Receiving(2, []), {}, {}, [], map[]);
    assert IsRun(s0, [], race) && After(s0, [], race) == s0 == Start(race);
    assert race.Wait(0) == 0 && race.Wait(1) == 1;
    var s1 := s0.(workers := [Dialing, Idle], dialedAt := map[0 := 0]);
    ReachableStep(s0, Launch(0), race, s1);
    var s2 := s1.(workers := [Dialing, Waiting(0)]);
    ReachableStep(s1, Launch(1), race, s2);
    var s3 := s2.(clock := 1);
    ReachableStep(s2, Tick(1), race, s3);
    ReachableStep(s3, Fire(1), race, s);
  }

  /** Both workers hold an open connection they may send. */
  lemma BothPass(race: Race, s: State)
    requires race == Race(2, 1)
    requires s == State(1, false, [Sending(Success(0)), Sending(Success(1))], [], [], Receiving(2, []),
                        {0, 1}, {}, [], map[0 := 0, 1 := 1])
    ensures Reachable(s, race)
  {
    var s4 := s.(workers := [Dialing, Dialing], dialed := {});
    BothDial(race, s4);
    var s5 := s4.(workers := [Checking, Dialing], dialed := {0});
    ReachableStep(s4, DialOpens(0), race, s5);
    var s6 := s5.(workers := [Checking, Checking], dialed := {0, 1});
    ReachableStep(s5, DialOpens(1), race, s6);
    var s7 := s6.(workers := [Sending(Success(0)), Checking]);
    ReachableStep(s6, Check(0), race, s7);
    ReachableStep(s7, Check(1), race, s);
  }

  lemma BothSend(race: Race, s: State, t: State)
    requires race == Race(2, 1) && Reachable(s, race) && s.channel == s.sent == []
    requires s.workers == [Sending(Success(0)), Sending(Success(1))]
    requires t == s.(workers := [Finished, Finished], channel := t.sent, sent := [Success(0), Success(1)])
    ensures Reachable(t, race)
  {
    var mid := s.(workers := [Finished, Sending(Success(1))], channel := [Success(0)], sent := [Success(0)]);
    ReachableStep(s, Send(0), race, mid);
    ReachableStep(mid, Send(1), race, t);
  }

  /** Two workers can both pass before the cancel: the second connection is never closed. */
  lemma LoserCanStayOpen()
    ensures exists s: State :: Reachable(s, Race(2, 1)) && Quiet(s) && s.collector == Returned(0)
                            && s.dialed == {0, 1} && s.closed == {}
  {
    var race := Race(2, 1);
    var s0 := State(1, false, [Sending(Success(0)), Sending(Success(1))], [], [], Receiving(2, []),
                    {0, 1}, {}, [], map[0 := 0, 1 := 1]);
    BothPass(race, s0);
    var both := [Success(0), Success(1)];
    var s2 := s0.(workers := [Finished, Finished], channel := both, sent := both);
    BothSend(race, s0, s2);
    var s3 := s2.(channel := [Success(1)], received := [Success(0)], collector := Winner(0));
    ReachableStep(s2, Receive, race, s3);
    var s4 := s3.(cancelled := true, collector := Returned(0));
    ReachableStep(s3, Cancel, race, s4);
    assert Quiet(s4);
  }

  // ----- progress

  function Rank(w: Worker): nat {
    match w
    case Idle => 6
    case Waiting(_) => 5
    case Dialing => 4
    case Checking => 3
    case Sending(_) => 2
    case Finished => 0
  }

  function Ranks(ws: seq<Worker>): nat {
    if ws == [] then 0 else Rank(ws[0]) + Ranks(ws[1..])
  }

  lemma {:induction false} RanksUpdate(ws: seq<Worker>, i: nat, w: Worker)
    requires i < |ws|
    ensures Ranks(ws[i := w]) == Ranks(ws) - Rank(ws[i]) + Rank(w)
  {
    if i == 0 {
      assert ws[0 := w][1..] == ws[1..];
    } else {
      RanksUpdate(ws[1..], i - 1, w);
      assert ws[i := w][1..] == ws[1..][i - 1 := w];
    }
  }

  lemma {:induction false} RanksBound(ws: seq<Worker>)
    ensures Ranks(ws) <= 6 * |ws|
  {
    if ws != [] {
      RanksBound(ws[1..]);
    }
  }

  /** Steps the race still has in it: everything but the clock and the caller's cancel uses
      some up. */
  function Fuel(s: State): nat {
    Ranks(s.workers) + |s.channel|
    + match s.collector case Receiving(_, _) => 2 case Winner(_) => 1 case _ => 0
  }

  predicate External(a: Action) {
    a.Tick? || a.ParentCancels?
  }

  /** The phase worker i is in after one of its own steps. */
  function NextPhase(s: State, i: nat, a: Action, race: Race): Worker {
    match a
    case Launch(_) => if race.Wait(i) > 0 then Waiting(s.clock) else Dialing
    case Fire(_) => Dialing
    case DialOpens(_) => Checking
    case Check(_) => Sending(if s.cancelled then Failure(i) else Success(i))
    case Send(_) => Finished
    case _ => Sending(Failure(i))
  }

  lemma WorkerStepUsesFuel(s: State, a: Action, race: Race)
    requires Enabled(s, a, race) && (MovesWorker(a) || a.Send?)
    ensures Fuel(Apply(s, a, race)) < Fuel(s)
  {
    RanksUpdate(s.workers, a.i, NextPhase(s, a.i, a, race));
    assert Apply(s, a, race).workers == s.workers[a.i := NextPhase(s, a.i, a, race)];
  }

  lemma StepUsesFuel(s: State, a: Action, race: Race)
    requires Enabled(s, a, race)
    ensures External(a) ==> Fuel(Apply(s, a, race)) == Fuel(s)
    ensures !External(a) ==> Fuel(Apply(s, a, race)) < Fuel(s)
  {
    if MovesWorker(a) || a.Send? {
      WorkerStepUsesFuel(s, a, race);
    }
  }

  ghost function Internal(run: seq<Action>): nat {
    if run == [] then 0 else (if External(run[0]) then 0 else 1) + Internal(run[1..])
  }

  lemma {:induction false} RunUsesFuel(s: State, run: seq<Action>, race: Race)
    requires IsRun(s, run, race)
    ensures Internal(run) + Fuel(After(s, run, race)) <= Fuel(s)
    decreases |run|
  {
    if run != [] {
      StepUsesFuel(s, run[0], race);
      RunUsesFuel(Apply(s, run[0], race), run[1..], race);
    }
  }

  /** No run takes more than 6n + 2 steps of its own. */
  lemma RaceIsBounded(run: seq<Action>, race: Race)
    requires race.Valid() && IsRun(Start(race), run, race)
    ensures Internal(run) <= 6 * race.n + 2
  {
    RanksBound(Start(race).workers);
    RunUsesFuel(Start(race), run, race);
  }

  /** A step of the race itself is possible after waiting for d. */
  predicate CanMove(s: State, d: nat, a: Action, race: Race) {
    !External(a) && Enabled(s.(clock := s.clock + d), a, race)
  }

  /** The collector is never stuck: until it has returned, some step of the race is possible,
      at worst once the clock has moved on. */
  lemma CollectorNeverStuck(s: State, race: Race)
    requires race.Valid() && Reachable(s, race) && (s.collector.Receiving? || s.collector.Winner?)
    ensures exists d: nat, a :: CanMove(s, d, a, race)
  {
    ReachableInv(s, race);
    if s.collector.Winner? {
      assert CanMove(s, 0, Cancel, race);
    } else if s.collector.remaining == 0 {
      assert CanMove(s, 0, GiveUp, race);
    } else if s.channel != [] {
      assert CanMove(s, 0, Receive, race);
    } else {
      assert |Unfinished(s)| > 0;
      var i :| i in Unfinished(s);
      UnfinishedCanMove(s, race, i);
    }
  }

  /** Nor does it leave a worker hanging: as long as the collector has not returned or a worker
      has not finished, some step of the race is possible. */
  lemma RaceNeverStuck(s: State, race: Race)
    requires race.Valid() && Reachable(s, race) && !Quiet(s)
    ensures exists d: nat, a :: CanMove(s, d, a, race)
  {
    FailureIsComplete(s, race);
    if s.collector.Receiving? || s.collector.Winner? {
      CollectorNeverStuck(s, race);
    } else {
      ReachableInv(s, race);
      var i :| i in Unfinished(s);
      UnfinishedCanMove(s, race, i);
    }
  }

  lemma UnfinishedCanMove(s: State, race: Race, i: nat)
    requires Inv(s, race) && i in Unfinished(s)
    ensures exists d: nat, a :: CanMove(s, d, a, race)
  {
    match s.workers[i] {
      case Idle => assert CanMove(s, 0, Launch(i), race);
      case Waiting(since) =>
        var d := since + race.Wait(i);
        assert CanMove(s, d, Fire(i), race);
      case Dialing => assert CanMove(s, 0, DialFails(i), race);
      case Checking => assert CanMove(s, 0, Check(i), race);
      case Sending(_) => assert CanMove(s, 0, Send(i), race);
      case Finished => assert false;
    }
  }
}
