/**
 * cmd/kaigara kaigaraRun: the goroutines around the child, their channels and their WaitGroup, as
 * a transition system. Each goroutine is at one of the points where it can block or be overtaken;
 * a step is one goroutine passing such a point, or an event of the outside world.
 */
module RunProtocol {

  /** superviseChild; `quit <- 0`; `wg.Wait()`; returned, with the deferred close done. */
  datatype Main = Supervising | Quitting | Joining | Returned

  /** `waitDone <- c.Wait()` */
  datatype Waiter = Waiting | Delivering | Delivered

  /** watchSecrets: at its select; polling; at its send; returned. */
  datatype Watcher = Idle | Scanning | Reporting | Ended

  /** HeartBeat: talking to Redis; at its select; before and after its wg.Done. */
  datatype Beat = Refreshing | Listening | BeatLeaving | BeatLeft

  /** A log pump: in Publish; before and after its wg.Done. */
  datatype Pump = Pumping | PumpLeaving | PumpLeft

  /** The capacity of waitDone, restart and sigCh. */
  const CAPACITY := 1

  datatype State = State(
    childExited: bool, outEnded: bool, errEnded: bool,
    main: Main, waiter: Waiter, watcher: Watcher, beat: Beat, out: Pump, err: Pump,
    waitDone: nat, restart: nat, sigCh: nat,                  // messages in the buffers
    deadlineArmed: bool, watchClosed: bool, wg: int,
    waitSends: nat, restartSends: nat, quits: nat,            // sends over the whole run
    restartTakes: nat, restartKill: bool)                     // restarts taken, and a kill since

  const START := State(false, false, false, Supervising, Waiting, Idle, Refreshing, Pumping, Pumping,
                       0, 0, 0, false, false, 3, 0, 0, 0, 0, false)

  datatype Step =
    // the outside world and the clocks
    | ChildExits | OutEnds | ErrEnds | SignalArrives | DeadlineFires | PollTicks | BeatTicks
    // the program
    | WaitReturns | SendWait
    | TakeWait | TakeSignal(hup: bool) | TakeRestart
    | QuitBeat | JoinAll
    | ScanClean | ScanMoved | SendRestart | StopWatching
    | BeatRefreshed | BeatDone
    | OutStops | OutDone | ErrStops | ErrDone

  predicate IsProgram(step: Step) {
    !(step.ChildExits? || step.OutEnds? || step.ErrEnds? || step.SignalArrives?
      || step.DeadlineFires? || step.PollTicks? || step.BeatTicks?)
  }

  predicate Enabled(s: State, step: Step) {
    match step
    case ChildExits => !s.childExited
    case OutEnds => !s.outEnded
    case ErrEnds => !s.errEnded
    case SignalArrives => s.main != Returned
    case DeadlineFires => s.main == Supervising && s.deadlineArmed
    case PollTicks => s.watcher == Idle
    case BeatTicks => s.beat == Listening
    case WaitReturns => s.waiter == Waiting && s.childExited
    case SendWait => s.waiter == Delivering && s.waitDone < CAPACITY
    case TakeWait => s.main == Supervising && s.waitDone > 0
    case TakeSignal(_) => s.main == Supervising && s.sigCh > 0
    case TakeRestart => s.main == Supervising && s.restart > 0
    case QuitBeat => s.main == Quitting && s.beat == Listening      // an unbuffered send meets its receive
    case JoinAll => s.main == Joining && s.wg == 0
    case ScanClean => s.watcher == Scanning
    case ScanMoved => s.watcher == Scanning
    case SendRestart => s.watcher == Reporting && s.restart < CAPACITY
    case StopWatching => s.watcher == Idle && s.watchClosed
    case BeatRefreshed => s.beat == Refreshing
    case BeatDone => s.beat == BeatLeaving
    case OutStops => s.out == Pumping && s.outEnded
    case OutDone => s.out == PumpLeaving
    case ErrStops => s.err == Pumping && s.errEnded
    case ErrDone => s.err == PumpLeaving
  }

  function Take(s: State, step: Step): State
    requires Enabled(s, step)
  {
    match step
    case ChildExits => s.(childExited := true)
    case OutEnds => s.(outEnded := true)
    case ErrEnds => s.(errEnded := true)
    case SignalArrives => s.(sigCh := CAPACITY)                     // signal.Notify drops what does not fit
    case DeadlineFires => s.(deadlineArmed := false, restartKill := s.restartTakes > 0)
    case PollTicks => s.(watcher := Scanning)
    case BeatTicks => s.(beat := Refreshing)
    case WaitReturns => s.(waiter := Delivering, outEnded := true, errEnded := true)  // Wait closes both pipes
    case SendWait => s.(waiter := Delivered, waitDone := s.waitDone + 1, waitSends := s.waitSends + 1)
    case TakeWait => s.(main := Quitting, waitDone := s.waitDone - 1)
    case TakeSignal(hup) => s.(sigCh := s.sigCh - 1, deadlineArmed := s.deadlineArmed || !hup)
    case TakeRestart => s.(restart := s.restart - 1, deadlineArmed := true, restartTakes := s.restartTakes + 1)
    case QuitBeat => s.(main := Joining, beat := BeatLeaving, quits := s.quits + 1)
    case JoinAll => s.(main := Returned, watchClosed := true)
    case ScanClean => s.(watcher := Idle)
    case ScanMoved => s.(watcher := Reporting)
    case SendRestart => s.(watcher := Ended, restart := s.restart + 1, restartSends := s.restartSends + 1)
    case StopWatching => s.(watcher := Ended)
    case BeatRefreshed => s.(beat := Listening)
    case BeatDone => s.(beat := BeatLeft, wg := s.wg - 1)
    case OutStops => s.(out := PumpLeaving)
    case OutDone => s.(out := PumpLeft, wg := s.wg - 1)
    case ErrStops => s.(err := PumpLeaving)
    case ErrDone => s.(err := PumpLeft, wg := s.wg - 1)
  }

  predicate Legal(s: State, steps: seq<Step>)
    decreases |steps|
  {
    steps == [] || (Enabled(s, steps[0]) && Legal(Take(s, steps[0]), steps[1..]))
  }

  function Run(s: State, steps: seq<Step>): State
    requires Legal(s, steps)
    decreases |steps|
  {
    if steps == [] then s else Run(Take(s, steps[0]), steps[1..])
  }

  lemma {:induction false} OneMoreStep(s: State, steps: seq<Step>, step: Step)
    requires Legal(s, steps) && Enabled(Run(s, steps), step)
    ensures Legal(s, steps + [step]) && Run(s, steps + [step]) == Take(Run(s, steps), step)
    decreases |steps|
  {
    if steps == [] {
      assert steps + [step] == [step];
      assert Run(s, [step]) == Run(Take(s, step), [step][1..]);
    } else {
      assert (steps + [step])[1..] == steps[1..] + [step];
      OneMoreStep(Take(s, steps[0]), steps[1..], step);
    }
  }

  /** `t` is reached from `s` by these steps. */
  predicate Leads(s: State, steps: seq<Step>, t: State) {
    Legal(s, steps) && Run(s, steps) == t
  }

  lemma TwoSteps(s: State, a: Step, b: Step)
    requires Enabled(s, a) && Enabled(Take(s, a), b)
    ensures Leads(s, [a, b], Take(Take(s, a), b))
  {
    OneMoreStep(s, [], a);
    OneMoreStep(s, [a], b);
    assert [] + [a] == [a] && [a] + [b] == [a, b];
  }

  // ---------------------------------------------------------------- safety

  function Count(b: bool): nat { if b then 1 else 0 }

  /** The wait result: one message, consumed exactly when supervision ends; Wait has closed the pipes. */
  predicate WaitInv(s: State) {
    && s.waitSends == Count(s.waiter == Delivered)
    && s.waitDone == Count(s.waiter == Delivered && s.main == Supervising)
    && (s.main != Supervising ==> s.waiter == Delivered)
    && (s.waiter != Waiting ==> s.childExited && s.outEnded && s.errEnded)
  }

  /** At most one restart message, and the poller is gone once it is sent. */
  predicate RestartInv(s: State) {
    && s.restart + s.restartTakes == s.restartSends <= Count(s.watcher == Ended)
    && (s.restartTakes > 0 ==> s.deadlineArmed || s.restartKill)
  }

  /** The heartbeat is told once, by main, on its way to the join. */
  predicate BeatInv(s: State) {
    && s.quits == Count(s.main == Joining || s.main == Returned)
    && (s.quits == 1 <==> s.beat == BeatLeaving || s.beat == BeatLeft)
  }

  function BeatOpen(beat: Beat): nat {
    match beat case BeatLeft => 0 case _ => 1
  }

  function PumpOpen(pump: Pump): nat {
    match pump case PumpLeft => 0 case _ => 1
  }

  /** The WaitGroup counts the goroutines that have not called Done, and main returns at zero. */
  predicate GroupInv(s: State) {
    && s.wg == BeatOpen(s.beat) + PumpOpen(s.out) + PumpOpen(s.err)
    && (s.main == Returned ==> s.wg == 0)
  }

  predicate FlagInv(s: State) {
    && (s.watchClosed <==> s.main == Returned)
    && s.sigCh <= CAPACITY
    && (s.out != Pumping ==> s.outEnded) && (s.err != Pumping ==> s.errEnded)
  }

  /** What every interleaving keeps. */
  predicate Inv(s: State) {
    WaitInv(s) && RestartInv(s) && BeatInv(s) && GroupInv(s) && FlagInv(s)
  }

  lemma TakeKeepsWait(s: State, step: Step)
    requires WaitInv(s) && Enabled(s, step)
    ensures WaitInv(Take(s, step))
  {
  }

  lemma TakeKeepsRestart(s: State, step: Step)
    requires RestartInv(s) && Enabled(s, step)
    ensures RestartInv(Take(s, step))
  {
    match step {
      case ChildExits => case OutEnds => case ErrEnds => case SignalArrives => case DeadlineFires =>
      case PollTicks => case BeatTicks => case WaitReturns => case SendWait => case TakeWait =>
      case TakeSignal(_) => case TakeRestart => case QuitBeat => case JoinAll => case ScanClean =>
      case ScanMoved => case SendRestart => case StopWatching => case BeatRefreshed => case BeatDone =>
      case OutStops => case OutDone => case ErrStops => case ErrDone =>
    }
  }

  lemma TakeKeepsBeat(s: State, step: Step)
    requires BeatInv(s) && Enabled(s, step)
    ensures BeatInv(Take(s, step))
  {
    match step {
      case ChildExits => case OutEnds => case ErrEnds => case SignalArrives => case DeadlineFires =>
      case PollTicks => case BeatTicks => case WaitReturns => case SendWait => case TakeWait =>
      case TakeSignal(_) => case TakeRestart => case QuitBeat => case JoinAll => case ScanClean =>
      case ScanMoved => case SendRestart => case StopWatching => case BeatRefreshed => case BeatDone =>
      case OutStops => case OutDone => case ErrStops => case ErrDone =>
    }
  }

  lemma TakeKeepsGroup(s: State, step: Step)
    requires GroupInv(s) && Enabled(s, step)
    ensures GroupInv(Take(s, step))
  {
    match step {
      case ChildExits => case OutEnds => case ErrEnds => case SignalArrives => case DeadlineFires =>
      case PollTicks => case BeatTicks => case WaitReturns => case SendWait => case TakeWait =>
      case TakeSignal(_) => case TakeRestart => case QuitBeat => case JoinAll => case ScanClean =>
      case ScanMoved => case SendRestart => case StopWatching => case BeatRefreshed => case BeatDone =>
      case OutStops => case OutDone => case ErrStops => case ErrDone =>
    }
  }

  lemma TakeKeepsFlags(s: State, step: Step)
    requires FlagInv(s) && Enabled(s, step)
    ensures FlagInv(Take(s, step))
  {
    match step {
      case ChildExits => case OutEnds => case ErrEnds => case SignalArrives => case DeadlineFires =>
      case PollTicks => case BeatTicks => case WaitReturns => case SendWait => case TakeWait =>
      case TakeSignal(_) => case TakeRestart => case QuitBeat => case JoinAll => case ScanClean =>
      case ScanMoved => case SendRestart => case StopWatching => case BeatRefreshed => case BeatDone =>
      case OutStops => case OutDone => case ErrStops => case ErrDone =>
    }
  }

  lemma TakeKeepsInv(s: State, step: Step)
    requires Inv(s) && Enabled(s, step)
    ensures Inv(Take(s, step))
  {
    TakeKeepsWait(s, step);
    TakeKeepsRestart(s, step);
    TakeKeepsBeat(s, step);
    TakeKeepsGroup(s, step);
    TakeKeepsFlags(s, step);
  }

  lemma {:induction false} RunKeepsInv(s: State, steps: seq<Step>)
    requires Inv(s) && Legal(s, steps)
    ensures Inv(Run(s, steps))
    decreases |steps|
  {
    if steps != [] {
      TakeKeepsInv(s, steps[0]);
      RunKeepsInv(Take(s, steps[0]), steps[1..]);
    }
  }

  lemma ReachedInv(steps: seq<Step>)
    requires Legal(START, steps)
    ensures Inv(Run(START, steps))
  {
    StartInv();
    RunKeepsInv(START, steps);
  }

  lemma StartInv()
    ensures Inv(START)
  {
  }

  /** A goroutine about to send does not block, and the counters stay where they belong. */
  predicate NeverJams(s: State) {
    && s.waitSends <= 1 && s.restartSends <= 1 && s.quits <= 1
    && (s.waiter == Delivering ==> Enabled(s, SendWait))
    && (s.watcher == Reporting ==> Enabled(s, SendRestart))
    && (s.main == Joining || s.main == Returned ==> s.quits == 1)
    && 0 <= s.wg <= 3
    && (s.main == Returned ==> s.wg == 0 && s.childExited && s.waitSends == 1)
  }

  lemma InvNeverJams(s: State)
    requires Inv(s)
    ensures NeverJams(s)
  {
  }

  /**
   * Main result, for every interleaving: `waitDone` and `restart` carry at most one message over
   * the whole run, so a goroutine about to send on either never blocks; the heartbeat takes
   * exactly one quit before main can join; and the WaitGroup counter never goes negative.
   */
  lemma ChannelsNeverJam(steps: seq<Step>)
    requires Legal(START, steps)
    ensures NeverJams(Run(START, steps))
  {
    ReachedInv(steps);
    InvNeverJams(Run(START, steps));
  }

  /**
   * Main result: a restart message is never lost on the way to the child. Once the poller has sent
   * it, it is still in the buffer, where main takes it as long as it supervises, or main has asked
   * the child to stop and the kill deadline is armed or has fired since.
   */
  lemma RestartReachesChild(steps: seq<Step>)
    requires Legal(START, steps)
    ensures RestartIsKept(Run(START, steps))
  {
    ReachedInv(steps);
    InvKeepsRestart(Run(START, steps));
  }

  predicate RestartIsKept(s: State) {
    s.restartSends > 0 ==>
      || (s.restart == 1 && s.restartTakes == 0 && (Enabled(s, TakeRestart) || s.main != Supervising))
      || (s.restart == 0 && s.restartTakes == 1 && (s.deadlineArmed || s.restartKill))
  }

  lemma InvKeepsRestart(s: State)
    requires Inv(s)
    ensures RestartIsKept(s)
  {
  }

  // ---------------------------------------------------------------- progress

  /** How far main is from returning once the child is gone. */
  function Distance(s: State): nat {
    MainSteps(s.main) + WaiterSteps(s.waiter) + BeatSteps(s.beat) + PumpSteps(s.out) + PumpSteps(s.err)
  }

  function MainSteps(main: Main): nat {
    match main case Supervising => 3 case Quitting => 2 case Joining => 1 case Returned => 0
  }

  function WaiterSteps(waiter: Waiter): nat {
    match waiter case Waiting => 2 case Delivering => 1 case Delivered => 0
  }

  function BeatSteps(beat: Beat): nat {
    match beat case Refreshing => 3 case Listening => 2 case BeatLeaving => 1 case BeatLeft => 0
  }

  function PumpSteps(pump: Pump): nat {
    match pump case Pumping => 2 case PumpLeaving => 1 case PumpLeft => 0
  }

  function WatcherSteps(watcher: Watcher): nat {
    match watcher case Scanning => 4 case Reporting => 3 case Idle => 1 case Ended => 0
  }

  /** Once the child has exited no state is stuck: some program step is enabled, and it brings main closer. */
  lemma NeverStuck(s: State) returns (step: Step)
    requires Inv(s) && s.childExited && s.main != Returned
    ensures IsProgram(step) && Enabled(s, step) && Distance(Take(s, step)) < Distance(s)
    ensures Take(s, step).childExited
  {
    step :=
      if s.waiter == Waiting then WaitReturns
      else if s.waiter == Delivering then SendWait
      else if s.main == Supervising then TakeWait
      else if s.beat == Refreshing then BeatRefreshed
      else if s.main == Quitting then QuitBeat
      else if s.beat == BeatLeaving then BeatDone
      else if s.out == Pumping then OutStops
      else if s.out == PumpLeaving then OutDone
      else if s.err == Pumping then ErrStops
      else if s.err == PumpLeaving then ErrDone
      else JoinAll;
  }

  /** All the work the program still has: main's way, the poller's, and the messages to be taken. */
  function Work(s: State): nat {
    Distance(s) + s.sigCh + s.restart + WatcherSteps(s.watcher)
  }

  /** Every step of the program uses up work. */
  lemma StepsUseUpWork(s: State, step: Step)
    requires Enabled(s, step) && IsProgram(step)
    ensures Work(Take(s, step)) < Work(s)
  {
    match step {
      case WaitReturns => case SendWait => case TakeWait => case TakeSignal(_) => case TakeRestart =>
      case QuitBeat => case JoinAll => case ScanClean => case ScanMoved => case SendRestart =>
      case StopWatching => case BeatRefreshed => case BeatDone => case OutStops => case OutDone =>
      case ErrStops => case ErrDone =>
    }
  }

  /** An event of the outside world adds at most three units. */
  lemma EventsAddLittleWork(s: State, step: Step)
    requires Enabled(s, step) && !IsProgram(step)
    ensures Work(Take(s, step)) <= Work(s) + 3
  {
    match step {
      case ChildExits => case OutEnds => case ErrEnds => case SignalArrives => case DeadlineFires =>
      case PollTicks => case BeatTicks =>
    }
  }

  function ProgramSteps(steps: seq<Step>): nat {
    if steps == [] then 0 else (if IsProgram(steps[0]) then 1 else 0) + ProgramSteps(steps[1..])
  }

  lemma {:induction false} WorkIsBounded(s: State, steps: seq<Step>)
    requires Legal(s, steps)
    ensures ProgramSteps(steps) + Work(Run(s, steps)) <= Work(s) + 3 * (|steps| - ProgramSteps(steps))
    decreases |steps|
  {
    if steps != [] {
      if IsProgram(steps[0]) {
        StepsUseUpWork(s, steps[0]);
      } else {
        EventsAddLittleWork(s, steps[0]);
      }
      WorkIsBounded(Take(s, steps[0]), steps[1..]);
    }
  }

  ghost predicate Quiescent(s: State) {
    forall step :: Enabled(s, step) ==> !IsProgram(step)
  }

  /**
   * Main result, whatever the scheduler does: a run has at most thirteen program steps and three
   * more per outside event, so without such events the program comes to rest; and when it rests
   * after the child has exited, main has returned and every goroutine modelled here has ended.
   */
  lemma EveryScheduleEnds(steps: seq<Step>)
    requires Legal(START, steps)
    ensures ProgramSteps(steps) <= 13 + 3 * (|steps| - ProgramSteps(steps))
    ensures RestsAtTheEnd(Run(START, steps))
  {
    WorkIsBounded(START, steps);
    WorkAtStart();
    ReachedInv(steps);
    RestIsTheEnd(Run(START, steps));
  }

  lemma WorkAtStart()
    ensures Work(START) == 13
  {
  }

  ghost predicate RestsAtTheEnd(s: State) {
    Quiescent(s) && s.childExited ==>
      && s.main == Returned && s.waiter == Delivered && s.watcher == Ended
      && s.beat == BeatLeft && s.out == PumpLeft && s.err == PumpLeft && s.wg == 0
  }

  lemma RestIsTheEnd(s: State)
    requires Inv(s)
    ensures RestsAtTheEnd(s)
  {
    if Quiescent(s) && s.childExited {
      if s.main != Returned {
        var step := NeverStuck(s);
      }
      assert !Enabled(s, ScanClean) && !Enabled(s, SendRestart) && !Enabled(s, StopWatching);
    }
  }

  lemma {:induction false} FinishFrom(s: State) returns (steps: seq<Step>)
    requires Inv(s) && s.childExited
    ensures Legal(s, steps) && Run(s, steps).main == Returned && |steps| <= Distance(s)
    ensures forall step :: step in steps ==> IsProgram(step)
    decreases Distance(s)
  {
    steps := [];
    if s.main != Returned {
      var step := NeverStuck(s);
      TakeKeepsInv(s, step);
      var rest := FinishFrom(Take(s, step));
      steps := [step] + rest;
      assert steps[1..] == rest;
    }
  }

  /**
   * Main result: from every reachable state in which the child has exited, the program can finish
   * by itself, in at most twelve of its own steps. Nothing is asked of the pipes: Wait closes them.
   */
  lemma MainCanAlwaysReturn(steps: seq<Step>) returns (more: seq<Step>)
    requires Legal(START, steps) && Run(START, steps).childExited
    ensures Legal(Run(START, steps), more) && Run(Run(START, steps), more).main == Returned
    ensures |more| <= 12 && forall step :: step in more ==> IsProgram(step)
  {
    ReachedInv(steps);
    more := FinishSoon(Run(START, steps));
  }

  lemma FinishSoon(s: State) returns (more: seq<Step>)
    requires Inv(s) && s.childExited
    ensures Legal(s, more) && Run(s, more).main == Returned
    ensures |more| <= 12 && forall step :: step in more ==> IsProgram(step)
  {
    more := FinishFrom(s);
    assert Distance(s) <= 12;
  }

  /**
   * Main result: once main has returned, the wait, heartbeat and pump goroutines have ended and
   * the poller is at most two steps from its end. The stdin forwarder is not part of this model.
   */
  lemma GoroutinesEnd(steps: seq<Step>) returns (more: seq<Step>)
    requires Legal(START, steps) && Run(START, steps).main == Returned
    ensures var s := Run(START, steps);
            && s.waiter == Delivered && s.beat == BeatLeft && s.out == PumpLeft && s.err == PumpLeft
            && Legal(s, more) && Run(s, more).watcher == Ended
            && |more| <= 2 && forall step :: step in more ==> IsProgram(step)
  {
    ReachedInv(steps);
    more := PollerEnds(Run(START, steps));
  }

  lemma PollerEnds(s: State) returns (more: seq<Step>)
    requires s.watchClosed && RestartInv(s)
    ensures Legal(s, more) && Run(s, more).watcher == Ended
    ensures |more| <= 2 && forall step :: step in more ==> IsProgram(step)
  {
    more :=
      match s.watcher
      case Idle => [StopWatching]
      case Scanning => [ScanClean, StopWatching]
      case Reporting => [SendRestart]
      case Ended => [];
    match s.watcher {
      case Idle => OneMoreStep(s, [], StopWatching); assert [] + [StopWatching] == more;
      case Scanning => TwoSteps(s, ScanClean, StopWatching);
      case Reporting => OneMoreStep(s, [], SendRestart); assert [] + [SendRestart] == more;
      case Ended =>
    }
  }

  // ---------------------------------------------------------------- nothing is shut out

  /**
   * Main result: whenever main supervises, a signal of either kind can arrive and be taken, even
   * if one is waiting; then none is, and the deadline is armed if it was or the signal is no SIGHUP.
   */
  lemma SignalsAreServed(s: State, hup: bool)
    requires Inv(s) && s.main == Supervising
    ensures Leads(s, [SignalArrives, TakeSignal(hup)], s.(sigCh := 0, deadlineArmed := s.deadlineArmed || !hup))
    ensures s.sigCh > 0 ==> Enabled(s, TakeSignal(hup))
  {
    TwoSteps(s, SignalArrives, TakeSignal(hup));
  }

  /** The timer fires exactly while main supervises with the deadline armed, and that disarms it. */
  lemma DeadlineIsServed(s: State)
    ensures Enabled(s, DeadlineFires) <==> s.main == Supervising && s.deadlineArmed
    ensures Enabled(s, DeadlineFires) ==> !Take(s, DeadlineFires).deadlineArmed && !Enabled(Take(s, DeadlineFires), DeadlineFires)
  {
  }

  /** An idle poller can always look again. */
  lemma PollerLooksAgain(s: State)
    requires s.watcher == Idle
    ensures Leads(s, [PollTicks, ScanClean], s)
  {
    TwoSteps(s, PollTicks, ScanClean);
  }

  /** Main result: and report what it finds, once, which main can then take and the deadline is armed. */
  lemma PollerIsServed(s: State)
    requires RestartInv(s) && s.watcher == Idle
    ensures Leads(s, [PollTicks, ScanMoved, SendRestart], s.(watcher := Ended, restart := 1, restartSends := 1))
  {
    TwoSteps(s, PollTicks, ScanMoved);
    OneMoreStep(s, [PollTicks, ScanMoved], SendRestart);
    assert [PollTicks, ScanMoved] + [SendRestart] == [PollTicks, ScanMoved, SendRestart];
  }

  lemma RestartIsServed(s: State)
    requires RestartInv(s) && s.main == Supervising && s.restart > 0
    ensures Enabled(s, TakeRestart)
    ensures Take(s, TakeRestart) == s.(restart := 0, deadlineArmed := true, restartTakes := 1)
  {
  }

  /** The heartbeat goes round its loop until it is told to quit. */
  lemma BeatIsServed(s: State)
    requires s.beat == Listening
    ensures Leads(s, [BeatTicks, BeatRefreshed], s)
    ensures s.main == Quitting ==> Enabled(s, QuitBeat)
  {
    TwoSteps(s, BeatTicks, BeatRefreshed);
  }
}
