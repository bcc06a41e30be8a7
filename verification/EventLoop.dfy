/** The event loop of a connection, the two event descriptors that wake it up and tell it to leave,
    and the callers that notify it (src/Connection.cpp): interleaved steps of one loop thread and
    any number of caller threads.

    Each sd-bus call takes the sd-bus mutex and is one step; what it leaves in the read and write
    queues, and the timeout sd-bus then asks for, is arbitrary. poll returns at once when sd-bus had
    queued messages at the time of the snapshot, and whenever a descriptor is readable. */
module EventLoop {
  import opened Options

  /** What getEventLoopPollData tells: whether there are queued messages, and the next timeout. */
  datatype PollData = PollData(queued: bool, timeout: int)

  datatype Loop =
    | Outside
    | Process              // about to call sd_bus_process
    | ClearIdle            // it returned 0
    | Snapshot             // about to read the poll data
    | Poll(data: PollData)
    | ClearEvent           // eventFd_ was readable
    | ClearExit            // loopExitFd_ was readable
    | Failed               // an event descriptor could not be read

  datatype Caller =
    | Resting
    | TimeoutRead(before: int)    // callMethodAsync has read the timeout
    | Called(before: int)         // and made the call
    | CheckQueues                 // wakeUpEventLoopIfMessagesInQueue
    | Notify                      // notifyEventLoopToWakeUpFromPoll

  datatype State = State(
    queued: nat,          // messages in the sd-bus queues
    timeout: int,
    eventFd: nat,
    exitFd: nat,
    cleared: bool,        // eventFd_ was cleared since the last snapshot
    loop: Loop,
    callers: seq<Caller>,
    polls: nat,           // how often poll has returned,
    interrupts: nat,      // how often of these with EINTR,
    wakeUps: nat,         // how often eventFd_ was notified,
    leaves: nat)          // and loopExitFd_ since enterEventLoop last returned

  datatype Step =
    | Enter                                           // enterEventLoop
    | Processed(progress: bool, queued: nat, timeout: int)
    | LoopGoesOn
    | PollReturns(socket: bool)                       // the bus descriptor is ready or time is up
    | PollInterrupted
    | Call(caller: nat, queued: nat, timeout: int)    // requestName, releaseName, callMethod, sendMessage
    | CallThrows(caller: nat, queued: nat, timeout: int)
    | ReadTimeout(caller: nat)                        // callMethodAsync
    | CallAsync(caller: nat, queued: nat, timeout: int)
    | CallAsyncThrows(caller: nat, queued: nat, timeout: int)
    | CallerGoesOn(caller: nat)
    | Leave                                           // notifyEventLoopToExit

  function Initially(n: nat): State {
    State(0, 0, 0, 0, false, Outside, seq(n, _ => Resting), 0, 0, 0, 0)
  }

  /** Some descriptor that poll waits for is readable, or it does not wait at all. */
  predicate Ready(s: State, socket: bool)
    requires s.loop.Poll?
  {
    socket || s.loop.data.queued || s.eventFd > 0 || s.exitFd > 0
  }

  function LoopStep(s: State): Option<State> {
    match s.loop
    case ClearIdle => Some(s.(eventFd := 0, cleared := true, loop := Snapshot))
    case Snapshot => Some(s.(cleared := false, loop := Poll(PollData(s.queued > 0, s.timeout))))
    case ClearEvent =>
      Some(if s.eventFd > 0 then s.(eventFd := 0, cleared := true, loop := Snapshot) else s.(loop := Failed))
    case ClearExit => Some(if s.exitFd > 0 then s.(exitFd := 0, leaves := 0, loop := Outside) else s.(loop := Failed))
    case _ => None
  }

  function CallerStep(s: State, c: nat): Option<State>
    requires c < |s.callers|
  {
    match s.callers[c]
    case Called(before) => Some(s.(callers := s.callers[c := if s.timeout < before then Notify else CheckQueues]))
    case CheckQueues => Some(s.(callers := s.callers[c := if s.queued > 0 then Notify else Resting]))
    case Notify => Some(s.(callers := s.callers[c := Resting], eventFd := s.eventFd + 1, wakeUps := s.wakeUps + 1))
    case _ => None
  }

  function Next(s: State, step: Step): Option<State> {
    match step
    case Enter => if s.loop.Outside? then Some(s.(loop := Process)) else None
    case Processed(progress, q, t) =>
      if s.loop.Process? then Some(s.(queued := q, timeout := t, loop := if progress then Snapshot else ClearIdle))
      else None
    case LoopGoesOn => LoopStep(s)
    case PollReturns(socket) =>
      if !(s.loop.Poll? && Ready(s, socket)) then None
      else
        Some(s.(polls := s.polls + 1,
                loop := if s.eventFd > 0 then ClearEvent else if s.exitFd > 0 then ClearExit else Process))
    case PollInterrupted =>
      if s.loop.Poll? then Some(s.(polls := s.polls + 1, interrupts := s.interrupts + 1, loop := Process)) else None
    case Call(c, q, t) =>
      if c < |s.callers| && s.callers[c].Resting?
      then Some(s.(queued := q, timeout := t, callers := s.callers[c := CheckQueues])) else None
    case CallThrows(c, q, t) =>
      if c < |s.callers| && s.callers[c].Resting? then Some(s.(queued := q, timeout := t)) else None
    case ReadTimeout(c) =>
      if c < |s.callers| && s.callers[c].Resting?
      then Some(s.(callers := s.callers[c := TimeoutRead(s.timeout)])) else None
    case CallAsync(c, q, t) =>
      if c < |s.callers| && s.callers[c].TimeoutRead?
      then Some(s.(queued := q, timeout := t, callers := s.callers[c := Called(s.callers[c].before)])) else None
    case CallAsyncThrows(c, q, t) =>
      if c < |s.callers| && s.callers[c].TimeoutRead?
      then Some(s.(queued := q, timeout := t, callers := s.callers[c := Resting])) else None
    case CallerGoesOn(c) => if c < |s.callers| then CallerStep(s, c) else None
    case Leave => Some(s.(exitFd := s.exitFd + 1, leaves := s.leaves + 1))
  }

  function Runs(s: State, steps: seq<Step>): Option<State>
    decreases |steps|
  {
    if steps == [] then Some(s)
    else match Next(s, steps[0]) case Some(s') => Runs(s', steps[1..]) case None => None
  }

  lemma NothingRuns(s: State)
    ensures Runs(s, []) == Some(s)
  {
  }

  lemma RunsStep(s: State, step: Step, rest: seq<Step>)
    requires Next(s, step).Some?
    ensures Runs(s, [step] + rest) == Runs(Next(s, step).value, rest)
  {
    assert ([step] + rest)[1..] == rest;
  }

  lemma {:induction false} RunsOn(s: State, steps: seq<Step>, more: seq<Step>)
    ensures Runs(s, steps + more) ==
            match Runs(s, steps) case Some(s') => Runs(s', more) case None => None
    decreases |steps|
  {
    hide Next;
    if steps == [] {
      assert steps + more == more;
    } else {
      assert (steps + more)[1..] == steps[1..] + more;
      if Next(s, steps[0]).Some? {
        RunsOn(Next(s, steps[0]).value, steps[1..], more);
      }
    }
  }

  // ---------------------------------------------------------------------------------------
  // No lost wake-up

  /** The caller has still to look at the queues, or to notify. */
  predicate ToCheck(caller: Caller) {
    caller.Called? || caller.CheckQueues? || caller.Notify?
  }

  predicate SomeoneToCheck(callers: seq<Caller>) {
    exists c | 0 <= c < |callers| :: ToCheck(callers[c])
  }

  /** poll waits, and nothing but the bus descriptor or a timeout will end it. */
  predicate Blocked(s: State) {
    s.loop.Poll? && !Ready(s, false)
  }

  predicate NoLostWakeUp(s: State) {
    s.loop.Poll? && !s.loop.data.queued && s.queued > 0 ==> s.eventFd > 0 || SomeoneToCheck(s.callers)
  }

  /** A call throws before it looks at the queues, with messages in them: callMethod an error reply,
      callMethodAsync when it cannot send. */
  predicate Throwing(step: Step) {
    (step.CallThrows? || step.CallAsyncThrows?) && step.queued > 0
  }

  lemma NextWakesUp(s: State, step: Step)
    requires NoLostWakeUp(s) && Next(s, step).Some? && !Throwing(step)
    ensures NoLostWakeUp(Next(s, step).value)
  {
    var s' := Next(s, step).value;
    if s.loop.Poll? && s'.loop.Poll? && s'.queued > 0 && s'.eventFd == 0 {
      match step
      case Call(c, _, _) => assert ToCheck(s'.callers[c]);
      case CallAsync(c, _, _) => assert ToCheck(s'.callers[c]);
      case ReadTimeout(c) => OthersStillCheck(s.callers, c, s'.callers[c]);
      case CallerGoesOn(c) =>
        assert ToCheck(s'.callers[c]);
      case _ =>
    }
  }

  lemma OthersStillCheck(callers: seq<Caller>, c: nat, caller: Caller)
    requires c < |callers| && !ToCheck(callers[c]) && !ToCheck(caller)
    ensures SomeoneToCheck(callers[c := caller]) <==> SomeoneToCheck(callers)
  {
    forall d | 0 <= d < |callers| ensures ToCheck(callers[c := caller][d]) <==> ToCheck(callers[d]) {
    }
  }

  /** As long as no call throws with messages left behind: whenever the loop waits on a snapshot of
      empty queues and messages are queued by now, eventFd_ is readable or a caller has still to
      check the queues. */
  lemma {:induction false} WakeUpNeverLost(s: State, steps: seq<Step>, s': State)
    requires NoLostWakeUp(s) && Runs(s, steps) == Some(s')
    requires forall i | 0 <= i < |steps| :: !Throwing(steps[i])
    ensures NoLostWakeUp(s')
    decreases |steps|
  {
    if steps != [] {
      NextWakesUp(s, steps[0]);
      hide Next, NoLostWakeUp;
      WakeUpNeverLost(Next(s, steps[0]).value, steps[1..], s');
    }
  }

  /** So once the callers are done, the loop does not sleep on queued messages. */
  lemma NeverSleepsOnMessages(n: nat, steps: seq<Step>, s: State)
    requires Runs(Initially(n), steps) == Some(s) && forall i | 0 <= i < |steps| :: !Throwing(steps[i])
    requires forall c | 0 <= c < |s.callers| :: s.callers[c].Resting?
    ensures Blocked(s) ==> s.queued == 0
  {
    WakeUpNeverLost(Initially(n), steps, s);
  }

  /** poll waits on a snapshot of empty queues, and nobody is about to wake it up. */
  predicate Exposed(s: State) {
    s.loop.Poll? && !s.loop.data.queued && s.eventFd == 0 && !SomeoneToCheck(s.callers)
  }

  /** Steps that leave the loop in poll and nobody with a check to make. */
  predicate Harmless(step: Step) {
    step.ReadTimeout? || step.Leave? || Throwing(step)
  }

  /** Exactly how a wake-up is lost and stays lost: a call throws, with messages left behind, while
      the loop is exposed; and then nothing happens that would help. */
  lemma LostByStep(s: State, step: Step)
    requires Next(s, step).Some?
    ensures !NoLostWakeUp(Next(s, step).value) <==>
            if NoLostWakeUp(s) then Throwing(step) && Exposed(s) else Harmless(step)
  {
    var s' := Next(s, step).value;
    if NoLostWakeUp(s) && !Throwing(step) {
      NextWakesUp(s, step);
    }
    if step.ReadTimeout? || step.CallAsyncThrows? {
      OthersStillCheck(s.callers, step.caller, s'.callers[step.caller]);
    }
    if !NoLostWakeUp(s) && (step.Call? || step.CallAsync?) {
      assert ToCheck(s'.callers[step.caller]);
    }
    assert step.CallerGoesOn? ==> ToCheck(s.callers[step.caller]);
  }

  /** The step at `k` throws in an exposed state of the run, and only harmless ones follow. */
  predicate LosesAt(s: State, steps: seq<Step>, k: nat) {
    && k < |steps| && Throwing(steps[k])
    && Runs(s, steps[..k]).Some? && Exposed(Runs(s, steps[..k]).value)
    && forall i | k < i < |steps| :: Harmless(steps[i])
  }

  /** The loop sleeps on queued messages, with nobody left to check. */
  predicate Asleep(s: State) {
    Blocked(s) && s.queued > 0 && !SomeoneToCheck(s.callers)
  }

  /** The counterpart of `WakeUpNeverLost` for all runs: a wake-up is lost at the end if and only if
      some call threw while the loop was exposed and nothing has helped since; and then the loop
      sleeps unless it was told to leave. */
  lemma {:induction false} WakeUpLostExactly(s: State, steps: seq<Step>, s': State)
    requires NoLostWakeUp(s) && Runs(s, steps) == Some(s')
    ensures !NoLostWakeUp(s') <==> exists k :: LosesAt(s, steps, k)
    ensures Asleep(s') <==> s'.exitFd == 0 && exists k :: LosesAt(s, steps, k)
    decreases |steps|
  {
    if steps != [] {
      var n := |steps| - 1;
      var before, last := steps[..n], steps[n];
      assert steps == before + [last] && [last][1..] == [];
      RunsOn(s, before, [last]);
      var mid := Runs(s, before).value;
      assert Runs(mid, [last]) == Next(mid, last);
      WakeUpLostExactly(s, before, mid);
      LostByStep(mid, last);
      hide Next, NoLostWakeUp, Exposed, Throwing, Harmless, Runs;
      LosesBefore(s, before, last);
      if NoLostWakeUp(mid) && Throwing(last) && Exposed(mid) {
        assert LosesAt(s, steps, n);
      }
      if LosesAt(s, steps, n) { assert steps[..n] == before; }
    }
  }

  lemma LosesBefore(s: State, before: seq<Step>, last: Step)
    ensures forall k: nat | k < |before| :: LosesAt(s, before + [last], k) <==> LosesAt(s, before, k) && Harmless(last)
  {
    hide Throwing, Harmless, Exposed, Runs;
    var steps := before + [last];
    forall k: nat | k < |before|
      ensures LosesAt(s, steps, k) <==> LosesAt(s, before, k) && Harmless(last)
    {
      assert steps[..k] == before[..k] && steps[|before|] == last;
      assert forall i | 0 <= i < |before| :: steps[i] == before[i];
    }
  }

  /** It can happen: the loop finds nothing to do and waits, and a call is answered by an error while
      other messages arrive. */
  lemma ThrowLosesWakeUpIsPossible()
    ensures var steps := [Enter, Processed(false, 0, 5), LoopGoesOn, LoopGoesOn, CallThrows(0, 1, 5)];
            Runs(Initially(1), steps).Some? && Asleep(Runs(Initially(1), steps).value)
  {
  }

  // ---------------------------------------------------------------------------------------
  // Leaving the loop

  /** The loop reads a descriptor only after poll has found it readable, and it is the only reader. */
  predicate DescriptorInv(s: State) {
    && s.exitFd == s.leaves
    && (s.loop.ClearExit? ==> s.exitFd > 0)
    && (s.loop.ClearEvent? ==> s.eventFd > 0)
    && !s.loop.Failed?
    && (s.cleared ==> s.loop.Snapshot?)
  }

  lemma DescriptorsKeptByStep(s: State, step: Step)
    requires DescriptorInv(s) && Next(s, step).Some?
    ensures DescriptorInv(Next(s, step).value)
  {
  }

  lemma {:induction false} DescriptorsKept(s: State, steps: seq<Step>, s': State)
    requires DescriptorInv(s) && Runs(s, steps) == Some(s')
    ensures DescriptorInv(s')
    decreases |steps|
  {
    if steps != [] {
      DescriptorsKeptByStep(s, steps[0]);
      hide Next, DescriptorInv;
      DescriptorsKept(Next(s, steps[0]).value, steps[1..], s');
    }
  }

  /** Every clear of eventFd_ is followed by a fresh snapshot before the next poll. */
  lemma PollsOnFreshSnapshot(n: nat, steps: seq<Step>, s: State)
    requires Runs(Initially(n), steps) == Some(s) && s.loop.Poll?
    ensures !s.cleared
  {
    DescriptorsKept(Initially(n), steps, s);
  }

  /** enterEventLoop returns only after a notification since it last returned, clearing a descriptor
      never fails, and poll attends to a wake-up before it attends to that. */
  lemma ReturnsOnlyWhenTold(n: nat, steps: seq<Step>, s: State, step: Step)
    requires Runs(Initially(n), steps) == Some(s) && Next(s, step).Some?
    ensures !s.loop.Failed?
    ensures !s.loop.Outside? && Next(s, step).value.loop.Outside? ==> s.leaves > 0
    ensures step.PollReturns? && Next(s, step).value.loop.ClearExit? ==> s.eventFd == 0
  {
    DescriptorsKept(Initially(n), steps, s);
  }

  /** enterEventLoop returns. */
  predicate Returns(s: State, step: Step) {
    Next(s, step).Some? && !s.loop.Outside? && Next(s, step).value.loop.Outside?
  }

  function CountReturns(s: State, steps: seq<Step>): nat
    decreases |steps|
  {
    if steps == [] || Next(s, steps[0]).None? then 0
    else (if Returns(s, steps[0]) then 1 else 0) + CountReturns(Next(s, steps[0]).value, steps[1..])
  }

  function CountLeaves(steps: seq<Step>): nat {
    if steps == [] then 0 else (if steps[0].Leave? then 1 else 0) + CountLeaves(steps[1..])
  }

  lemma ReturnUsesUp(s: State, step: Step)
    requires DescriptorInv(s) && Next(s, step).Some?
    ensures var s' := Next(s, step).value;
            (if Returns(s, step) then 1 else 0) + (if s'.exitFd > 0 then 1 else 0) <=
            (if step.Leave? then 1 else 0) + (if s.exitFd > 0 then 1 else 0)
  {
  }

  /** Every return of enterEventLoop uses up the notifications there are: it never returns more often
      than it was told to, and not again before it is told again. */
  lemma {:induction false} OneReturnEach(s: State, steps: seq<Step>, s': State)
    requires DescriptorInv(s) && Runs(s, steps) == Some(s')
    ensures CountReturns(s, steps) + (if s'.exitFd > 0 then 1 else 0)
            <= CountLeaves(steps) + if s.exitFd > 0 then 1 else 0
    decreases |steps|
  {
    if steps != [] {
      ReturnUsesUp(s, steps[0]);
      DescriptorsKeptByStep(s, steps[0]);
      hide Next, DescriptorInv, Returns;
      OneReturnEach(Next(s, steps[0]).value, steps[1..], s');
    }
  }

  /** enterEventLoop does not return during the run. */
  predicate NoReturn(s: State, steps: seq<Step>)
    decreases |steps|
  {
    steps != [] && Next(s, steps[0]).Some? ==>
      !Returns(s, steps[0]) && NoReturn(Next(s, steps[0]).value, steps[1..])
  }

  predicate IsLoopStep(step: Step) {
    step.Processed? || step.LoopGoesOn? || step.PollReturns? || step.PollInterrupted?
  }

  function LoopSteps(steps: seq<Step>): nat {
    if steps == [] then 0 else LoopSteps(steps[1..]) + if IsLoopStep(steps[0]) then 1 else 0
  }

  /** 1 if the next poll will see a wake-up notification. */
  function Noticed(s: State): nat {
    if s.eventFd > 0 && !s.loop.ClearEvent? && !s.loop.ClearIdle? then 1 else 0
  }

  /** How many steps the loop has still to make before it returns, if nothing disturbs it. */
  function ToGo(s: State): nat {
    6 * Noticed(s) +
    match s.loop
    case Process => 5
    case ClearIdle => 4
    case ClearEvent => 4
    case Snapshot => 3
    case Poll(_) => 2
    case ClearExit => 1
    case Outside => 5
    case Failed => 0
  }

  /** What one step uses up on the way to the return. */
  lemma NextNears(s: State, step: Step)
    requires DescriptorInv(s) && s.leaves > 0 && Next(s, step).Some? && !Returns(s, step)
    ensures var s' := Next(s, step).value;
            && DescriptorInv(s') && s'.leaves >= s.leaves
            && (s'.polls - s.polls) + Noticed(s')
               <= Noticed(s) + (s'.wakeUps - s.wakeUps) + (s'.interrupts - s.interrupts)
                  + (if s'.loop.ClearExit? && !s.loop.ClearExit? then 1 else 0)
            && (s.loop.ClearExit? ==> s'.loop.ClearExit?)
            && (if IsLoopStep(step) then 1 else 0) + ToGo(s')
               <= ToGo(s) + 6 * (s'.wakeUps - s.wakeUps) + 4 * (s'.interrupts - s.interrupts)
  {
  }

  /** A notification to leave, sent before or during the loop, is never lost: until the loop returns
      it stays readable and poll does not wait; poll returns at most twice, and once more for every
      later wake-up notification and every EINTR; and the loop's own steps are bounded likewise. */
  lemma {:induction false} LeavesInTime(s: State, steps: seq<Step>, s': State)
    requires DescriptorInv(s) && s.leaves > 0 && Runs(s, steps) == Some(s') && NoReturn(s, steps)
    ensures DescriptorInv(s') && s'.leaves >= s.leaves && s'.exitFd > 0 && !Blocked(s')
    ensures (s'.polls - s.polls) + Noticed(s')
            <= Noticed(s) + (s'.wakeUps - s.wakeUps) + (s'.interrupts - s.interrupts)
               + (if s'.loop.ClearExit? && !s.loop.ClearExit? then 1 else 0)
    ensures s.loop.ClearExit? ==> s'.loop.ClearExit?
    ensures LoopSteps(steps) + ToGo(s')
            <= ToGo(s) + 6 * (s'.wakeUps - s.wakeUps) + 4 * (s'.interrupts - s.interrupts)
    decreases |steps|
  {
    if steps != [] {
      NextNears(s, steps[0]);
      hide Next, ToGo, Noticed;
      LeavesInTime(Next(s, steps[0]).value, steps[1..], s');
    }
  }

  /** So it does return: at the latest when it has made more steps than that. */
  lemma ReturnsInTime(s: State, steps: seq<Step>, s': State)
    requires DescriptorInv(s) && s.leaves > 0 && Runs(s, steps) == Some(s')
    requires LoopSteps(steps) > ToGo(s) + 6 * (s'.wakeUps - s.wakeUps) + 4 * (s'.interrupts - s.interrupts)
    ensures CountReturns(s, steps) > 0
  {
    if NoReturn(s, steps) {
      LeavesInTime(s, steps, s');
    } else {
      SomeReturn(s, steps);
    }
  }

  lemma {:induction false} SomeReturn(s: State, steps: seq<Step>)
    requires !NoReturn(s, steps)
    ensures CountReturns(s, steps) > 0
    decreases |steps|
  {
    hide Next, Returns;
    if !Returns(s, steps[0]) {
      SomeReturn(Next(s, steps[0]).value, steps[1..]);
    }
  }

  /** Inside the loop, unless it waits with nothing readable and nothing queued at its snapshot, the
      loop can always make its next step; so it can with a notification to leave. */
  lemma LoopIsNeverStuck(n: nat, steps: seq<Step>, s: State)
    requires Runs(Initially(n), steps) == Some(s) && !s.loop.Outside?
    ensures s.leaves > 0 ==> !Blocked(s)
    ensures !Blocked(s) ==> exists step :: IsLoopStep(step) && !step.PollInterrupted? && Next(s, step).Some?
  {
    DescriptorsKept(Initially(n), steps, s);
    var step :=
      match s.loop case Process => Processed(true, 0, 0) case Poll(_) => PollReturns(false) case _ => LoopGoesOn;
    assert !Blocked(s) ==> IsLoopStep(step) && !step.PollInterrupted? && Next(s, step).Some?;
  }

  // ---------------------------------------------------------------------------------------
  // Processing

  /** How many steps the loop has still to make before it processes, if nothing disturbs it. */
  function ToProcess(s: State): nat {
    3 * Noticed(s) +
    match s.loop
    case ClearIdle => 3
    case ClearEvent => 3
    case Snapshot => 2
    case Poll(_) => 1
    case _ => 0
  }

  lemma NextNearsProcessing(s: State, step: Step)
    requires DescriptorInv(s) && s.exitFd == 0 && Next(s, step).Some? && !step.Processed? && !step.Leave?
    ensures var s' := Next(s, step).value;
            && DescriptorInv(s') && s'.exitFd == 0
            && (if IsLoopStep(step) then 1 else 0) + ToProcess(s') <= ToProcess(s) + 3 * (s'.wakeUps - s.wakeUps)
  {
  }

  /** Between two calls of sd_bus_process the loop makes at most three steps, and three more for every
      wake-up notification, of those that are there and those to come: so, when it is not to leave, it
      either processes or waits. */
  lemma {:induction false} ProcessesInTime(s: State, steps: seq<Step>, s': State)
    requires DescriptorInv(s) && s.exitFd == 0 && Runs(s, steps) == Some(s')
    requires forall i | 0 <= i < |steps| :: !steps[i].Processed? && !steps[i].Leave?
    ensures DescriptorInv(s') && s'.exitFd == 0
    ensures LoopSteps(steps) + ToProcess(s') <= ToProcess(s) + 3 * (s'.wakeUps - s.wakeUps)
    decreases |steps|
  {
    hide Next, ToProcess, DescriptorInv;
    if steps != [] {
      NextNearsProcessing(s, steps[0]);
      ProcessesInTime(Next(s, steps[0]).value, steps[1..], s');
    }
  }

  /** Callers notify only with a reason: messages in the queues, or a timeout shorter than the one they
      had read. */
  lemma NotifiesWithReason(s: State, step: Step, c: nat)
    requires Next(s, step).Some? && c < |s.callers|
    ensures |Next(s, step).value.callers| == |s.callers|
    ensures Next(s, step).value.callers[c].Notify? && !s.callers[c].Notify? ==>
              step == CallerGoesOn(c) && (s.queued > 0 || (s.callers[c].Called? && s.timeout < s.callers[c].before))
    ensures Next(s, step).value.eventFd > s.eventFd ==>
              step.CallerGoesOn? && step.caller < |s.callers| && s.callers[step.caller].Notify?
  {
  }

  /** What takes a wake-up notification back: the loop reads the descriptor after poll has found it
      readable, or after sd_bus_process has found nothing to do. */
  lemma WakeUpsConsumed(s: State, step: Step)
    requires Next(s, step).Some?
    ensures Next(s, step).value.eventFd < s.eventFd ==> step.LoopGoesOn? && (s.loop.ClearIdle? || s.loop.ClearEvent?)
    ensures step.LoopGoesOn? && (s.loop.ClearIdle? || s.loop.ClearEvent?) ==> Next(s, step).value.eventFd == 0
    ensures Next(s, step).value.loop.ClearIdle? && !s.loop.ClearIdle? <==> step.Processed? && !step.progress
    ensures Next(s, step).value.loop.ClearEvent? && !s.loop.ClearEvent? <==> step.PollReturns? && s.eventFd > 0
    ensures step.LoopGoesOn? && (s.loop.ClearIdle? || (s.loop.ClearEvent? && s.eventFd > 0)) ==>
              Next(s, step).value.loop.Snapshot? && Next(s, step).value.cleared
  {
  }

  function Count(happened: bool): nat {
    if happened then 1 else 0
  }

  /** What is counted: every end of a poll and the interrupted ones, every notification of a descriptor,
      and the notifications to leave since the loop last left. */
  lemma CountsAsDefined(s: State, step: Step)
    requires Next(s, step).Some?
    ensures Next(s, step).value.polls == s.polls + Count(s.loop.Poll? && !Next(s, step).value.loop.Poll?)
    ensures Next(s, step).value.interrupts == s.interrupts + Count(step.PollInterrupted?)
    ensures Next(s, step).value.wakeUps == s.wakeUps + Count(step.CallerGoesOn? && s.callers[step.caller].Notify?)
    ensures Next(s, step).value.wakeUps == s.wakeUps || Next(s, step).value.eventFd == s.eventFd + 1
    ensures Next(s, step).value.leaves ==
            if Next(s, step).value.loop.Outside? && !s.loop.Outside? then 0 else s.leaves + Count(step.Leave?)
    ensures step.Leave? ==> Next(s, step).value.exitFd == s.exitFd + 1
  {
  }

  // ---------------------------------------------------------------------------------------
  // The timeout of an asynchronous call

  /** poll waits for longer than the timeout that sd-bus asks for by now. */
  predicate WaitsTooLong(s: State) {
    s.loop.Poll? && s.timeout < s.loop.data.timeout
  }

  /** The caller is going to notify, with the timeout as it is. */
  predicate ToNotify(caller: Caller, timeout: int) {
    caller.Notify? || (caller.Called? && timeout < caller.before)
  }

  predicate SomeoneToNotify(s: State) {
    exists c | 0 <= c < |s.callers| :: ToNotify(s.callers[c], s.timeout)
  }

  /** The caller has read a timeout shorter than `timeout`, and has still to make its call. */
  predicate ReadBelow(caller: Caller, timeout: int) {
    caller.TimeoutRead? && caller.before < timeout
  }

  predicate SomeoneReadBelow(s: State, timeout: int) {
    exists c | 0 <= c < |s.callers| :: ReadBelow(s.callers[c], timeout)
  }

  /** What callMethodAsync is to keep up by its comparison: when poll waits for too long, somebody ends
      that. The same is asked when a caller has read a timeout below the one poll waits for, since its
      comparison will not notice that its own call makes poll wait for too long. */
  predicate NoMissedTimeout(s: State) {
    s.loop.Poll? && (WaitsTooLong(s) || SomeoneReadBelow(s, s.loop.data.timeout)) ==>
      s.eventFd > 0 || SomeoneToNotify(s)
  }

  /** A call leaves the next timeout as it is, or makes it shorter if it is asynchronous. */
  predicate OnlyShortens(s: State, step: Step) {
    match step
    case Call(_, _, t) => t == s.timeout
    case CallThrows(_, _, t) => t == s.timeout
    case CallAsyncThrows(_, _, t) => t == s.timeout
    case CallAsync(_, _, t) => t <= s.timeout
    case _ => true
  }

  /** The loop takes its snapshot, with a timeout longer than some caller has read for its call. */
  predicate Overtakes(s: State, step: Step) {
    step.LoopGoesOn? && s.loop.Snapshot? && SomeoneReadBelow(s, s.timeout)
  }

  /** A caller other than `c` notifies as before if the timeout is no longer. */
  lemma OthersStillNotify(s: State, s': State, c: nat)
    requires c < |s.callers| == |s'.callers| && s'.callers == s.callers[c := s'.callers[c]]
    requires s'.timeout <= s.timeout && !ToNotify(s.callers[c], s.timeout)
    ensures SomeoneToNotify(s) ==> SomeoneToNotify(s')
  {
    if d :| 0 <= d < |s.callers| && ToNotify(s.callers[d], s.timeout) {
      assert ToNotify(s'.callers[d], s'.timeout);
    }
  }

  lemma OthersReadBelow(s: State, s': State, c: nat, timeout: int)
    requires c < |s.callers| == |s'.callers| && s'.callers == s.callers[c := s'.callers[c]]
    requires ReadBelow(s'.callers[c], timeout) ==> ReadBelow(s.callers[c], timeout)
    ensures SomeoneReadBelow(s', timeout) ==> SomeoneReadBelow(s, timeout)
  {
    if d :| 0 <= d < |s.callers| && ReadBelow(s'.callers[d], timeout) {
      assert ReadBelow(s.callers[d], timeout);
    }
  }

  /** A step of caller `c` while poll waits. */
  lemma CallerNotices(s: State, s': State, c: nat, step: Step)
    requires NoMissedTimeout(s) && Next(s, step) == Some(s') && OnlyShortens(s, step) && s.loop.Poll?
    requires !IsLoopStep(step) && !step.Leave? && !step.Enter? && step.caller == c
    ensures NoMissedTimeout(s')
  {
    var waited := s.loop.data.timeout;
    var before, after := s.callers[c], s'.callers[c];
    if ToNotify(after, s'.timeout) {
      assert SomeoneToNotify(s');
    } else if !before.Notify? {
      OthersStillNotify(s, s', c);
      if ReadBelow(after, waited) && !ReadBelow(before, waited) {
        assert WaitsTooLong(s);
      } else {
        OthersReadBelow(s, s', c, waited);
        assert before.TimeoutRead? && WaitsTooLong(s') && !WaitsTooLong(s) ==> ReadBelow(before, waited);
      }
    }
  }

  lemma NextNotices(s: State, step: Step)
    requires NoMissedTimeout(s) && Next(s, step).Some? && OnlyShortens(s, step) && !Overtakes(s, step)
    ensures NoMissedTimeout(Next(s, step).value)
  {
    if s.loop.Poll? && !IsLoopStep(step) && !step.Leave? && !step.Enter? {
      CallerNotices(s, Next(s, step).value, step.caller, step);
    }
  }

  /** Every step of the run is `OnlyShortens`, and none `Overtakes`. */
  predicate InTime(s: State, steps: seq<Step>)
    decreases |steps|
  {
    steps != [] && Next(s, steps[0]).Some? ==>
      OnlyShortens(s, steps[0]) && !Overtakes(s, steps[0]) && InTime(Next(s, steps[0]).value, steps[1..])
  }

  /** As long as no snapshot overtakes a caller between its reading of the timeout and its call:
      whenever the loop waits for longer than the next timeout, eventFd_ is readable or a caller is
      about to notify. */
  lemma {:induction false} TimeoutNeverMissed(s: State, steps: seq<Step>, s': State)
    requires NoMissedTimeout(s) && Runs(s, steps) == Some(s') && InTime(s, steps)
    ensures NoMissedTimeout(s')
    decreases |steps|
  {
    if steps != [] {
      NextNotices(s, steps[0]);
      hide Next, NoMissedTimeout, OnlyShortens, Overtakes;
      TimeoutNeverMissed(Next(s, steps[0]).value, steps[1..], s');
    }
  }

  /** The loop waits too long, and the callers would all come to rest without a notification. */
  predicate Missed(s: State) {
    WaitsTooLong(s) && s.eventFd == 0 && s.queued == 0 && !SomeoneToNotify(s)
  }

  predicate Misses(s: State, steps: seq<Step>) {
    InTime(s, steps) && Runs(s, steps).Some? && Missed(Runs(s, steps).value)
  }

  /** Exactly which snapshots lead to a missed timeout: those that overtake a caller while eventFd_ is
      not readable and nobody is about to notify. */
  lemma TimeoutMissedExactly(s: State)
    requires s.loop.Snapshot?
    ensures (exists steps :: Misses(LoopStep(s).value, steps)) <==>
            Overtakes(s, LoopGoesOn) && s.eventFd == 0 && !SomeoneToNotify(s)
  {
    var s' := LoopStep(s).value;
    if Overtakes(s, LoopGoesOn) && s.eventFd == 0 && !SomeoneToNotify(s) {
      var c: nat :| c < |s.callers| && ReadBelow(s.callers[c], s.timeout);
      var steps := CanMiss(s', c, 0);
    } else if steps :| Misses(s', steps) {
      assert NoMissedTimeout(s');
      TimeoutNeverMissed(s', steps, Runs(s', steps).value);
    }
  }

  /** The callers from `k` on that have made their calls compare the timeouts in vain, and then the
      one that was overtaken makes its call. */
  lemma {:induction false} CanMiss(s: State, c: nat, k: nat) returns (steps: seq<Step>)
    requires s.loop.Poll? && s.eventFd == 0 && s.loop.data.timeout <= s.timeout && !SomeoneToNotify(s)
    requires c < |s.callers| && ReadBelow(s.callers[c], s.loop.data.timeout)
    requires k <= |s.callers| && forall i | 0 <= i < k :: !s.callers[i].Called?
    ensures Misses(s, steps)
    decreases |s.callers| - k
  {
    if k == |s.callers| {
      LastCallMissed(s, c);
      steps := [CallAsync(c, 0, s.callers[c].before)];
    } else if !s.callers[k].Called? {
      steps := CanMiss(s, c, k + 1);
    } else {
      var s' := Next(s, CallerGoesOn(k)).value;
      OthersAsQuiet(s, s', k);
      var rest := CanMiss(s', c, k + 1);
      steps := [CallerGoesOn(k)] + rest;
      hide Next;
      RunsStep(s, CallerGoesOn(k), rest);
      assert steps[1..] == rest;
    }
  }

  lemma LastCallMissed(s: State, c: nat)
    requires s.loop.Poll? && s.eventFd == 0 && s.loop.data.timeout <= s.timeout && !SomeoneToNotify(s)
    requires c < |s.callers| && ReadBelow(s.callers[c], s.loop.data.timeout)
    requires forall i | 0 <= i < |s.callers| :: !s.callers[i].Called?
    ensures Misses(s, [CallAsync(c, 0, s.callers[c].before)])
  {
    var step := CallAsync(c, 0, s.callers[c].before);
    var s' := Next(s, step).value;
    forall i | 0 <= i < |s'.callers| ensures !ToNotify(s'.callers[i], s'.timeout) {
      assert !ToNotify(s.callers[i], s.timeout);
    }
    assert Missed(s') && OnlyShortens(s, step) && !Overtakes(s, step);
    hide Next, Missed, OnlyShortens, Overtakes;
    NothingRuns(s');
    RunsStep(s, step, []);
    assert [step] + [] == [step];
    assert InTime(s', []);
  }

  lemma OthersAsQuiet(s: State, s': State, k: nat)
    requires k < |s.callers| && s.callers[k].Called? && !SomeoneToNotify(s) && Next(s, CallerGoesOn(k)) == Some(s')
    ensures s' == s.(callers := s.callers[k := CheckQueues]) && !SomeoneToNotify(s')
  {
    assert !ToNotify(s.callers[k], s.timeout);
    forall i | 0 <= i < |s'.callers| ensures !ToNotify(s'.callers[i], s'.timeout) {
      assert !ToNotify(s.callers[i], s.timeout);
    }
  }

  /** It can happen: the caller reads the timeout of an older call, the loop processes the reply to
      that one and waits for what is left, and only then the new call is made. */
  lemma TimeoutMissedIsPossible(older: int, newer: int, rest: int)
    requires older <= newer < rest
    ensures var steps := Waiting(older) + Overtaken(rest) + Calling(newer);
            && Runs(Initially(1), steps).Some?
            && var s' := Runs(Initially(1), steps).value;
               && Blocked(s') && s'.callers == [Resting] && s'.timeout == newer && s'.loop.data.timeout == rest
               && Missed(s')
  {
    var s1 := Initially(1).(timeout := older, loop := Process, polls := 1);
    var s2 := s1.(timeout := rest, loop := Poll(PollData(false, rest)), callers := [TimeoutRead(older)]);
    WaitsForOlder(older);
    WaitsForRest(s1, rest);
    CallsInVain(s2, newer);
    hide Runs;
    RunsOn(Initially(1), Waiting(older), Overtaken(rest));
    RunsOn(Initially(1), Waiting(older) + Overtaken(rest), Calling(newer));
  }

  function Waiting(older: int): seq<Step> {
    [Enter, Processed(true, 0, older), LoopGoesOn, PollReturns(true)]
  }

  function Overtaken(rest: int): seq<Step> {
    [ReadTimeout(0), Processed(true, 0, rest), LoopGoesOn]
  }

  function Calling(newer: int): seq<Step> {
    [CallAsync(0, 0, newer), CallerGoesOn(0), CallerGoesOn(0)]
  }

  lemma WaitsForOlder(older: int)
    ensures Runs(Initially(1), Waiting(older)) ==
            Some(Initially(1).(timeout := older, loop := Process, polls := 1))
  {
    var s1 := Next(Initially(1), Enter).value;
    var s2 := Next(s1, Processed(true, 0, older)).value;
    var s3 := Next(s2, LoopGoesOn).value;
    RunsStep(s3, PollReturns(true), []);
    RunsStep(s2, LoopGoesOn, [PollReturns(true)]);
    RunsStep(s1, Processed(true, 0, older), [LoopGoesOn, PollReturns(true)]);
    RunsStep(Initially(1), Enter, [Processed(true, 0, older), LoopGoesOn, PollReturns(true)]);
  }

  lemma WaitsForRest(s: State, rest: int)
    requires s == Initially(1).(timeout := s.timeout, loop := Process, polls := s.polls)
    ensures Runs(s, Overtaken(rest)) ==
            Some(s.(timeout := rest, loop := Poll(PollData(false, rest)), callers := [TimeoutRead(s.timeout)]))
  {
    var s1 := Next(s, ReadTimeout(0)).value;
    assert s1.callers == [TimeoutRead(s.timeout)];
    var s2 := Next(s1, Processed(true, 0, rest)).value;
    RunsStep(s2, LoopGoesOn, []);
    RunsStep(s1, Processed(true, 0, rest), [LoopGoesOn]);
    RunsStep(s, ReadTimeout(0), [Processed(true, 0, rest), LoopGoesOn]);
  }

  lemma CallsInVain(s: State, newer: int)
    requires |s.callers| == 1 && s.callers[0].TimeoutRead? && s.callers[0].before <= newer
    ensures Runs(s, Calling(newer)) == Some(s.(queued := 0, timeout := newer, callers := [Resting]))
  {
    var s1 := Next(s, CallAsync(0, 0, newer)).value;
    var s2 := Next(s1, CallerGoesOn(0)).value;
    assert s2.callers[0] == CheckQueues && s2.callers[0 := Resting] == [Resting];
    RunsStep(s2, CallerGoesOn(0), []);
    RunsStep(s1, CallerGoesOn(0), [CallerGoesOn(0)]);
    RunsStep(s, CallAsync(0, 0, newer), [CallerGoesOn(0), CallerGoesOn(0)]);
  }
}
