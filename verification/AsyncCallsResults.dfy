/** What holds in every interleaving of the asynchronous-call protocol: the call info outlives its
    reply handler, the container stays clean, nothing leaks and nothing deadlocks. */
module AsyncCallsResults {
  import opened Options
  import opened AsyncCalls
  import opened AsyncCallsInvariant

  datatype Turn = Turn(thread: nat, act: Act)

  function Initially(n: nat): State {
    State([], [], None, NoReply, seq(n, _ => Idle))
  }

  /** The state at the end of a run, if every turn is polite and possible. */
  function Runs(s: State, turns: seq<Turn>): Option<State>
    decreases |turns|
  {
    if turns == [] then Some(s)
    else if !(WfState(s) && turns[0].thread < |s.threads| && Polite(s, turns[0].thread, turns[0].act)) then None
    else match Step(s, turns[0].thread, turns[0].act) case Some(s') => Runs(s', turns[1..]) case None => None
  }

  predicate IsRun(s: State, turns: seq<Turn>, s': State) {
    Runs(s, turns) == Some(s')
  }

  lemma {:induction false} RunKeeps(s: State, turns: seq<Turn>, s': State)
    requires Inv(s) && IsRun(s, turns, s')
    ensures Inv(s')
    decreases |turns|
  {
    if turns != [] {
      StepKeeps(s, turns[0].thread, turns[0].act);
      hide Step, Inv;
      RunKeeps(Step(s, turns[0].thread, turns[0].act).value, turns[1..], s');
    }
  }

  lemma ReachableInv(n: nat, turns: seq<Turn>, s: State)
    requires n > 0 && IsRun(Initially(n), turns, s)
    ensures Inv(s)
  {
    RunKeeps(Initially(n), turns, s);
  }

  /** In every interleaving the call info is intact for as long as its callback runs, and until the
      reply handler has made its last access to it. */
  lemma NeverFreedInHandler(n: nat, turns: seq<Turn>, s: State, c: nat)
    requires n > 0 && IsRun(Initially(n), turns, s) && c < |s.calls|
    ensures WfState(s)
    ensures InHandler(s, c) ==> !s.calls[c].phase.Freed?
    ensures InHandler(s, c) ==>
              forall t | 0 <= t < |s.threads| && Destroys(s.threads[t], c) :: !s.threads[t].unreferenced
  {
    ReachableInv(n, turns, s);
    assert CallInv(s, c);
    forall t | 0 <= t < |s.threads| && InHandler(s, c) && Destroys(s.threads[t], c)
      ensures !s.threads[t].unreferenced
    {
      assert ThreadInv(s, t);
    }
  }

  /** What a step leaves of a call that its thread neither holds nor destroys. */
  predicate Untouched(s: State, s': State, c: nat)
    requires c < |s.calls|
  {
    c < |s'.calls| && s'.calls[c].phase == s.calls[c].phase && s'.calls[c].started == s.calls[c].started
  }

  lemma DropTouches(s: State, t: nat, d: nat, next: Pc, c: nat)
    requires t < |s.threads| && d < |s.calls| && c < |s.calls| && c != d
    ensures Untouched(s, Drop(s, t, d, next), c)
  {
    hide Held;
  }

  lemma AdvanceTouches(s: State, t: nat, c: nat)
    requires WfState(s) && t < |s.threads| && Continue(s, t).Some? && c < |s.calls|
    requires !Holds(s.threads[t], c) && !Destroys(s.threads[t], c)
    ensures Untouched(s, Continue(s, t).value, c)
  {
    var pc := s.threads[t];
    hide Held, Without;
    if pc.Pushed? {
      if !pc.stored { DropTouches(s.(owner := None), t, pc.c, Idle, c); }
    } else if pc.Cancelled? || pc.EraseUnlocked? {
      if Holds(pc, pc.c) { DropTouches(s, t, pc.c, Idle, c); }
    } else if pc.Releasing? && pc.todo != [] {
      DropTouches(s, t, pc.todo[0], Releasing(pc.todo[1..]), c);
    }
    hide Drop;
  }

  lemma ActTouches(s: State, t: nat, a: Act, c: nat)
    requires WfState(s) && t < |s.threads| && Step(s, t, a).Some? && !a.Advance? && c < |s.calls|
    requires !Holds(s.threads[t], c) && !s.calls[c].owned && !s.calls[c].registered
    ensures Untouched(s, Step(s, t, a).value, c)
  {
    hide Held, Without, Continue;
    if a.SendFails? {
      DropTouches(s, t, s.threads[t].c, Idle, c);
    } else if a.Release? {
      DropTouches(Set(s, a.c, s.calls[a.c].(owned := false)), t, a.c, Idle, c);
    }
    hide Drop, Holds;
  }

  /** What a step may do to a call that is freed. */
  lemma FreedStays(s: State, t: nat, a: Act, c: nat)
    requires Inv(s) && t < |s.threads| && Step(s, t, a).Some? && c < |s.calls| && s.calls[c].phase.Freed?
    ensures Untouched(s, Step(s, t, a).value, c)
  {
    InvAt(s, t, c);
    assert !Held(s, c) && !Holds(s.threads[t], c);
    hide Inv, Step, Continue, WfState, LoopInv, Distinct, Held, Holds;
    if a.Advance? {
      AdvanceTouches(s, t, c);
      assert Step(s, t, a) == Continue(s, t) by { AdvanceIsContinue(s, t); }
    } else {
      ActTouches(s, t, a, c);
    }
  }

  lemma AdvanceIsContinue(s: State, t: nat)
    requires WfState(s) && t < |s.threads|
    ensures Step(s, t, Advance) == Continue(s, t)
  {
    hide Continue;
  }

  lemma {:induction false} FreedForever(s: State, turns: seq<Turn>, s': State, c: nat)
    requires Inv(s) && IsRun(s, turns, s') && c < |s.calls| && s.calls[c].phase.Freed?
    ensures Inv(s') && c < |s'.calls| && s'.calls[c].phase.Freed? && s'.calls[c].started == s.calls[c].started
    decreases |turns|
  {
    if turns != [] {
      hide Step, Inv;
      StepKeeps(s, turns[0].thread, turns[0].act);
      FreedStays(s, turns[0].thread, turns[0].act, c);
      FreedForever(Step(s, turns[0].thread, turns[0].act).value, turns[1..], s', c);
    }
  }

  /** Once it is freed, a call's callback never starts, whatever happens later. */
  lemma FreedNeverStarts(n: nat, turns: seq<Turn>, s: State, later: seq<Turn>, s': State, c: nat)
    requires n > 0 && IsRun(Initially(n), turns, s) && IsRun(s, later, s')
    requires c < |s.calls| && s.calls[c].phase.Freed?
    ensures s'.dispatch != Callback(c) && c < |s'.calls| && s'.calls[c].started == s.calls[c].started
  {
    ReachableInv(n, turns, s);
    FreedForever(s, later, s', c);
    assert CallInv(s', c);
  }

  /** Whenever the container mutex is free, no stored call is finished, freed or stored twice. */
  lemma ContainerInvariant(n: nat, turns: seq<Turn>, s: State)
    requires n > 0 && IsRun(Initially(n), turns, s) && s.owner.None?
    ensures Distinct(s.slots)
    ensures forall c | c in s.slots :: c < |s.calls| && !s.calls[c].finished && s.calls[c].phase.Alive?
  {
    ReachableInv(n, turns, s);
    forall c | c in s.slots ensures c < |s.calls| && !s.calls[c].finished && s.calls[c].phase.Alive? {
      assert CallInv(s, c);
    }
  }

  /** Still inside callMethodAsync with the call. */
  predicate Making(pc: Pc, c: nat) {
    Creates(pc, c) || (pc.Pushed? && pc.c == c)
  }

  /** A cancel or a clear on its way out. */
  predicate InFlight(pc: Pc, c: nat) {
    Holds(pc, c) && !Making(pc, c)
  }

  /** After the handler has finished and callMethodAsync has returned, in either order, the only
      strong references left are those of a cancel or a clear still in flight. If the container still
      has the call, that is because a cancel is about to take it out under the container mutex. */
  lemma NoReferenceLeft(n: nat, turns: seq<Turn>, s: State, c: nat)
    requires n > 0 && IsRun(Initially(n), turns, s) && c < |s.calls|
    requires s.calls[c].started && !s.calls[c].owned && s.dispatch != Callback(c) && s.dispatch != Exit(c)
    requires forall t | 0 <= t < |s.threads| :: !Making(s.threads[t], c)
    ensures Held(s, c) ==> exists t :: 0 <= t < |s.threads| && InFlight(s.threads[t], c)
    ensures c in s.slots ==>
              s.owner.Some? && s.owner.value < |s.threads| && s.threads[s.owner.value] == EraseMarked(c, true)
  {
    ReachableInv(n, turns, s);
    assert CallInv(s, c);
    if c in s.slots {
      assert ThreadInv(s, s.owner.value);
      assert InFlight(s.threads[s.owner.value], c);
    } else if t :| 0 <= t < |s.threads| && Holds(s.threads[t], c) {
      assert InFlight(s.threads[t], c);
    }
  }

  predicate Quiet(s: State) {
    s.dispatch.NoReply? && forall t | 0 <= t < |s.threads| :: s.threads[t].Idle?
  }

  /** When every thread is done, a call is pending if it is stored or the user's and its reply is
      still to come, and everything else has been freed: nothing leaks. */
  lemma NothingLeaks(n: nat, turns: seq<Turn>, s: State, c: nat)
    requires n > 0 && IsRun(Initially(n), turns, s) && Quiet(s) && c < |s.calls|
    ensures if Held(s, c) then
              && s.calls[c].phase.Alive?
              && (s.calls[c].owned || (c in s.slots && !s.calls[c].finished && !s.calls[c].started))
            else s.calls[c].phase.Freed?
  {
    ReachableInv(n, turns, s);
    assert CallInv(s, c);
    assert s.owner.Some? ==> ThreadInv(s, s.owner.value);
  }

  /** A call that has left the container for good: nobody is still making it. */
  predicate Gone(s: State, c: nat) {
    && c < |s.calls| && c !in s.slots && !s.calls[c].forUser
    && forall u | 0 <= u < |s.threads| :: !Making(s.threads[u], c)
  }

  /** A step of thread `t` brings `c` back neither to the container nor to the thread that made it. */
  predicate StaysGone(s: State, s': State, t: nat, c: nat)
    requires t < |s.threads| && c < |s.calls|
  {
    && c < |s'.calls| && c !in s'.slots && s'.calls[c].forUser == s.calls[c].forUser
    && |s'.threads| == |s.threads| && s'.threads == s.threads[t := s'.threads[t]] && !Making(s'.threads[t], c)
  }

  lemma DropStaysGone(s: State, t: nat, d: nat, next: Pc, c: nat)
    requires t < |s.threads| && d < |s.calls| && c < |s.calls| && c !in s.slots && !Making(next, c)
    ensures StaysGone(s, Drop(s, t, d, next), t, c)
  {
    hide Held;
  }

  lemma ActStaysGone(s: State, t: nat, a: Act, c: nat)
    requires WfState(s) && t < |s.threads| && Step(s, t, a).Some? && !a.Advance?
    requires c < |s.calls| && c !in s.slots && !Making(s.threads[t], c)
    ensures StaysGone(s, Step(s, t, a).value, t, c)
  {
    hide Held, Without, Continue;
    if a.SendFails? {
      DropStaysGone(s, t, s.threads[t].c, Idle, c);
    } else if a.Release? {
      DropStaysGone(Set(s, a.c, s.calls[a.c].(owned := false)), t, a.c, Idle, c);
    }
    hide Drop;
  }

  lemma DroppingStaysGone(s: State, t: nat, c: nat)
    requires WfState(s) && t < |s.threads| && Continue(s, t).Some?
    requires var pc := s.threads[t]; pc.Pushed? || pc.EraseUnlocked? || pc.Cancelled? || pc.Releasing?
    requires c < |s.calls| && c !in s.slots && !Making(s.threads[t], c)
    ensures StaysGone(s, Continue(s, t).value, t, c)
  {
    var pc := s.threads[t];
    hide Known, Held, Without, Drop;
    if pc.Releasing? {
      if pc.todo != [] { DropStaysGone(s, t, pc.todo[0], Releasing(pc.todo[1..]), c); }
    } else {
      DropStaysGone(s.(owner := None), t, pc.c, Idle, c);
      DropStaysGone(s, t, pc.c, Idle, c);
    }
  }

  lemma MovingStaysGone(s: State, t: nat, c: nat)
    requires WfState(s) && t < |s.threads| && Continue(s, t).Some?
    requires var pc := s.threads[t];
             pc.Idle? || pc.Sending? || pc.Sent? || pc.Pushing? || pc.PushLocked? || pc.Clearing? || pc.ClearLocked?
             || pc.ClearMoved?
    requires c < |s.calls| && c !in s.slots && !Making(s.threads[t], c)
    ensures StaysGone(s, Continue(s, t).value, t, c)
  {
    hide Held, Without, Drop;
    var s' := Continue(s, t).value;
    assert s'.threads == s.threads[t := s'.threads[t]];
  }

  lemma EndingStaysGone(s: State, t: nat, c: nat)
    requires WfState(s) && t < |s.threads| && Continue(s, t).Some?
    requires var pc := s.threads[t];
             pc.Erasing? || pc.EraseLocked? || pc.EraseMarked? || pc.EraseDone? || pc.Destroying?
    requires c < |s.calls| && c !in s.slots
    requires s.threads[t].EraseMarked? ==> c !in Without(s.slots, s.threads[t].c)
    ensures StaysGone(s, Continue(s, t).value, t, c)
  {
    NextIsSimple(s, t);
    hide Known, Held, Without, Drop;
  }

  lemma GoneStays(s: State, t: nat, a: Act, c: nat)
    requires Inv(s) && t < |s.threads| && Step(s, t, a).Some? && Gone(s, c)
    ensures Gone(Step(s, t, a).value, c)
  {
    var pc := s.threads[t];
    hide Inv, WfState, Distinct, LoopInv, ThreadInv, CallInv, Continue, Step, Making, Without;
    InvHere(s, t);
    AdvanceIsContinue(s, t);
    if !a.Advance? {
      ActStaysGone(s, t, a, c);
    } else if pc.Pushed? || pc.EraseUnlocked? || pc.Cancelled? || pc.Releasing? {
      DroppingStaysGone(s, t, c);
    } else if pc.Erasing? || pc.EraseLocked? || pc.EraseMarked? || pc.EraseDone? || pc.Destroying? {
      if pc.EraseMarked? { WithoutKeeps(s.slots, pc.c); }
      EndingStaysGone(s, t, c);
    } else {
      MovingStaysGone(s, t, c);
    }
    var s' := Step(s, t, a).value;
    forall u | 0 <= u < |s'.threads| ensures !Making(s'.threads[u], c) {
      assert u != t ==> s'.threads[u] == s.threads[u];
    }
  }

  lemma NextIsSimple(s: State, t: nat)
    requires WfState(s) && t < |s.threads|
    ensures s.threads[t].Destroying? ==> s.threads[t].next.Idle? || s.threads[t].next.Releasing?
  {
    assert Known(s.threads[t], |s.calls|);
  }

  lemma {:induction false} GoneForever(s: State, turns: seq<Turn>, s': State, c: nat)
    requires Inv(s) && IsRun(s, turns, s') && Gone(s, c)
    ensures Inv(s') && Gone(s', c)
    decreases |turns|
  {
    if turns != [] {
      StepKeeps(s, turns[0].thread, turns[0].act);
      GoneStays(s, turns[0].thread, turns[0].act, c);
      hide Step, Inv, Gone;
      GoneForever(Step(s, turns[0].thread, turns[0].act).value, turns[1..], s', c);
    }
  }

  /** What unregister guarantees when it returns, for every call it took out of the container: the
      call is freed, so that its callback neither runs nor ever starts, or a cancel or clear of
      another thread is on its way with it. */
  lemma UnregisterSynchronizes(n: nat, turns: seq<Turn>, s: State, t: nat, later: seq<Turn>, s': State, c: nat)
    requires n > 0 && IsRun(Initially(n), turns, s) && t < |s.threads|
    requires s.threads[t].ClearLocked? && c in s.slots && WfState(s)
    requires IsRun(Continue(s, t).value, later, s') && t < |s'.threads| && s'.threads[t].Idle?
    ensures c < |s'.calls|
    ensures || (s'.calls[c].phase.Freed? && s'.dispatch != Callback(c))
            || exists u :: 0 <= u < |s'.threads| && u != t && (InFlight(s'.threads[u], c) || Destroys(s'.threads[u], c))
  {
    ReachableInv(n, turns, s);
    ContinueKeeps(s, t);
    assert CallInv(s, c);
    assert ThreadInv(s, t);
    forall u | 0 <= u < |s.threads| ensures !Making(s.threads[u], c) {
      assert ThreadInv(s, u);
    }
    GoneForever(Continue(s, t).value, later, s', c);
    assert CallInv(s', c);
    if u :| 0 <= u < |s'.threads| && Holds(s'.threads[u], c) {
      assert InFlight(s'.threads[u], c);
    }
  }

  /** A reply is dispatched at most once. */
  lemma StartedOnce(n: nat, turns: seq<Turn>, s: State, t: nat, c: nat)
    requires n > 0 && IsRun(Initially(n), turns, s) && t < |s.threads| && c < |s.calls| && s.calls[c].started
    ensures WfState(s) && Step(s, t, Reply(c)).None?
  {
    ReachableInv(n, turns, s);
    assert CallInv(s, c);
  }

  // ---------------------------------------------------------------------------------------
  // Progress

  predicate IsWork(a: Act) {
    a.Advance? || a.Return?
  }

  /** Deadlock freedom: as long as some thread has work left, some thread can go on with its own.
      The only thread that waits for the sd-bus mutex while the event loop dispatches is outside
      the critical section of the container, which the reply handler needs next. */
  lemma SomeThreadCanStep(n: nat, turns: seq<Turn>, s: State)
    requires n > 0 && IsRun(Initially(n), turns, s) && !Quiet(s)
    ensures WfState(s)
    ensures exists t, a :: 0 <= t < |s.threads| && IsWork(a) && Step(s, t, a).Some?
  {
    ReachableInv(n, turns, s);
    CanStep(s);
  }

  lemma CanStep(s: State)
    requires Inv(s) && !Quiet(s)
    ensures exists t, a :: 0 <= t < |s.threads| && IsWork(a) && Step(s, t, a).Some?
  {
    if s.owner.Some? {
      var t := s.owner.value;
      assert ThreadInv(s, t);
      assert Step(s, t, Advance).Some?;
    } else if !s.dispatch.NoReply? {
      assert ThreadInv(s, 0);
      assert Step(s, 0, if s.threads[0].Idle? && s.dispatch.Callback? then Return else Advance).Some?;
    } else {
      var t :| 0 <= t < |s.threads| && !s.threads[t].Idle?;
      assert ThreadInv(s, t);
      assert Step(s, t, Advance).Some?;
    }
  }

  /** An upper bound for the steps a thread has left. */
  function Rank(pc: Pc): nat {
    match pc
    case Idle => 0
    case Destroying(_, unreferenced, next) => Rank(next) + if unreferenced then 1 else 2
    case Cancelled(_) => 3
    case EraseUnlocked(_, _, _) => 4
    case EraseDone(_, _, _) => 5
    case EraseMarked(_, _) => 6
    case EraseLocked(_, _) => 7
    case Erasing(_, _) => 8
    case Pushed(_, _) => 3
    case PushLocked(_) => 8
    case Pushing(_) => 9
    case Sent(_) => 10
    case Sending(_) => 11
    case Releasing(todo) => 1 + 3 * |todo|
    case ClearMoved(todo) => 2 + 3 * |todo|
    case ClearLocked => 3
    case Clearing => 4
  }

  function Ranks(pcs: seq<Pc>): nat {
    if pcs == [] then 0 else Rank(pcs[0]) + Ranks(pcs[1..])
  }

  /** An upper bound for the steps left when nothing new is started. */
  function WorkLeft(s: State): nat {
    Ranks(s.threads) + Remaining(s, Idle)
  }

  lemma {:induction false} RanksAfter(pcs: seq<Pc>, t: nat, pc: Pc)
    requires t < |pcs|
    ensures Ranks(pcs[t := pc]) + Rank(pcs[t]) == Ranks(pcs) + Rank(pc)
  {
    hide Rank;
    if t == 0 {
      assert pcs[0 := pc][1..] == pcs[1..];
    } else {
      RanksAfter(pcs[1..], t - 1, pc);
      assert pcs[t := pc][1..] == pcs[1..][t - 1 := pc];
    }
  }

  lemma {:induction false} WithoutShorter<T>(slots: seq<T>, c: T)
    ensures |Without(slots, c)| == |slots| - if c in slots then 1 else 0
  {
    if slots != [] && slots[0] != c {
      WithoutShorter(slots[1..], c);
    }
  }

  lemma DropShrinks(s: State, t: nat, c: nat, next: Pc)
    requires t < |s.threads| && c < |s.calls|
    ensures var s' := Drop(s, t, c, next);
            && s'.slots == s.slots && s'.dispatch == s.dispatch
            && |s'.threads| == |s.threads| && s'.threads == s.threads[t := s'.threads[t]]
            && Rank(s'.threads[t]) <= Rank(next) + 2
  {
    hide Held;
  }

  function Remaining(s: State, pc: Pc): nat {
    Rank(pc) + 4 * |s.slots| + match s.dispatch case NoReply => 0 case Exit(_) => 1 case Callback(_) => 10
  }

  predicate LessWork(s: State, t: nat, s': State)
    requires t < |s.threads|
  {
    && |s'.threads| == |s.threads| && s'.threads == s.threads[t := s'.threads[t]]
    && Remaining(s', s'.threads[t]) < Remaining(s, s.threads[t])
  }

  lemma DropsAreWork(s: State, t: nat)
    requires WfState(s) && t < |s.threads| && Continue(s, t).Some?
    requires var pc := s.threads[t]; pc.Pushed? || pc.EraseUnlocked? || pc.Cancelled? || pc.Releasing?
    ensures LessWork(s, t, Continue(s, t).value)
  {
    var pc := s.threads[t];
    hide Drop, Known;
    if pc.Pushed? {
      DropShrinks(s.(owner := None), t, pc.c, Idle);
    } else if !pc.Releasing? {
      DropShrinks(s, t, pc.c, Idle);
    } else if pc.todo != [] {
      DropShrinks(s, t, pc.todo[0], Releasing(pc.todo[1..]));
    }
  }

  lemma EraseIsWork(s: State, t: nat)
    requires WfState(s) && t < |s.threads| && Continue(s, t).Some?
    requires var pc := s.threads[t]; pc.Erasing? || pc.EraseLocked? || pc.EraseMarked? || pc.EraseDone?
    ensures LessWork(s, t, Continue(s, t).value)
  {
    if s.threads[t].EraseMarked? { WithoutShorter(s.slots, s.threads[t].c); }
    hide Without, Known;
  }

  lemma MakingIsWork(s: State, t: nat)
    requires WfState(s) && t < |s.threads| && Continue(s, t).Some?
    requires var pc := s.threads[t]; pc.Sending? || pc.Sent? || pc.Pushing? || pc.PushLocked?
    ensures LessWork(s, t, Continue(s, t).value)
  {
    hide Without, Known, Held, Drop;
  }

  lemma ClearIsWork(s: State, t: nat)
    requires WfState(s) && t < |s.threads| && Continue(s, t).Some?
    requires var pc := s.threads[t];
             pc.Idle? || pc.Clearing? || pc.ClearLocked? || pc.ClearMoved? || pc.Destroying?
    ensures LessWork(s, t, Continue(s, t).value)
  {
    hide Without, Known, Held, Drop;
  }

  lemma WorkByThread(s: State, t: nat, a: Act)
    requires WfState(s) && t < |s.threads| && IsWork(a) && Step(s, t, a).Some?
    ensures LessWork(s, t, Step(s, t, a).value)
  {
    var pc := s.threads[t];
    if a.Return? {
    } else if pc.Pushed? || pc.EraseUnlocked? || pc.Cancelled? || pc.Releasing? {
      DropsAreWork(s, t);
    } else if pc.Erasing? || pc.EraseLocked? || pc.EraseMarked? || pc.EraseDone? {
      EraseIsWork(s, t);
    } else if pc.Sending? || pc.Sent? || pc.Pushing? || pc.PushLocked? {
      MakingIsWork(s, t);
    } else {
      ClearIsWork(s, t);
    }
    hide Continue, Known;
  }

  /** Work only ever takes steps off the bound, so every operation that has been started ends. */
  lemma WorkShrinks(s: State, t: nat, a: Act)
    requires WfState(s) && t < |s.threads| && IsWork(a) && Step(s, t, a).Some?
    ensures WorkLeft(Step(s, t, a).value) < WorkLeft(s)
  {
    WorkByThread(s, t, a);
    hide Step, Ranks, Rank;
    RanksAfter(s.threads, t, Step(s, t, a).value.threads[t]);
  }

  /** From every reachable state the threads can finish what they have begun, and then nothing has
      leaked and nothing is left to wait for. */
  lemma {:induction false} Finish(s: State) returns (turns: seq<Turn>, s': State)
    requires Inv(s)
    ensures IsRun(s, turns, s') && Inv(s') && Quiet(s')
    decreases WorkLeft(s)
  {
    if Quiet(s) {
      return [], s;
    }
    CanStep(s);
    var t: nat, a :| t < |s.threads| && IsWork(a) && Step(s, t, a).Some?;
    WorkShrinks(s, t, a);
    StepKeeps(s, t, a);
    hide Inv, Step, WorkLeft;
    var rest;
    rest, s' := Finish(Step(s, t, a).value);
    turns := [Turn(t, a)] + rest;
    assert turns[1..] == rest;
  }

  lemma {:induction false} RunsOn(s: State, turns: seq<Turn>, more: seq<Turn>)
    requires Runs(s, turns).Some?
    ensures Runs(s, turns + more) == Runs(Runs(s, turns).value, more)
    decreases |turns|
  {
    if turns == [] {
      assert turns + more == more;
    } else {
      assert (turns + more)[1..] == turns[1..] + more;
      hide Step;
      RunsOn(Step(s, turns[0].thread, turns[0].act).value, turns[1..], more);
    }
  }
}
