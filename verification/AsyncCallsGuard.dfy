/** The guard `AsyncCalls.Polite` is exact: from a state in which the callback of a call has control,
    the call can be freed under it if and only if it is alive and no other thread is caught in the
    middle of a clear with it; and every run that does so takes an act the guard forbids. */
module AsyncCallsGuard {
  import opened Options
  import opened AsyncCalls
  import opened AsyncCallsInvariant
  import opened AsyncCallsResults
  import opened AsyncCallsOwnCallback

  /** The thread waits for the sd-bus mutex to release another call and will then let go of `c`. */
  predicate Caught(pc: Pc, c: nat) {
    pc.Destroying? && !pc.unreferenced && pc.next.Releasing? && c in pc.next.todo
  }

  predicate SomeoneCaught(s: State, c: nat) {
    exists t | 0 <= t < |s.threads| :: Caught(s.threads[t], c)
  }

  /** The callback of `c` has control. */
  ghost predicate InCallback(s: State, c: nat) {
    Inv(s) && s.dispatch == Callback(c) && s.threads[0].Idle?
  }

  // ---------------------------------------------------------------------------------------
  // Polite runs are safe

  lemma {:induction false} CallbackStays(s: State, turns: seq<Turn>, c: nat)
    requires s.dispatch == Callback(c) && NoReturn(turns) && AnyRuns(s, turns).Some?
    ensures AnyRuns(s, turns).value.dispatch == Callback(c)
    decreases |turns|
  {
    if turns != [] {
      CallbackStaysByStep(s, turns[0].thread, turns[0].act, c);
      hide Step;
      CallbackStays(Step(s, turns[0].thread, turns[0].act).value, turns[1..], c);
    }
  }

  lemma CallbackStaysByStep(s: State, t: nat, a: Act, c: nat)
    requires WfState(s) && t < |s.threads| && s.dispatch == Callback(c) && !a.Return? && Step(s, t, a).Some?
    ensures Step(s, t, a).value.dispatch == Callback(c)
  {
    hide Held, Known;
  }

  lemma {:induction false} PoliteRunsAreRuns(s: State, turns: seq<Turn>)
    requires Runs(s, turns).Some?
    ensures AnyRuns(s, turns) == Runs(s, turns)
    decreases |turns|
  {
    if turns != [] {
      hide Step;
      PoliteRunsAreRuns(Step(s, turns[0].thread, turns[0].act).value, turns[1..]);
    }
  }

  /** A polite run never frees the call under its callback. */
  lemma PoliteNeverFrees(s: State, turns: seq<Turn>, c: nat)
    requires Inv(s) && Runs(s, turns).Some?
    ensures !FreesDuring(s, turns, c)
  {
    var s' := Runs(s, turns).value;
    PoliteRunsAreRuns(s, turns);
    RunKeeps(s, turns, s');
    assert c < |s'.calls| ==> CallInv(s', c);
  }

  // ---------------------------------------------------------------------------------------
  // Where even an impolite callback does no harm

  /** Another thread has dropped the last reference and waits for the sd-bus mutex. */
  predicate DyingElsewhere(s: State, c: nat, t: nat) {
    && c < |s.calls| && 0 < t < |s.threads| && s.dispatch == Callback(c)
    && s.threads[t].Destroying? && s.threads[t].c == c && !s.threads[t].unreferenced
    && (forall u | 0 <= u < |s.threads| :: (u != t ==> !Destroys(s.threads[u], c)) && !Holds(s.threads[u], c))
    && c !in s.slots && !s.calls[c].owned && !s.calls[c].phase.Freed?
  }

  /** Another thread is caught with the call. */
  predicate KeptElsewhere(s: State, c: nat, t: nat) {
    && c < |s.calls| && 0 < t < |s.threads| && s.dispatch == Callback(c)
    && Caught(s.threads[t], c) && s.calls[c].phase.Alive?
    && forall u | 0 <= u < |s.threads| :: !Destroys(s.threads[u], c)
  }

  /** A step of thread `u` gives nobody a hold on `c` that nobody had, does not begin to destroy it,
      and changes its phase only in the course of its destruction. */
  predicate Spares(s: State, s': State, u: nat, c: nat)
    requires u < |s.threads| && c < |s.calls|
  {
    && c < |s'.calls| && |s'.threads| == |s.threads| && s'.threads == s.threads[u := s'.threads[u]]
    && (s.dispatch.Callback? ==> s'.dispatch == s.dispatch)
    && (Holds(s'.threads[u], c) || c in s'.slots || s'.calls[c].owned ==> Held(s, c))
    && (Destroys(s'.threads[u], c) ==> Destroys(s.threads[u], c))
    && (s'.calls[c].phase == s.calls[c].phase || Destroys(s.threads[u], c))
  }

  /** Dropping a reference to `c` itself is not dropping the last one. */
  predicate Spared(threads: seq<Pc>, u: nat, d: nat, c: nat) {
    d != c || OtherHolds(threads, u, c)
  }

  lemma HeldIf(s: State, u: nat, c: nat)
    requires u < |s.threads| && c < |s.calls|
    ensures Holds(s.threads[u], c) || c in s.slots || s.calls[c].owned ==> Held(s, c)
  {
    hide Holds;
  }

  lemma DropSpares(s: State, u: nat, d: nat, next: Pc, c: nat)
    requires u < |s.threads| && d < |s.calls| && c < |s.calls| && Spared(s.threads, u, d, c)
    requires (next.Idle? || next.Releasing?) && (Holds(next, c) ==> Holds(s.threads[u], c))
    ensures Spares(s, Drop(s, u, d, next), u, c)
  {
    HeldIf(s, u, c);
    HeldAfter(s.threads, u, next, c);
    assert d == c ==> Held(Move(s, u, next), c);
    hide Held;
  }

  predicate Drops(pc: Pc) {
    || (pc.Pushed? && !pc.stored) || (pc.EraseUnlocked? && pc.moved && !pc.mine)
    || pc.Cancelled? || (pc.Releasing? && pc.todo != [])
  }

  /** What the thread drops. */
  function Dropped(pc: Pc): nat
    requires Drops(pc)
  {
    if pc.Releasing? then pc.todo[0] else pc.c
  }

  lemma DroppingSpares(s: State, u: nat, c: nat)
    requires WfState(s) && u < |s.threads| && c < |s.calls| && Continue(s, u).Some? && Drops(s.threads[u])
    requires Spared(s.threads, u, Dropped(s.threads[u]), c)
    ensures Spares(s, Continue(s, u).value, u, c)
  {
    var pc := s.threads[u];
    var s0 := if pc.Pushed? then s.(owner := None) else s;
    var next := if pc.Releasing? then Releasing(pc.todo[1..]) else Idle;
    assert Continue(s, u).value == Drop(s0, u, Dropped(pc), next);
    assert Known(pc, |s.calls|);
    hide Continue, Drop, Held, Known;
    DropSpares(s0, u, Dropped(pc), next, c);
    SameHeld(s, s0, c);
  }

  lemma SameHeld(s: State, s0: State, c: nat)
    requires s0 == s.(owner := s0.owner) && c < |s.calls|
    ensures Held(s0, c) == Held(s, c)
  {
  }

  lemma {:induction false} OthersStay<T>(slots: seq<T>, d: T, c: T)
    ensures c in Without(slots, d) ==> c in slots
    ensures c in slots && c != d ==> c in Without(slots, d)
  {
    if slots != [] && slots[0] != d { OthersStay(slots[1..], d, c); }
  }

  /** The steps of a call on its way in, and of a clear. */
  lemma MovingSpares(s: State, u: nat, c: nat)
    requires WfState(s) && u < |s.threads| && c < |s.calls| && Continue(s, u).Some? && !Drops(s.threads[u])
    requires !IsErase(s.threads[u]) && !s.threads[u].Destroying?
    ensures Spares(s, Continue(s, u).value, u, c)
  {
    HeldIf(s, u, c);
    hide Held, Known, Drop, Without;
  }

  lemma ErasingSpares(s: State, u: nat, c: nat)
    requires WfState(s) && u < |s.threads| && c < |s.calls| && Continue(s, u).Some? && !Drops(s.threads[u])
    requires IsErase(s.threads[u])
    ensures Spares(s, Continue(s, u).value, u, c)
  {
    HeldIf(s, u, c);
    OthersStay(s.slots, s.threads[u].c, c);
    hide Held, Known, Drop, Without;
  }

  lemma DestroyingSpares(s: State, u: nat, c: nat)
    requires WfState(s) && u < |s.threads| && c < |s.calls| && Continue(s, u).Some? && s.threads[u].Destroying?
    ensures Spares(s, Continue(s, u).value, u, c)
  {
    HeldIf(s, u, c);
    NextIsSimple(s, u);
    hide Held, Known, Drop, Without;
  }

  /** The steps that begin something. */
  lemma ActSpares(s: State, u: nat, a: Act, c: nat)
    requires WfState(s) && u < |s.threads| && c < |s.calls| && s.dispatch.Callback? && Step(s, u, a).Some?
    requires !a.Advance? && !a.Return? && !a.SendFails? && !a.Release?
    ensures Spares(s, Step(s, u, a).value, u, c)
  {
    HeldIf(s, u, c);
    hide Held, Known, Drop, Without, Continue;
  }

  lemma ReleaseSpares(s: State, u: nat, d: nat, c: nat)
    requires WfState(s) && u < |s.threads| && c < |s.calls| && Step(s, u, Release(d)).Some?
    requires Spared(s.threads, u, d, c)
    ensures Spares(s, Step(s, u, Release(d)).value, u, c)
  {
    var s0 := Set(s, d, s.calls[d].(owned := false));
    HeldIf(s, u, c);
    assert Held(s0, c) ==> Held(s, c);
    assert Step(s, u, Release(d)).value == Drop(s0, u, d, Idle);
    hide Step, Drop, Held;
    DropSpares(s0, u, d, Idle, c);
  }

  /** A step of a thread that neither holds the last reference to `c` nor destroys it. */
  lemma StepSpares(s: State, u: nat, a: Act, c: nat)
    requires WfState(s) && u < |s.threads| && c < |s.calls| && s.dispatch.Callback?
    requires !a.Return? && Step(s, u, a).Some?
    requires (Holds(s.threads[u], c) || s.calls[c].owned) ==> OtherHolds(s.threads, u, c)
    ensures Spares(s, Step(s, u, a).value, u, c)
  {
    var pc := s.threads[u];
    hide Held, Known, Drop, Without, Spares, Continue, OtherHolds;
    if a.Release? {
      ReleaseSpares(s, u, a.c, c);
    } else if a.SendFails? {
      DropSpares(s, u, pc.c, Idle, c);
    } else if !a.Advance? {
      ActSpares(s, u, a, c);
    } else if Drops(pc) {
      DroppingSpares(s, u, c);
    } else if IsErase(pc) {
      ErasingSpares(s, u, c);
    } else if pc.Destroying? {
      DestroyingSpares(s, u, c);
    } else {
      MovingSpares(s, u, c);
    }
  }

  /** The thread that waits for the sd-bus mutex cannot go on. */
  lemma Waits(s: State, t: nat, a: Act)
    requires WfState(s) && 0 < t < |s.threads| && s.dispatch.Callback? && !a.Return?
    requires s.threads[t].Destroying? && !s.threads[t].unreferenced
    ensures Step(s, t, a).None?
  {
  }

  lemma DyingStays(s: State, c: nat, t: nat, u: nat, a: Act)
    requires WfState(s) && u < |s.threads| && DyingElsewhere(s, c, t) && !a.Return? && Step(s, u, a).Some?
    ensures DyingElsewhere(Step(s, u, a).value, c, t)
  {
    var s' := Step(s, u, a).value;
    Waits(s, t, a);
    assert !Held(s, c);
    hide Step, Held, Holds;
    StepSpares(s, u, a, c);
    forall v | 0 <= v < |s'.threads|
      ensures (v != t ==> !Destroys(s'.threads[v], c)) && !Holds(s'.threads[v], c)
    {
      assert v != u ==> s'.threads[v] == s.threads[v];
    }
  }

  lemma KeptStays(s: State, c: nat, t: nat, u: nat, a: Act)
    requires WfState(s) && u < |s.threads| && KeptElsewhere(s, c, t) && !a.Return? && Step(s, u, a).Some?
    ensures KeptElsewhere(Step(s, u, a).value, c, t)
  {
    var s' := Step(s, u, a).value;
    Waits(s, t, a);
    assert Holds(s.threads[t], c);
    hide Step, Held, Holds;
    assert OtherHolds(s.threads, u, c);
    StepSpares(s, u, a, c);
    forall v | 0 <= v < |s'.threads| ensures !Destroys(s'.threads[v], c) {
      assert v != u ==> s'.threads[v] == s.threads[v];
    }
  }

  lemma {:induction false} DyingNeverFreed(s: State, c: nat, t: nat, turns: seq<Turn>)
    requires DyingElsewhere(s, c, t)
    ensures !FreesDuring(s, turns, c)
    decreases |turns|
  {
    if turns != [] && AnyRuns(s, turns).Some? && NoReturn(turns) {
      DyingStays(s, c, t, turns[0].thread, turns[0].act);
      hide Step, DyingElsewhere;
      DyingNeverFreed(Step(s, turns[0].thread, turns[0].act).value, c, t, turns[1..]);
    }
  }

  lemma {:induction false} KeptNeverFreed(s: State, c: nat, t: nat, turns: seq<Turn>)
    requires KeptElsewhere(s, c, t)
    ensures !FreesDuring(s, turns, c)
    decreases |turns|
  {
    if turns != [] && AnyRuns(s, turns).Some? && NoReturn(turns) {
      KeptStays(s, c, t, turns[0].thread, turns[0].act);
      hide Step, KeptElsewhere;
      KeptNeverFreed(Step(s, turns[0].thread, turns[0].act).value, c, t, turns[1..]);
    }
  }

  /** When the call is no longer alive, or another thread is caught with it, no run at all frees it
      under its callback. */
  lemma NoHarm(s: State, c: nat, turns: seq<Turn>)
    requires InCallback(s, c) && (!s.calls[c].phase.Alive? || SomeoneCaught(s, c))
    ensures !FreesDuring(s, turns, c)
  {
    assert CallInv(s, c);
    if s.calls[c].phase.Alive? {
      var t :| 0 <= t < |s.threads| && Caught(s.threads[t], c);
      forall u | 0 <= u < |s.threads| ensures !Destroys(s.threads[u], c) {
        assert ThreadInv(s, u);
      }
      KeptNeverFreed(s, c, t, turns);
    } else {
      var t := s.calls[c].phase.destroyer;
      forall u | 0 <= u < |s.threads|
        ensures (u != t ==> !Destroys(s.threads[u], c)) && !Holds(s.threads[u], c)
      {
        assert ThreadInv(s, u);
      }
      assert ThreadInv(s, t);
      DyingNeverFreed(s, c, t, turns);
    }
  }

  // ---------------------------------------------------------------------------------------
  // Where an impolite callback does harm

  /** The callback has control, and the call is alive and not caught elsewhere. */
  ghost predicate InDanger(s: State, c: nat) {
    InCallback(s, c) && s.calls[c].phase.Alive? && !SomeoneCaught(s, c)
  }

  /** Another thread moves on with the call still alive and not caught. */
  lemma OtherMoves(s: State, c: nat, t: nat)
    requires InDanger(s, c) && 0 < t < |s.threads| && Continue(s, t).Some?
    requires Continue(s, t).value.calls[c].phase.Alive? && !Caught(Continue(s, t).value.threads[t], c)
    ensures InDanger(Continue(s, t).value, c) && WorkLeft(Continue(s, t).value) < WorkLeft(s)
  {
    var s' := Continue(s, t).value;
    ContinueKeeps(s, t);
    WorkShrinks(s, t, Advance);
    WorkByThread(s, t, Advance);
    assert s'.dispatch == s.dispatch by { CallbackStaysByStep(s, t, Advance, c); }
    hide Continue, WorkLeft, Inv, Caught, Remaining;
    forall u | 0 <= u < |s'.threads| ensures !Caught(s'.threads[u], c) {
      assert u != t ==> s'.threads[u] == s.threads[u] && !Caught(s.threads[u], c);
    }
  }

  /** The call is held by nothing but what thread `t` is going to drop with its next step. */
  predicate DropsLast(s: State, c: nat, t: nat)
    requires t < |s.threads| && c < |s.calls|
  {
    var pc := s.threads[t];
    || (pc == Pushed(c, false) && s.owner == Some(t) && !Held(Move(s, t, Idle), c))
    || (pc == Cancelled(c) && s.owner.None? && !Held(Move(s, t, Idle), c))
    || (pc.Releasing? && s.owner.None? && pc.todo != [] && pc.todo[0] == c
        && !Held(Move(s, t, Releasing(pc.todo[1..])), c))
  }

  function AfterDrop(pc: Pc): Pc {
    if pc.Releasing? && pc.todo != [] then Releasing(pc.todo[1..]) else Idle
  }

  /** Of the whole state, `d` alone has been freed, and thread `t` is at `next`. */
  ghost predicate FreedAlone(s: State, s': State, d: nat, t: nat, next: Pc)
    requires t < |s.threads|
  {
    && s'.threads == s.threads[t := next] && s'.slots == s.slots && s'.owner.None? && s'.dispatch == s.dispatch
    && |s'.calls| == |s.calls| && d < |s.calls| && s'.calls[d].phase.Freed?
    && (forall x | 0 <= x < |s.calls| && x != d :: s'.calls[x] == s.calls[x])
  }

  lemma CancelFreesAlone(s: State, d: nat, t: nat, next: Pc, s2: State)
    requires WfState(s2) && 0 < t < |s.threads| && s.threads[0].Idle? && s.dispatch.Callback? && d < |s.calls|
    requires s2 == Move(Move(s, 0, Erasing(d, true)).(owner := None), t, next)
    requires Distinct(s.slots) && d !in s.slots && !s.calls[d].owned && s.calls[d].slotSet
    requires !OtherHolds(s2.threads, 0, d)
    ensures Advances(s2, 8).Some? && FreedAlone(s, Advances(s2, 8).value, d, t, next)
  {
    WithoutNothing(s.slots, d);
    hide Advances, OtherHolds, Without, Distinct, WfState;
    CancelRuns(s2, d);
    assert s2.threads[0 := Idle] == s.threads[t := next];
  }

  /** The event loop cancels `d` first; then thread `t` drops it; then the event loop frees it. */
  lemma DropAndCancel(s: State, d: nat, t: nat)
    requires Inv(s) && s.dispatch.Callback? && s.threads[0].Idle? && d < |s.calls| && 0 < t < |s.threads|
    requires !s.calls[d].forUser && s.calls[d].slotSet && DropsLast(s, d, t)
    ensures var turns := [Turn(0, Cancel(d)), Turn(t, Advance)] + Gos(8);
            && NoReturn(turns) && AnyRuns(s, turns).Some?
            && var s' := AnyRuns(s, turns).value;
               && FreedAlone(s, s', d, t, AfterDrop(s.threads[t]))
               && (s.dispatch != Callback(d) ==> Inv(s'))
  {
    var next := AfterDrop(s.threads[t]);
    var s1 := Move(s, 0, Erasing(d, true));
    var s2 := Move(s1.(owner := None), t, next);
    assert WfState(s) && Distinct(s.slots);
    hide FreedAlone, Held, Continue, Step, Without, Inv, AnyRuns, Advances, WfState, DropsLast, OtherHolds, NoReturn;
    CancelHolds(s, d, t, next);
    CancelFreesAlone(s, d, t, next, s2);
    RunsThrough(s, Cancel(d), s1, t, s2, 8);
    if s.dispatch != Callback(d) {
      CancelKeeps(s, d, s1, t, s2, 8);
    }
  }

  lemma CancelKeeps(s: State, d: nat, s1: State, t: nat, s2: State, n: nat)
    requires Inv(s) && s.threads != [] && s.dispatch != Callback(d) && Step(s, 0, Cancel(d)) == Some(s1)
    requires WfState(s1) && t < |s1.threads| && Continue(s1, t) == Some(s2) && Advances(s2, n).Some?
    ensures Inv(Advances(s2, n).value)
  {
    hide Inv, Step, Continue, Advances, WfState;
    StepKeeps(s, 0, Cancel(d));
    ContinueKeeps(s1, t);
    AdvancesKeep(s2, n);
  }

  lemma RunsThrough(s: State, a: Act, s1: State, t: nat, s2: State, n: nat)
    requires WfState(s) && !a.Return? && Step(s, 0, a) == Some(s1)
    requires WfState(s1) && t < |s1.threads| && Continue(s1, t) == Some(s2) && Advances(s2, n).Some?
    ensures NoReturn([Turn(0, a), Turn(t, Advance)] + Gos(n))
    ensures AnyRuns(s, [Turn(0, a), Turn(t, Advance)] + Gos(n)) == Advances(s2, n)
  {
    OneTurn(s, 0, a);
    OneTurn(s1, t, Advance);
    AdvancesAreTurns(s2, n);
    hide AnyRuns, Advances, Step, Continue, WfState;
    AnyRunsOn(s, [Turn(0, a)], [Turn(t, Advance)]);
    assert [Turn(0, a)] + [Turn(t, Advance)] == [Turn(0, a), Turn(t, Advance)];
    AnyRunsOn(s, [Turn(0, a), Turn(t, Advance)], Gos(n));
  }

  lemma {:induction false} WithoutNothing<T>(slots: seq<T>, c: T)
    requires c !in slots
    ensures Without(slots, c) == slots
  {
    if slots != [] {
      WithoutNothing(slots[1..], c);
      assert slots == [slots[0]] + slots[1..];
    }
  }

  /** With the reference of the cancel, the drop of thread `t` is not the last one. */
  lemma CancelHolds(s: State, d: nat, t: nat, next: Pc)
    requires Inv(s) && s.dispatch.Callback? && s.threads[0].Idle? && d < |s.calls| && 0 < t < |s.threads|
    requires !s.calls[d].forUser && s.calls[d].slotSet && DropsLast(s, d, t) && next == AfterDrop(s.threads[t])
    ensures Step(s, 0, Cancel(d)) == Some(Move(s, 0, Erasing(d, true)))
    ensures var s1 := Move(s, 0, Erasing(d, true));
            && WfState(s1) && Continue(s1, t) == Some(Move(s1.(owner := None), t, next))
            && var s2 := Move(s1.(owner := None), t, next);
               && WfState(s2) && s2.threads[0] == Erasing(d, true)
               && !OtherHolds(s2.threads, 0, d) && d !in s.slots && !s.calls[d].owned
  {
    hide Inv, ThreadInv, LoopInv, Distinct;
    InvHere(s, t);
    assert Holds(s.threads[t], d) && Held(s, d);
    var s1 := Move(s, 0, Erasing(d, true));
    assert Known(s.threads[t], |s.calls|) && Known(next, |s.calls|);
    var dropped := Move(s, t, next);
    assert !Held(dropped, d);
    var s2 := Move(s1.(owner := None), t, next);
    assert s2.threads == dropped.threads[0 := Erasing(d, true)];
    assert s2.threads[0] == Erasing(d, true);
    HeldAfter(dropped.threads, 0, Erasing(d, true), d);
    OthersAsBefore(dropped.threads, Erasing(d, true), d);
    assert Held(Move(s1, t, next), d) by { assert Holds(Move(s1, t, next).threads[0], d); }
    assert Held(s2, d) by { assert Holds(s2.threads[0], d); }
  }

  /** Thread `t` would have to destroy another call before it comes to `c`. */
  predicate NeedsHelp(s: State, c: nat, t: nat)
    requires WfState(s) && t < |s.threads|
  {
    var pc := s.threads[t];
    pc.Releasing? && pc.todo != [] && pc.todo[0] != c && DropsLast(s, pc.todo[0], t)
  }

  /** The owner of the container mutex can move on, and so can a thread that holds the call; the
      call stays alive unless that was the last reference. */
  lemma MovesSafely(s: State, c: nat, t: nat)
    requires InDanger(s, c) && 0 < t < |s.threads| && !s.calls[c].forUser && !DropsLast(s, c, t)
    requires s.owner == Some(t) || (s.owner.None? && Holds(s.threads[t], c) && !NeedsHelp(s, c, t))
    ensures Continue(s, t).Some?
    ensures Continue(s, t).value.calls[c].phase.Alive? && !Caught(Continue(s, t).value.threads[t], c)
  {
    assert ThreadInv(s, t) && CallInv(s, c);
    assert !Caught(s.threads[t], c);
    hide Held, Without, Known, HoldsShared;
  }

  /** The event loop helps a thread that would be caught: it takes over the destruction. */
  lemma Helps(s: State, c: nat, t: nat) returns (turns: seq<Turn>)
    requires InDanger(s, c) && 0 < t < |s.threads| && NeedsHelp(s, c, t)
    ensures NoReturn(turns) && AnyRuns(s, turns).Some?
    ensures InDanger(AnyRuns(s, turns).value, c) && WorkLeft(AnyRuns(s, turns).value) < WorkLeft(s)
  {
    var pc := s.threads[t];
    var d, next := pc.todo[0], Releasing(pc.todo[1..]);
    assert ThreadInv(s, t) && Holds(pc, d) && Known(pc, |s.calls|);
    hide Held;
    DropAndCancel(s, d, t);
    turns := [Turn(0, Cancel(d)), Turn(t, Advance)] + Gos(8);
    var s' := AnyRuns(s, turns).value;
    RanksAfter(s.threads, t, next);
    hide Inv, AnyRuns, Ranks, DropsLast;
    forall u | 0 <= u < |s'.threads| ensures !Caught(s'.threads[u], c) {
      assert u != t ==> s'.threads[u] == s.threads[u] && !Caught(s.threads[u], c);
    }
  }

  /** For a call of the user: its Slot is handed out, if it is not yet, and released. */
  lemma UserCallMoves(s: State, c: nat) returns (t: nat)
    requires InDanger(s, c) && s.calls[c].forUser && !s.calls[c].owned
    ensures 0 < t < |s.threads| && Continue(s, t).Some?
    ensures Continue(s, t).value.calls[c].phase.Alive? && !Caught(Continue(s, t).value.threads[t], c)
  {
    assert CallInv(s, c);
    t :| 0 <= t < |s.threads| && Holds(s.threads[t], c);
    assert ThreadInv(s, t) && s.threads[t] == Sent(c);
  }

  /** From every dangerous state a schedule is found in which the call is freed under its callback. */
  lemma {:induction false} CanBeFreed(s: State, c: nat) returns (turns: seq<Turn>)
    requires InDanger(s, c)
    ensures FreesDuring(s, turns, c)
    decreases WorkLeft(s)
  {
    var t: nat;
    assert WfState(s) && c < |s.calls|;
    hide Continue, AnyRuns, WorkLeft, Step, Inv, DropsLast, NeedsHelp;
    if s.calls[c].owned {
      SelfReleaseFreesUnderCallback(s, c);
      return [Turn(0, Release(c))] + Gos(2);
    } else if s.calls[c].forUser {
      t := UserCallMoves(s, c);
    } else if u: nat :| 0 < u < |s.threads| && DropsLast(s, c, u) {
      turns := LastHolderFirst(s, c, u);
      return;
    } else if u: nat :| 0 < u < |s.threads| && s.owner == Some(u) {
      t := u;
      MovesSafely(s, c, t);
    } else if u: nat :| 0 < u < |s.threads| && Holds(s.threads[u], c) {
      OwnerIsOther(s);
      if NeedsHelp(s, c, u) {
        var help := Helps(s, c, u);
        var rest := CanBeFreed(AnyRuns(s, help).value, c);
        FreesLater(s, help, AnyRuns(s, help).value, rest, c);
        return help + rest;
      }
      t := u;
      MovesSafely(s, c, t);
    } else {
      OwnerIsOther(s);
      StoredOnly(s, c);
      SelfCancelFreesUnderCallback(s, c);
      return [Turn(0, Cancel(c))] + Gos(8);
    }
    OtherMoves(s, c, t);
    var s' := Continue(s, t).value;
    var rest := CanBeFreed(s', c);
    TurnOf(s, t);
    FreesLater(s, [Turn(t, Advance)], s', rest, c);
    turns := [Turn(t, Advance)] + rest;
  }

  lemma TurnOf(s: State, t: nat)
    requires Inv(s) && t < |s.threads| && Continue(s, t).Some?
    ensures AnyRuns(s, [Turn(t, Advance)]) == Continue(s, t) && NoReturn([Turn(t, Advance)])
  {
    hide Continue;
    OneTurn(s, t, Advance);
  }

  lemma OwnerIsOther(s: State)
    requires Inv(s) && s.threads[0].Idle?
    ensures s.owner.Some? ==> 0 < s.owner.value < |s.threads|
  {
    assert ThreadInv(s, 0);
  }

  lemma StoredOnly(s: State, c: nat)
    requires InDanger(s, c) && !s.calls[c].owned && !exists u: nat :: 0 < u < |s.threads| && Holds(s.threads[u], c)
    ensures c in s.slots && !HeldByThread(s.threads, c)
  {
    assert CallInv(s, c);
  }

  lemma LastHolderFirst(s: State, c: nat, t: nat) returns (turns: seq<Turn>)
    requires InDanger(s, c) && !s.calls[c].forUser && 0 < t < |s.threads| && DropsLast(s, c, t)
    ensures FreesDuring(s, turns, c)
  {
    assert ThreadInv(s, t) && Holds(s.threads[t], c);
    hide Held;
    DropAndCancel(s, c, t);
    turns := [Turn(0, Cancel(c)), Turn(t, Advance)] + Gos(8);
  }

  /** The guard is exact. From any reachable state in which the callback of `c` has control, some
      schedule frees the call under it if and only if the call is alive and no other thread is
      caught with it; and no polite schedule ever does. */
  lemma GuardIsExact(n: nat, turns: seq<Turn>, s: State, c: nat)
    requires n > 0 && IsRun(Initially(n), turns, s)
    requires s.dispatch == Callback(c) && s.threads != [] && s.threads[0].Idle?
    ensures c < |s.calls|
    ensures (exists more :: FreesDuring(s, more, c)) <==> s.calls[c].phase.Alive? && !SomeoneCaught(s, c)
    ensures forall more :: FreesDuring(s, more, c) ==> Runs(s, more).None?
  {
    ReachableInv(n, turns, s);
    if s.calls[c].phase.Alive? && !SomeoneCaught(s, c) {
      var more := CanBeFreed(s, c);
    } else {
      forall more ensures !FreesDuring(s, more, c) {
        NoHarm(s, c, more);
      }
    }
    forall more | FreesDuring(s, more, c) ensures Runs(s, more).None? {
      if Runs(s, more).Some? { PoliteNeverFrees(s, more, c); }
    }
  }
}
