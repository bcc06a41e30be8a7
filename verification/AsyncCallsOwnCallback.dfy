/** What a callback must not do to its own call: `AsyncCalls.Polite` is the exact guard. While the
    callback of a call runs, only cancelling or releasing that call in it, or unregistering the
    proxy, can free the call under the callback; and then there is a schedule in which that happens,
    unless another thread is already caught in the middle of letting go of the call. */
module AsyncCallsOwnCallback {
  import opened Options
  import opened AsyncCalls
  import opened AsyncCallsInvariant
  import opened AsyncCallsResults

  // ---------------------------------------------------------------------------------------
  // Runs with any acts

  function AnyRuns(s: State, turns: seq<Turn>): Option<State>
    decreases |turns|
  {
    if turns == [] then Some(s)
    else if !(WfState(s) && turns[0].thread < |s.threads|) then None
    else match Step(s, turns[0].thread, turns[0].act) case Some(s') => AnyRuns(s', turns[1..]) case None => None
  }

  /** The callback does not return during the run. */
  predicate NoReturn(turns: seq<Turn>) {
    forall i | 0 <= i < |turns| :: !turns[i].act.Return?
  }

  /** The call is freed and the callback still runs. */
  ghost predicate FreesDuring(s: State, turns: seq<Turn>, c: nat) {
    && NoReturn(turns) && AnyRuns(s, turns).Some?
    && var s' := AnyRuns(s, turns).value;
       s'.dispatch == Callback(c) && c < |s'.calls| && s'.calls[c].phase.Freed?
  }

  lemma {:induction false} AnyRunsOn(s: State, turns: seq<Turn>, more: seq<Turn>)
    requires AnyRuns(s, turns).Some?
    ensures AnyRuns(s, turns + more) == AnyRuns(AnyRuns(s, turns).value, more)
    decreases |turns|
  {
    if turns == [] {
      assert turns + more == more;
    } else {
      assert (turns + more)[1..] == turns[1..] + more;
      hide Step;
      AnyRunsOn(Step(s, turns[0].thread, turns[0].act).value, turns[1..], more);
    }
  }

  lemma OneTurn(s: State, t: nat, a: Act)
    requires WfState(s) && t < |s.threads| && Step(s, t, a).Some?
    ensures AnyRuns(s, [Turn(t, a)]) == Step(s, t, a)
  {
    assert [Turn(t, a)][1..] == [];
  }

  /** A run in front of another one that frees the call. */
  lemma FreesLater(s: State, turns: seq<Turn>, s': State, more: seq<Turn>, c: nat)
    requires AnyRuns(s, turns) == Some(s') && NoReturn(turns) && FreesDuring(s', more, c)
    ensures FreesDuring(s, turns + more, c)
  {
    hide AnyRuns;
    AnyRunsOn(s, turns, more);
  }

  /** Thread 0 takes `n` steps. */
  function Advances(s: State, n: nat): Option<State>
    decreases n
  {
    if n == 0 then Some(s)
    else if !WfState(s) then None
    else match Continue(s, 0) case Some(s') => Advances(s', n - 1) case None => None
  }

  function Gos(n: nat): (turns: seq<Turn>)
    ensures NoReturn(turns)
  {
    if n == 0 then [] else [Turn(0, Advance)] + Gos(n - 1)
  }

  lemma {:induction false} AdvancesAreTurns(s: State, n: nat)
    requires Advances(s, n).Some?
    ensures AnyRuns(s, Gos(n)) == Advances(s, n)
    decreases n
  {
    if n > 0 {
      hide Continue;
      assert Gos(n)[1..] == Gos(n - 1);
      AdvancesAreTurns(Continue(s, 0).value, n - 1);
    }
  }

  lemma {:induction false} AdvancesKeep(s: State, n: nat)
    requires Inv(s) && Advances(s, n).Some?
    ensures Inv(Advances(s, n).value)
    decreases n
  {
    hide Continue, Inv;
    if n > 0 {
      ContinueKeeps(s, 0);
      AdvancesKeep(Continue(s, 0).value, n - 1);
    }
  }

  lemma OneAdvance(s: State, s': State, n: nat)
    requires WfState(s) && Continue(s, 0) == Some(s')
    ensures Advances(s, n + 1) == Advances(s', n)
  {
  }

  lemma NoAdvance(s: State)
    ensures Advances(s, 0) == Some(s)
  {
  }

  lemma {:induction false} AdvancesMore(s: State, n: nat, m: nat)
    requires Advances(s, n).Some?
    ensures Advances(s, n + m) == Advances(Advances(s, n).value, m)
    decreases n
  {
    hide Continue;
    if n > 0 {
      AdvancesMore(Continue(s, 0).value, n - 1, m);
    }
  }

  // ---------------------------------------------------------------------------------------
  // A cancel by the event loop, inside a callback

  /** Between these states only thread 0 has moved, and of the calls only `c` has changed. */
  ghost predicate OnlyZero(s: State, s': State, c: nat)
  {
    && |s'.threads| == |s.threads| > 0 && s'.threads == s.threads[0 := s'.threads[0]]
    && |s'.calls| == |s.calls| && c < |s.calls|
    && (forall d | 0 <= d < |s.calls| && d != c :: s'.calls[d] == s.calls[d])
    && s'.calls[c].owned == s.calls[c].owned && s'.calls[c].slotSet == s.calls[c].slotSet
    && s'.dispatch == s.dispatch
  }

  lemma OnlyZeroOn(s: State, s': State, s'': State, c: nat)
    requires OnlyZero(s, s', c) && OnlyZero(s', s'', c)
    ensures OnlyZero(s, s'', c)
    ensures OtherHolds(s'.threads, 0, c) <==> OtherHolds(s.threads, 0, c)
  {
    assert s.threads[0 := s'.threads[0]][0 := s''.threads[0]] == s.threads[0 := s''.threads[0]];
    OthersAsBefore(s.threads, s'.threads[0], c);
  }

  lemma OthersAsBefore(threads: seq<Pc>, pc: Pc, c: nat)
    requires threads != []
    ensures OtherHolds(threads[0 := pc], 0, c) <==> OtherHolds(threads, 0, c)
  {
    hide Holds;
    var after := threads[0 := pc];
    if u :| 0 <= u < |threads| && u != 0 && Holds(threads[u], c) { assert Holds(after[u], c); }
    if u :| 0 <= u < |threads| && u != 0 && Holds(after[u], c) { assert Holds(threads[u], c); }
  }

  /** It locks the container and marks the call, */
  lemma MarkRuns(s: State, c: nat)
    requires WfState(s) && s.threads[0] == Erasing(c, true) && s.dispatch.Callback? && s.owner.None?
    ensures Advances(s, 2).Some?
    ensures var s' := Advances(s, 2).value;
            WfState(s') && OnlyZero(s, s', c) && s'.threads[0] == EraseMarked(c, true) && s'.slots == s.slots
  {
    var s1 := Continue(s, 0).value;
    var s2 := Continue(s1, 0).value;
    hide Advances;
    OneAdvance(s, s1, 1);
    OneAdvance(s1, s2, 0);
    NoAdvance(s2);
  }

  /** moves it out of the container, */
  lemma MoveRuns(s: State, c: nat)
    requires WfState(s) && s.threads[0] == EraseMarked(c, true) && s.dispatch.Callback? && Distinct(s.slots)
    ensures Advances(s, 1).Some?
    ensures var s' := Advances(s, 1).value;
            && WfState(s') && OnlyZero(s, s', c) && s'.threads[0] == EraseDone(c, true, c in s.slots)
            && s'.slots == Without(s.slots, c)
  {
    WithoutKeeps(s.slots, c);
    var s1 := Continue(s, 0).value;
    hide Without, Distinct, Advances;
    OneAdvance(s, s1, 0);
    NoAdvance(s1);
  }

  /** unlocks, */
  lemma UnlockRuns(s: State, c: nat)
    requires WfState(s) && s.threads[0].EraseDone? && s.threads[0].c == c && s.threads[0].mine && s.dispatch.Callback?
    ensures Advances(s, 2).Some?
    ensures var s' := Advances(s, 2).value;
            && WfState(s') && OnlyZero(s, s', c) && s'.threads[0] == Cancelled(c)
            && s'.slots == s.slots && s'.owner.None?
  {
    var s1 := Continue(s, 0).value;
    var s2 := Continue(s1, 0).value;
    hide Advances;
    OneAdvance(s, s1, 1);
    OneAdvance(s1, s2, 0);
    NoAdvance(s2);
  }

  predicate DropsNext(pc: Pc, c: nat, next: Pc) {
    (pc == Cancelled(c) && next.Idle?) || (next.Releasing? && pc == Releasing([c] + next.todo))
  }

  lemma ZeroDrops(s: State, c: nat, next: Pc)
    requires WfState(s) && DropsNext(s.threads[0], c, next)
    ensures Continue(s, 0).Some?
    ensures var s' := Continue(s, 0).value;
            && WfState(s') && OnlyZero(s, s', c) && s'.slots == s.slots && s'.owner == s.owner
            && s'.threads[0] == if Held(Move(s, 0, next), c) then next else Destroying(c, !s.calls[c].slotSet, next)
  {
    assert Known(s.threads[0], |s.calls|);
    if next.Releasing? {
      var todo := [c] + next.todo;
      assert todo[0] == c && todo[1..] == next.todo;
      assert forall i | 0 <= i < |next.todo| :: next.todo[i] == todo[i + 1];
    }
    assert Known(next, |s.calls|);
    hide Held;
  }

  /** The event loop can always go through with a destruction. */
  lemma DestroyingRuns(s: State, c: nat, next: Pc) returns (n: nat, s': State)
    requires WfState(s) && s.dispatch.Callback? && s.threads[0].Destroying? && s.threads[0].c == c
    requires s.threads[0].next == next
    ensures n == (if s.threads[0].unreferenced then 1 else 2) && Advances(s, n) == Some(s') && WfState(s')
    ensures OnlyZero(s, s', c) && s'.threads[0] == next && s'.slots == s.slots && s'.owner == s.owner
    ensures s'.calls[c].phase.Freed?
  {
    var s1 := Continue(s, 0).value;
    if s.threads[0].unreferenced {
      n, s' := 1, s1;
      OneAdvance(s, s1, 0);
    } else {
      var s2 := Continue(s1, 0).value;
      n, s' := 2, s2;
      hide Advances;
      OneAdvance(s, s1, 1);
      OneAdvance(s1, s2, 0);
    }
    NoAdvance(s');
  }

  /** and drops its reference, the last one. */
  lemma DropRuns(s: State, c: nat)
    requires WfState(s) && s.threads[0] == Cancelled(c) && s.dispatch.Callback?
    requires c !in s.slots && !OtherHolds(s.threads, 0, c) && !s.calls[c].owned && s.calls[c].slotSet
    ensures Advances(s, 3).Some?
    ensures var s' := Advances(s, 3).value;
            && WfState(s') && OnlyZero(s, s', c) && s'.threads[0].Idle? && s'.slots == s.slots
            && s'.owner == s.owner && s'.calls[c].phase.Freed?
  {
    HeldAfter(s.threads, 0, Idle, c);
    ZeroDrops(s, c, Idle);
    var s1 := Continue(s, 0).value;
    hide Held, Continue, WfState, Advances;
    var n, s' := DestroyingRuns(s1, c, Idle);
    OneAdvance(s, s1, 2);
    OnlyZeroOn(s, s1, s', c);
  }

  /** A call that nobody else holds is freed by the cancel, on the recursive mutex. */
  lemma CancelRuns(s: State, c: nat)
    requires WfState(s) && s.threads[0] == Erasing(c, true) && s.dispatch.Callback? && s.owner.None?
    requires Distinct(s.slots) && !OtherHolds(s.threads, 0, c) && !s.calls[c].owned && s.calls[c].slotSet
    ensures Advances(s, 8).Some?
    ensures var s' := Advances(s, 8).value;
            && OnlyZero(s, s', c) && s'.threads[0].Idle? && s'.slots == Without(s.slots, c)
            && s'.owner.None? && s'.calls[c].phase.Freed?
  {
    WithoutKeeps(s.slots, c);
    OthersAsBefore(s.threads, Idle, c);
    MarkRuns(s, c);
    var s1 := Advances(s, 2).value;
    MoveRuns(s1, c);
    var s2 := Advances(s1, 1).value;
    UnlockRuns(s2, c);
    var s3 := Advances(s2, 2).value;
    OnlyZeroOn(s, s1, s2, c);
    OnlyZeroOn(s, s2, s3, c);
    OthersAsBefore(s.threads, s3.threads[0], c);
    DropRuns(s3, c);
    OnlyZeroOn(s, s3, Advances(s3, 3).value, c);
    hide OnlyZero, OtherHolds, Without, Distinct, WfState;
    AdvancesMore(s2, 2, 3);
    AdvancesMore(s1, 1, 5);
    AdvancesMore(s, 2, 6);
  }

  /** Whenever a stored call that nobody else holds cancels itself in its callback, the slot is
      released on the recursive mutex and the object is freed while the callback still runs. */
  lemma SelfCancelFreesUnderCallback(s: State, c: nat)
    requires Inv(s) && s.dispatch == Callback(c) && s.threads[0].Idle? && s.owner.None?
    requires c in s.slots && !HeldByThread(s.threads, c)
    ensures FreesDuring(s, [Turn(0, Cancel(c))] + Gos(8), c)
  {
    assert CallInv(s, c);
    var s1 := Step(s, 0, Cancel(c)).value;
    HeldAfter(s.threads, 0, Idle, c);
    OthersAsBefore(s.threads, s1.threads[0], c);
    hide Held;
    CancelRuns(s1, c);
    AdvancesAreTurns(s1, 8);
    OneTurn(s, 0, Cancel(c));
    hide AnyRuns, Advances, Without, Step;
    FreesLater(s, [Turn(0, Cancel(c))], s1, Gos(8), c);
  }

  /** So does a user that destroys its Slot in the callback. */
  lemma SelfReleaseFreesUnderCallback(s: State, c: nat)
    requires Inv(s) && s.dispatch == Callback(c) && s.threads[0].Idle? && s.calls[c].owned
    ensures FreesDuring(s, [Turn(0, Release(c))] + Gos(2), c)
  {
    assert CallInv(s, c);
    UserCallUnheld(s, c);
    var s' := Set(s, c, s.calls[c].(owned := false));
    assert s.threads[0 := Idle] == s.threads;
    assert !Held(Move(s', 0, Idle), c);
    var s1 := Step(s, 0, Release(c)).value;
    assert s1.threads[0] == Destroying(c, false, Idle);
    var s2 := Continue(s1, 0).value;
    var s3 := Continue(s2, 0).value;
    OneTurn(s, 0, Release(c));
    hide Held, Advances, AnyRuns;
    OneAdvance(s1, s2, 1);
    OneAdvance(s2, s3, 0);
    NoAdvance(s3);
    AdvancesAreTurns(s1, 2);
    hide Step, Continue;
    FreesLater(s, [Turn(0, Release(c))], s1, Gos(2), c);
  }

  /** A call that the user owns is held by nobody else. */
  lemma UserCallUnheld(s: State, c: nat)
    requires Inv(s) && c < |s.calls| && s.calls[c].owned
    ensures !HeldByThread(s.threads, c) && c !in s.slots
  {
    assert CallInv(s, c);
    forall t | 0 <= t < |s.threads| ensures !Holds(s.threads[t], c) {
      assert ThreadInv(s, t);
    }
  }

  // ---------------------------------------------------------------------------------------
  // unregister inside a callback

  /** The event loop drops one call, and frees it if that was the last reference. */
  lemma DropsOne(s: State, d: nat, next: Pc) returns (n: nat, s': State)
    requires WfState(s) && s.dispatch.Callback? && next.Releasing? && s.threads[0] == Releasing([d] + next.todo)
    ensures n > 0 && Advances(s, n) == Some(s') && WfState(s') && OnlyZero(s, s', d)
    ensures s'.threads[0] == next && s'.slots == s.slots
    ensures Held(Move(s, 0, next), d) || s'.calls[d].phase.Freed?
  {
    ZeroDrops(s, d, next);
    var s1 := Continue(s, 0).value;
    hide Continue, WfState, Advances, Held;
    if s1.threads[0] == next {
      n, s' := 1, s1;
      OneAdvance(s, s1, 0);
      NoAdvance(s1);
    } else {
      var m;
      m, s' := DestroyingRuns(s1, d, next);
      OneAdvance(s, s1, m);
      OnlyZeroOn(s, s1, s', d);
      n := m + 1;
    }
  }

  lemma HeldIfNext(s: State, next: Pc, c: nat)
    requires s.threads != [] && c < |s.calls|
    requires c !in s.slots && !s.calls[c].owned && !OtherHolds(s.threads, 0, c)
    ensures Held(Move(s, 0, next), c) <==> Holds(next, c)
  {
    HeldAfter(s.threads, 0, next, c);
    hide Holds;
  }

  /** Within `n` steps of thread 0 the call is freed under its callback. */
  predicate FreedAfter(s: State, n: nat, c: nat) {
    && Advances(s, n).Some?
    && var s' := Advances(s, n).value;
       s'.dispatch == Callback(c) && c < |s'.calls| && s'.calls[c].phase.Freed?
  }

  lemma FreedLater(s: State, m: nat, s': State, n: nat, c: nat)
    requires Advances(s, m) == Some(s') && FreedAfter(s', n, c)
    ensures FreedAfter(s, m + n, c)
  {
    hide Advances;
    AdvancesMore(s, m, n);
  }

  lemma AlsoNotHeld(s: State, s': State, d: nat, c: nat)
    requires OnlyZero(s, s', d) && c < |s.calls| && s'.slots == s.slots
    requires c !in s.slots && !s.calls[c].owned && s.calls[c].slotSet && !OtherHolds(s.threads, 0, c)
    ensures c < |s'.calls| && s'.dispatch == s.dispatch && |s'.threads| == |s.threads|
    ensures c !in s'.slots && !s'.calls[c].owned && s'.calls[c].slotSet && !OtherHolds(s'.threads, 0, c)
  {
    hide OtherHolds;
    OthersAsBefore(s.threads, s'.threads[0], c);
  }

  /** Dropping one call after the other, the event loop comes to `c` and frees it. */
  lemma {:induction false} ReleasingRuns(s: State, c: nat) returns (n: nat)
    requires WfState(s) && s.dispatch == Callback(c) && s.threads[0].Releasing? && c in s.threads[0].todo
    requires c !in s.slots && !s.calls[c].owned && s.calls[c].slotSet && !OtherHolds(s.threads, 0, c)
    ensures FreedAfter(s, n, c)
    decreases |s.threads[0].todo|
  {
    var todo := s.threads[0].todo;
    var d, next := todo[0], Releasing(todo[1..]);
    assert todo == [d] + todo[1..];
    hide Advances, OtherHolds, WfState, Held;
    var m, s' := DropsOne(s, d, next);
    HeldIfNext(s, next, c);
    AlsoNotHeld(s, s', d, c);
    hide OnlyZero;
    if d == c && c !in next.todo {
      n := m;
    } else {
      hide FreedAfter;
      n := ReleasingRuns(s', c);
      FreedLater(s, m, s', n, c);
      n := m + n;
    }
  }

  /** unregister takes everything out of the container. */
  lemma ClearRuns(s: State) returns (s': State)
    requires WfState(s) && s.threads[0] == Clearing && s.dispatch.Callback? && s.owner.None?
    ensures Advances(s, 3) == Some(s') && WfState(s')
    ensures s' == Move(s.(slots := []), 0, Releasing(s.slots))
  {
    var s1 := Continue(s, 0).value;
    var s2 := Continue(s1, 0).value;
    s' := Continue(s2, 0).value;
    assert s'.threads == s.threads[0 := Releasing(s.slots)];
    hide Advances;
    OneAdvance(s, s1, 2);
    OneAdvance(s1, s2, 1);
    OneAdvance(s2, s', 0);
    NoAdvance(s');
  }

  lemma UnregisterStarts(s: State)
    requires WfState(s) && s.threads[0].Idle? && s.dispatch.Callback?
    ensures WfState(Move(s, 0, Clearing))
    ensures AnyRuns(s, [Turn(0, Unregister)]) == Some(Move(s, 0, Clearing))
  {
    hide AnyRuns;
    OneTurn(s, 0, Unregister);
  }

  lemma ClearFrees(s: State, c: nat) returns (n: nat)
    requires WfState(s) && s.dispatch == Callback(c) && s.threads[0] == Clearing && s.owner.None?
    requires c in s.slots && !s.calls[c].owned && s.calls[c].slotSet && !OtherHolds(s.threads, 0, c)
    ensures FreedAfter(s, n, c)
  {
    hide Advances, OtherHolds, Continue;
    var s' := ClearRuns(s);
    OthersAsBefore(s.threads, Releasing(s.slots), c);
    hide WfState;
    n := ReleasingRuns(s', c);
    FreedLater(s, 3, s', n, c);
    n := 3 + n;
  }

  /** Unregistering the proxy in the callback of a stored call that nobody else holds frees it, too. */
  lemma SelfUnregisterFreesUnderCallback(s: State, c: nat) returns (n: nat)
    requires Inv(s) && s.dispatch == Callback(c) && s.threads[0].Idle? && s.owner.None?
    requires c in s.slots && !HeldByThread(s.threads, c)
    ensures FreesDuring(s, [Turn(0, Unregister)] + Gos(n), c)
  {
    assert WfState(s) && CallInv(s, c);
    hide Inv, Advances, OtherHolds, Step, Continue, AnyRuns;
    UnregisterStarts(s);
    HeldAfter(s.threads, 0, Idle, c);
    OthersAsBefore(s.threads, Clearing, c);
    hide HeldByThread, CallInv, WfState;
    var s1 := Move(s, 0, Clearing);
    n := ClearFrees(s1, c);
    AdvancesAreTurns(s1, n);
    FreesLater(s, [Turn(0, Unregister)], s1, Gos(n), c);
  }

  // ---------------------------------------------------------------------------------------
  // These situations are reached

  lemma NothingRuns(s: State)
    ensures Runs(s, []) == Some(s)
  {
  }

  lemma RunsFirst(s: State, t: nat, a: Act, s': State, rest: seq<Turn>)
    requires WfState(s) && t < |s.threads| && Polite(s, t, a) && Step(s, t, a) == Some(s')
    ensures Runs(s, [Turn(t, a)] + rest) == Runs(s', rest)
  {
    hide Step, WfState;
    assert ([Turn(t, a)] + rest)[1..] == rest;
  }

  /** Two threads get there: thread 1 makes a call, */
  lemma CallSent() returns (turns: seq<Turn>, s: State)
    ensures turns == [Turn(1, Start(false)), Turn(1, Advance), Turn(1, Advance)]
    ensures WfState(s) && Runs(Initially(2), turns) == Some(s)
    ensures |s.calls| == 1 && |s.threads| == 2 && s.threads[0].Idle? && s.threads[1] == Pushing(0)
    ensures s.slots == [] && s.owner.None? && s.dispatch.NoReply?
    ensures s.calls[0].slotSet && s.calls[0].registered && !s.calls[0].finished
  {
    var go := Turn(1, Advance);
    var s0 := Initially(2);
    var s1 := Step(s0, 1, Start(false)).value;
    var s2 := Continue(s1, 1).value;
    s := Continue(s2, 1).value;
    turns := [Turn(1, Start(false)), go, go];
    hide Runs;
    NothingRuns(s);
    RunsFirst(s2, 1, Advance, s, []);
    RunsFirst(s1, 1, Advance, s2, [go]);
    RunsFirst(s0, 1, Start(false), s1, [go, go]);
  }

  /** stores it, */
  lemma CallStored(s: State) returns (turns: seq<Turn>, s': State)
    requires WfState(s) && |s.calls| == 1 && |s.threads| == 2 && s.threads[0].Idle? && s.threads[1] == Pushing(0)
    requires s.slots == [] && s.owner.None? && s.dispatch.NoReply? && !s.calls[0].finished
    ensures turns == [Turn(1, Advance), Turn(1, Advance), Turn(1, Advance)]
    ensures WfState(s') && Runs(s, turns) == Some(s')
    ensures s'.threads == [Idle, Idle] && s'.slots == [0] && s'.owner.None? && s'.dispatch.NoReply?
    ensures s'.calls == s.calls
  {
    var go := Turn(1, Advance);
    var s1 := Continue(s, 1).value;
    var s2 := Continue(s1, 1).value;
    s' := Continue(s2, 1).value;
    turns := [go, go, go];
    hide Runs;
    NothingRuns(s');
    RunsFirst(s2, 1, Advance, s', []);
    RunsFirst(s1, 1, Advance, s2, [go]);
    RunsFirst(s, 1, Advance, s1, [go, go]);
  }

  /** and the event loop takes up the reply. */
  lemma CallTaken(s: State) returns (s': State)
    requires WfState(s) && |s.calls| == 1 && s.threads == [Idle, Idle] && s.slots == [0]
    requires s.owner.None? && s.dispatch.NoReply? && s.calls[0].registered && s.calls[0].slotSet
    ensures WfState(s') && Runs(s, [Turn(0, Reply(0))]) == Some(s')
    ensures s'.dispatch == Callback(0) && s'.threads[0].Idle? && s'.owner.None?
    ensures 0 in s'.slots && s'.calls[0].slotSet && !HeldByThread(s'.threads, 0)
  {
    s' := Step(s, 0, Reply(0)).value;
    hide Runs;
    NothingRuns(s');
    RunsFirst(s, 0, Reply(0), s', []);
    assert [Turn(0, Reply(0))] + [] == [Turn(0, Reply(0))];
  }

  /** The situation of `SelfCancelFreesUnderCallback` and `SelfUnregisterFreesUnderCallback`. */
  lemma SelfCancelIsPossible() returns (turns: seq<Turn>, s: State)
    ensures IsRun(Initially(2), turns, s)
    ensures Inv(s) && s.dispatch == Callback(0) && s.threads[0].Idle? && s.owner.None?
    ensures 0 in s.slots && !HeldByThread(s.threads, 0)
  {
    var making, sent := CallSent();
    var storing, stored := CallStored(sent);
    s := CallTaken(stored);
    turns := making + storing + [Turn(0, Reply(0))];
    hide Runs;
    RunsOn(Initially(2), making, storing);
    RunsOn(Initially(2), making + storing, [Turn(0, Reply(0))]);
    ReachableInv(2, turns, s);
  }
}
