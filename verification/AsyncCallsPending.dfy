/** What the asynchronous-call protocol is for: a call that nobody disturbs stays pending until its
    reply is taken up, and a cancel leaves nothing behind. */
module AsyncCallsPending {
  import opened Options
  import opened AsyncCalls
  import opened AsyncCallsInvariant
  import opened AsyncCallsResults

  // ---------------------------------------------------------------------------------------
  // The container

  /** push_back stores the call if and only if it has not finished in the meantime; else the thread has
      still to let go of it. */
  lemma StoredUnlessFinished(s: State, t: nat)
    requires Inv(s) && t < |s.threads| && s.threads[t].PushLocked?
    ensures Continue(s, t).Some?
    ensures s.threads[t].c in Continue(s, t).value.slots <==> !s.calls[s.threads[t].c].finished
    ensures forall d | d != s.threads[t].c :: d in Continue(s, t).value.slots <==> d in s.slots
    ensures Holds(Continue(s, t).value.threads[t], s.threads[t].c) <==> s.calls[s.threads[t].c].finished
  {
    InvHere(s, t);
  }

  /** A stored call leaves the container only in a clear or in the erase of that very call. */
  lemma LeavesByOwnErase(s: State, t: nat, a: Act, c: nat)
    requires WfState(s) && t < |s.threads| && Step(s, t, a).Some? && c in s.slots && c !in Step(s, t, a).value.slots
    ensures a.Advance? && (s.threads[t].ClearLocked? || (s.threads[t].EraseMarked? && s.threads[t].c == c))
  {
    if a.Advance? && s.threads[t].EraseMarked? && s.threads[t].c != c {
      OthersStored(s.slots, s.threads[t].c, c);
    }
    hide Held, Known, Without;
  }

  lemma {:induction false} OthersStored(slots: seq<nat>, d: nat, c: nat)
    requires c in slots && c != d
    ensures c in Without(slots, d)
  {
    if slots[0] != d && slots[0] != c {
      OthersStored(slots[1..], d, c);
    }
  }

  // ---------------------------------------------------------------------------------------
  // Undisturbed calls

  /** What may end a call before its reply: it cannot be sent, it is cancelled or released, or a clear
      takes it out. */
  predicate Disturbs(s: State, t: nat, a: Act, c: nat)
    requires t < |s.threads|
  {
    || a == Cancel(c) || a == Release(c)
    || (a.SendFails? && s.threads[t] == Sending(c))
    || (a.Advance? && s.threads[t].ClearLocked? && c in s.slots)
  }

  /** The call waits for its reply: sd-bus knows it, or will when it has been sent, and the container,
      the user's Slot or callMethodAsync has it. */
  predicate Waits(s: State, c: nat) {
    && c < |s.calls| && s.calls[c].creator < |s.threads|
    && var call, maker := s.calls[c], s.threads[s.calls[c].creator];
       && !call.started && !call.finished && s.dispatch != Callback(c) && s.dispatch != Exit(c)
       && (forall u | 0 <= u < |s.threads| :: !(IsErase(s.threads[u]) && s.threads[u].c == c))
       && (call.registered || maker == Sending(c))
       && (if Creates(maker, c) then true else if call.forUser then call.owned else c in s.slots)
  }

  predicate WaitsOrStarted(s: State, c: nat) {
    Waits(s, c) || (c < |s.calls| && s.calls[c].started)
  }

  /** A step of thread `t` that has nothing to do with `c`. */
  predicate Ignores(s: State, s': State, t: nat, c: nat)
    requires t < |s.threads| && c < |s.calls|
  {
    && c < |s'.calls| && s'.calls[c] == s.calls[c]
    && |s'.threads| == |s.threads| && s'.threads == s.threads[t := s'.threads[t]]
    && (c in s.slots ==> c in s'.slots)
    && !(IsErase(s'.threads[t]) && s'.threads[t].c == c)
    && (Creates(s.threads[t], c) ==> s'.threads[t] == s.threads[t])
    && (s'.dispatch == s.dispatch || (s'.dispatch != Callback(c) && s'.dispatch != Exit(c)))
  }

  lemma IgnoredWaits(s: State, s': State, t: nat, c: nat)
    requires t < |s.threads| && Waits(s, c) && Ignores(s, s', t, c)
    ensures Waits(s', c)
  {
    forall u | 0 <= u < |s'.threads| ensures !(IsErase(s'.threads[u]) && s'.threads[u].c == c) {
      assert u != t ==> s'.threads[u] == s.threads[u];
    }
  }

  lemma WaitingIsHeld(s: State, c: nat)
    requires Waits(s, c)
    ensures Held(s, c)
  {
    var t := s.calls[c].creator;
    assert Creates(s.threads[t], c) ==> Holds(s.threads[t], c);
  }

  /** Thread `t` gives up its own reference; the call is still held where it waits. */
  lemma DropIgnores(s: State, t: nat, d: nat, next: Pc, c: nat)
    requires t < |s.threads| && d < |s.calls| && Waits(s, c) && !Creates(s.threads[t], c)
    requires next.Idle? || next.Releasing?
    ensures Ignores(s, Drop(s, t, d, next), t, c)
  {
    if d == c {
      assert Waits(Move(s, t, next), c) by { IgnoredWaits(s, Move(s, t, next), t, c); }
      WaitingIsHeld(Move(s, t, next), c);
    }
    hide Held;
  }

  /** The maker itself goes on: the call is sent, gets its slot, and is handed out or stored. */
  lemma MakerStep(s: State, t: nat, c: nat)
    requires Inv(s) && t < |s.threads| && Waits(s, c) && Creates(s.threads[t], c) && Continue(s, t).Some?
    ensures Waits(Continue(s, t).value, c)
  {
    hide Inv, LoopInv, Distinct;
    InvAt(s, t, c);
    var s' := Continue(s, t).value;
    forall u | 0 <= u < |s'.threads| ensures !(IsErase(s'.threads[u]) && s'.threads[u].c == c) {
      assert u != t ==> s'.threads[u] == s.threads[u];
    }
  }

  lemma OtherMakerIgnores(s: State, t: nat, c: nat)
    requires WfState(s) && t < |s.threads| && Waits(s, c) && Continue(s, t).Some?
    requires var pc := s.threads[t];
             pc.Sending? || pc.Sent? || pc.Pushing? || pc.PushLocked? || pc.Idle? || pc.Clearing? || pc.ClearMoved?
    requires !Creates(s.threads[t], c)
    ensures Ignores(s, Continue(s, t).value, t, c)
  {
    hide Held, Without, Drop;
    var s' := Continue(s, t).value;
    assert s'.threads == s.threads[t := s'.threads[t]];
  }

  lemma EraseIgnores(s: State, t: nat, c: nat)
    requires WfState(s) && t < |s.threads| && Waits(s, c) && Continue(s, t).Some?
    requires var pc := s.threads[t]; pc.Erasing? || pc.EraseLocked? || pc.EraseMarked? || pc.EraseDone?
    ensures Ignores(s, Continue(s, t).value, t, c)
  {
    if s.threads[t].EraseMarked? && c in s.slots { OthersStored(s.slots, s.threads[t].c, c); }
    hide Held, Without, Drop;
  }

  lemma EndingIgnores(s: State, t: nat, c: nat)
    requires WfState(s) && t < |s.threads| && Waits(s, c) && Continue(s, t).Some?
    requires var pc := s.threads[t]; pc.Pushed? || pc.EraseUnlocked? || pc.Cancelled? || pc.Releasing?
    ensures Ignores(s, Continue(s, t).value, t, c)
  {
    var pc := s.threads[t];
    hide Held, Without, Drop, Ignores, Waits;
    WaitsUnlocked(s, t, c);
    if pc.Pushed? && !pc.stored {
      DropIgnores(s.(owner := None), t, pc.c, Idle, c);
      OwnerIsIgnored(s, Continue(s, t).value, t, c);
    } else if pc.Cancelled? || (pc.EraseUnlocked? && pc.moved && !pc.mine) {
      DropIgnores(s, t, pc.c, Idle, c);
    } else if pc.Releasing? && pc.todo != [] {
      DropIgnores(s, t, pc.todo[0], Releasing(pc.todo[1..]), c);
    } else {
      MoveIgnores(s, Continue(s, t).value, t, c);
    }
  }

  lemma WaitsUnlocked(s: State, t: nat, c: nat)
    requires t < |s.threads| && Waits(s, c)
    ensures c < |s.calls| && Waits(s.(owner := None), c)
    ensures !(IsErase(s.threads[t]) && s.threads[t].c == c)
  {
  }

  lemma OwnerIsIgnored(s: State, s': State, t: nat, c: nat)
    requires t < |s.threads| && c < |s.calls| && Ignores(s.(owner := None), s', t, c)
    ensures Ignores(s, s', t, c)
  {
  }

  lemma MoveIgnores(s: State, s': State, t: nat, c: nat)
    requires t < |s.threads| == |s'.threads| && c < |s.calls| && !Creates(s.threads[t], c)
    requires s' == Move(s.(owner := s'.owner), t, s'.threads[t])
    requires !(IsErase(s'.threads[t]) && s'.threads[t].c == c)
    ensures Ignores(s, s', t, c)
  {
  }

  lemma DestroyIgnores(s: State, t: nat, c: nat)
    requires Inv(s) && t < |s.threads| && Waits(s, c) && Continue(s, t).Some? && s.threads[t].Destroying?
    ensures Ignores(s, Continue(s, t).value, t, c)
  {
    InvAt(s, t, c);
    WaitingIsHeld(s, c);
    NextIsSimple(s, t);
    hide Inv, LoopInv, Distinct, Held;
  }

  lemma ClearIgnores(s: State, t: nat, c: nat)
    requires WfState(s) && t < |s.threads| && Waits(s, c) && s.threads[t].ClearLocked? && c !in s.slots
    ensures Ignores(s, Continue(s, t).value, t, c)
  {
  }

  lemma AdvanceWaits(s: State, t: nat, c: nat)
    requires Inv(s) && t < |s.threads| && Waits(s, c) && Continue(s, t).Some? && !Disturbs(s, t, Advance, c)
    ensures Waits(Continue(s, t).value, c)
  {
    var pc, s' := s.threads[t], Continue(s, t).value;
    hide Inv, Waits, Ignores, Continue, WfState, Creates, LoopInv, ThreadInv, Distinct;
    InvHere(s, t);
    WaitsUnlocked(s, t, c);
    if Creates(pc, c) {
      MakerStep(s, t, c);
      return;
    }
    if pc.Erasing? || pc.EraseLocked? || pc.EraseMarked? || pc.EraseDone? {
      EraseIgnores(s, t, c);
    } else if pc.Pushed? || pc.EraseUnlocked? || pc.Cancelled? || pc.Releasing? {
      EndingIgnores(s, t, c);
    } else if pc.Destroying? {
      DestroyIgnores(s, t, c);
    } else if pc.ClearLocked? {
      ClearIgnores(s, t, c);
    } else {
      OtherMakerIgnores(s, t, c);
    }
    IgnoredWaits(s, s', t, c);
  }

  /** Starting or ending something else. */
  lemma ActWaits(s: State, t: nat, a: Act, c: nat)
    requires Inv(s) && t < |s.threads| && Waits(s, c) && Step(s, t, a).Some? && !Disturbs(s, t, a, c)
    requires !a.Advance? && a != Reply(c)
    ensures Waits(Step(s, t, a).value, c)
  {
    hide Inv, Held, Without, Drop, Continue, LoopInv, Distinct, ThreadInv;
    InvHere(s, t);
    var s' := Step(s, t, a).value;
    if a.SendFails? {
      DropIgnores(s, t, s.threads[t].c, Idle, c);
    } else if a.Release? {
      var s0 := Set(s, a.c, s.calls[a.c].(owned := false));
      assert Ignores(s, s0, t, c) by { assert s0.threads == s.threads[t := s0.threads[t]]; }
      IgnoredWaits(s, s0, t, c);
      DropIgnores(s0, t, a.c, Idle, c);
    } else {
      assert s'.threads == s.threads[t := s'.threads[t]];
    }
    IgnoredWaits(s, s', t, c);
  }

  /** A step that does not disturb the call leaves it waiting, or is the one that takes up its reply. */
  lemma WaitStays(s: State, t: nat, a: Act, c: nat)
    requires Inv(s) && t < |s.threads| && WaitsOrStarted(s, c) && Step(s, t, a).Some? && !Disturbs(s, t, a, c)
    ensures WaitsOrStarted(Step(s, t, a).value, c)
  {
    hide Inv, Step, Waits, Disturbs, Continue;
    assert WfState(s) by { InvHere(s, t); }
    assert c < |s.calls| by { IsCall(s, c); }
    AdvanceIsContinue(s, t);
    if s.calls[c].started {
      StepRemembers(s, t, a);
    } else if a.Advance? {
      AdvanceWaits(s, t, c);
    } else if a == Reply(c) {
      assert Step(s, t, a).value.calls[c].started by { ReplyStarts(s, t, c); }
    } else {
      ActWaits(s, t, a, c);
    }
  }

  lemma IsCall(s: State, c: nat)
    requires WaitsOrStarted(s, c)
    ensures c < |s.calls|
  {
  }

  lemma ReplyStarts(s: State, t: nat, c: nat)
    requires WfState(s) && t < |s.threads| && Step(s, t, Reply(c)).Some?
    ensures c < |s.calls| == |Step(s, t, Reply(c)).value.calls| && Step(s, t, Reply(c)).value.calls[c].started
  {
  }

  /** No step forgets a call, who made it and for whom, or that its callback has been entered or that it
      has finished. */
  predicate Remembers(s: State, s': State) {
    && |s.calls| <= |s'.calls|
    && forall c | 0 <= c < |s.calls| ::
         && s'.calls[c].forUser == s.calls[c].forUser && s'.calls[c].creator == s.calls[c].creator
         && (s.calls[c].started ==> s'.calls[c].started) && (s.calls[c].finished ==> s'.calls[c].finished)
  }

  lemma OneCallChanged(s: State, s': State, c: nat)
    requires c < |s.calls| == |s'.calls| && s'.calls == s.calls[c := s'.calls[c]]
    requires s'.calls[c].forUser == s.calls[c].forUser && s'.calls[c].creator == s.calls[c].creator
    requires (s.calls[c].started ==> s'.calls[c].started) && (s.calls[c].finished ==> s'.calls[c].finished)
    ensures Remembers(s, s')
  {
  }

  lemma DropRemembers(s: State, t: nat, d: nat, next: Pc)
    requires t < |s.threads| && d < |s.calls|
    ensures Remembers(s, Drop(s, t, d, next)) && |Drop(s, t, d, next).calls| == |s.calls|
  {
    hide Held, Remembers;
    var s' := Drop(s, t, d, next);
    assert s'.calls == s.calls[d := s'.calls[d]];
    OneCallChanged(s, s', d);
  }

  lemma AdvanceRemembers(s: State, t: nat)
    requires WfState(s) && t < |s.threads| && Continue(s, t).Some?
    ensures Remembers(s, Continue(s, t).value) && |Continue(s, t).value.calls| == |s.calls|
  {
    var pc, s' := s.threads[t], Continue(s, t).value;
    hide Held, Without, Drop, Remembers;
    if (pc.Pushed? && !pc.stored) || pc.EraseUnlocked? || pc.Cancelled? {
      DropRemembers(s.(owner := None), t, pc.c, Idle);
      DropRemembers(s, t, pc.c, Idle);
    } else if pc.Releasing? && pc.todo != [] {
      DropRemembers(s, t, pc.todo[0], Releasing(pc.todo[1..]));
    } else if pc.Sending? || pc.Sent? || pc.EraseLocked? || pc.Destroying? {
      OneCallChanged(s, s', pc.c);
      return;
    }
    SameCallsRemembered(s, s');
    SameCallsRemembered(s.(owner := None), s');
    RemembersUnlocked(s, s');
  }

  lemma SameCallsRemembered(s: State, s': State)
    ensures s'.calls == s.calls ==> Remembers(s, s')
  {
  }

  lemma RemembersUnlocked(s: State, s': State)
    ensures Remembers(s.(owner := None), s') <==> Remembers(s, s')
  {
  }

  lemma StepRemembers(s: State, t: nat, a: Act)
    requires WfState(s) && t < |s.threads| && Step(s, t, a).Some?
    ensures Remembers(s, Step(s, t, a).value)
    ensures !a.Start? ==> |Step(s, t, a).value.calls| == |s.calls|
  {
    hide Held, Without, Continue;
    if a.Advance? { AdvanceRemembers(s, t); }
  }

  // ---------------------------------------------------------------------------------------
  // Whole runs

  /** No turn of the run disturbs call `c`. */
  predicate Undisturbed(s: State, turns: seq<Turn>, c: nat)
    decreases |turns|
  {
    turns != [] && WfState(s) && turns[0].thread < |s.threads| && Step(s, turns[0].thread, turns[0].act).Some? ==>
      && !Disturbs(s, turns[0].thread, turns[0].act, c)
      && Undisturbed(Step(s, turns[0].thread, turns[0].act).value, turns[1..], c)
  }

  /** A new call waits from its first step on. */
  lemma NewCallWaits(s: State, t: nat, a: Act, c: nat)
    requires Inv(s) && t < |s.threads| && Step(s, t, a).Some? && c >= |s.calls|
    ensures c < |Step(s, t, a).value.calls| ==> Waits(Step(s, t, a).value, c)
  {
    hide Inv, Held, Without, Drop, LoopInv, Distinct, ThreadInv;
    InvHere(s, t);
    if a.Start? {
      forall u | 0 <= u < |s.threads| ensures !(IsErase(s.threads[u]) && s.threads[u].c == |s.calls|) {
        assert Known(s.threads[u], |s.calls|);
      }
    } else {
      StepRemembers(s, t, a);
    }
  }

  lemma {:induction false} WaitsThroughout(s: State, turns: seq<Turn>, s': State, c: nat)
    requires Inv(s) && IsRun(s, turns, s') && Undisturbed(s, turns, c) && (c < |s.calls| ==> WaitsOrStarted(s, c))
    ensures Inv(s') && (c < |s'.calls| ==> WaitsOrStarted(s', c))
    decreases |turns|
  {
    hide Step, Inv, Waits, Disturbs, WfState;
    if turns != [] {
      var t, a := turns[0].thread, turns[0].act;
      StepKeeps(s, t, a);
      if c < |s.calls| {
        WaitStays(s, t, a, c);
      } else {
        NewCallWaits(s, t, a, c);
      }
      WaitsThroughout(Step(s, t, a).value, turns[1..], s', c);
    }
  }

  /** When every thread is done, a call that nothing has disturbed and whose callback has not been
      entered is pending: the container or the Slot of the user holds it, sd-bus knows its handler,
      and its reply is taken up when it comes. */
  lemma PendingUntilReply(n: nat, turns: seq<Turn>, s: State, c: nat)
    requires n > 0 && IsRun(Initially(n), turns, s) && Undisturbed(Initially(n), turns, c) && Quiet(s)
    requires c < |s.calls| && !s.calls[c].started
    ensures if s.calls[c].forUser then s.calls[c].owned else c in s.slots
    ensures s.calls[c].phase.Alive? && s.calls[c].registered && WfState(s)
    ensures Step(s, 0, Reply(c)).Some? && Step(s, 0, Reply(c)).value.dispatch == Callback(c)
  {
    WaitsThroughout(Initially(n), turns, s, c);
    WaitingIsHeld(s, c);
    InvAt(s, 0, c);
  }

  lemma {:induction false} RemembersThroughout(s: State, turns: seq<Turn>, s': State)
    requires Inv(s) && IsRun(s, turns, s')
    ensures Remembers(s, s')
    decreases |turns|
  {
    if turns != [] {
      hide Step, Inv, Remembers;
      StepKeeps(s, turns[0].thread, turns[0].act);
      StepRemembers(s, turns[0].thread, turns[0].act);
      var s1 := Step(s, turns[0].thread, turns[0].act).value;
      RemembersThroughout(s1, turns[1..], s');
      RemembersOn(s, s1, s');
    }
  }

  lemma RemembersOn(s: State, s1: State, s': State)
    requires Remembers(s, s1) && Remembers(s1, s')
    ensures Remembers(s, s')
  {
  }

  /** callMethodAsync makes one new call, and it is the user's exactly if a Slot was asked for. */
  lemma MadeAsAskedFor(s: State, t: nat, forUser: bool, later: seq<Turn>, s': State)
    requires Inv(s) && t < |s.threads| && Step(s, t, Start(forUser)).Some?
    requires IsRun(Step(s, t, Start(forUser)).value, later, s')
    ensures |s.calls| < |s'.calls| && s'.calls[|s.calls|].forUser == forUser && s'.calls[|s.calls|].creator == t
  {
    StepKeeps(s, t, Start(forUser));
    RemembersThroughout(Step(s, t, Start(forUser)).value, later, s');
    hide Inv;
  }

  /** While the event loop dispatches a reply, no other thread gets at sd-bus: what it knows of the calls
      does not change. */
  lemma SdBusIsExclusive(s: State, t: nat, a: Act)
    requires WfState(s) && 0 < t < |s.threads| && !s.dispatch.NoReply? && Step(s, t, a).Some?
    ensures var s' := Step(s, t, a).value;
            && s'.dispatch == s.dispatch && |s.calls| <= |s'.calls|
            && forall c | 0 <= c < |s'.calls| ::
                 s'.calls[c].registered <==> c < |s.calls| && s.calls[c].registered
  {
    hide Held, Without, Continue;
    if a.Advance? { ExclusiveAdvance(s, t); }
  }

  lemma ExclusiveAdvance(s: State, t: nat)
    requires WfState(s) && 0 < t < |s.threads| && !s.dispatch.NoReply? && Continue(s, t).Some?
    ensures var s' := Continue(s, t).value;
            && s'.dispatch == s.dispatch && |s.calls| == |s'.calls|
            && forall c | 0 <= c < |s.calls| :: s'.calls[c].registered <==> s.calls[c].registered
  {
    hide Held, Without;
  }

  // ---------------------------------------------------------------------------------------
  // Calls that cannot be sent

  /** The slot is stored after the call has been sent. */
  predicate SlotAfterSend(s: State)
    requires WfState(s)
  {
    forall u | 0 <= u < |s.threads| && s.threads[u].Sending? :: !s.calls[s.threads[u].c].slotSet
  }

  /** A step stores the slot of the call that its thread has sent, and of no other; and a thread that is
      about to send after it was so before, or has just made the call. */
  predicate StoresOwnSlot(s: State, s': State, t: nat)
    requires WfState(s) && t < |s.threads|
  {
    && |s.calls| <= |s'.calls| && |s'.threads| == |s.threads| && s'.threads == s.threads[t := s'.threads[t]]
    && (forall c | 0 <= c < |s.calls| && s.threads[t] != Sent(c) :: s'.calls[c].slotSet == s.calls[c].slotSet)
    && (s'.threads[t].Sending? ==>
          if s'.threads[t].c < |s.calls| then s.threads[t] == s'.threads[t]
          else s'.threads[t].c < |s'.calls| && !s'.calls[s'.threads[t].c].slotSet)
  }

  lemma DropStoresNone(s: State, t: nat, d: nat, next: Pc)
    requires t < |s.threads| && d < |s.calls| && (next.Idle? || next.Releasing?)
    ensures var s' := Drop(s, t, d, next);
            && |s.calls| == |s'.calls| && |s'.threads| == |s.threads| && s'.threads == s.threads[t := s'.threads[t]]
            && (forall c | 0 <= c < |s.calls| :: s'.calls[c].slotSet == s.calls[c].slotSet)
            && !s'.threads[t].Sending?
  {
    hide Held;
  }

  lemma AdvanceStoresOwnSlot(s: State, t: nat)
    requires WfState(s) && t < |s.threads| && Continue(s, t).Some?
    ensures StoresOwnSlot(s, Continue(s, t).value, t)
  {
    var pc := s.threads[t];
    hide Continue, StoresOwnSlot, Known;
    if pc.Pushed? || pc.EraseUnlocked? || pc.Cancelled? || pc.Releasing? {
      DroppingStoresNone(s, t);
    } else if pc.Erasing? || pc.EraseLocked? || pc.EraseMarked? || pc.EraseDone? || pc.Destroying? {
      EndingStoresNone(s, t);
    } else {
      MakingStoresOwnSlot(s, t);
    }
  }

  lemma DroppingStoresNone(s: State, t: nat)
    requires WfState(s) && t < |s.threads| && Continue(s, t).Some?
    requires var pc := s.threads[t]; pc.Pushed? || pc.EraseUnlocked? || pc.Cancelled? || pc.Releasing?
    ensures StoresOwnSlot(s, Continue(s, t).value, t)
  {
    var pc, s' := s.threads[t], Continue(s, t).value;
    hide Held, Without, Drop;
    if pc.Releasing? {
      if pc.todo != [] { DropStoresNone(s, t, pc.todo[0], Releasing(pc.todo[1..])); }
    } else {
      DropStoresNone(s.(owner := None), t, pc.c, Idle);
      DropStoresNone(s, t, pc.c, Idle);
    }
  }

  lemma EndingStoresNone(s: State, t: nat)
    requires WfState(s) && t < |s.threads| && Continue(s, t).Some?
    requires var pc := s.threads[t];
             pc.Erasing? || pc.EraseLocked? || pc.EraseMarked? || pc.EraseDone? || pc.Destroying?
    ensures StoresOwnSlot(s, Continue(s, t).value, t)
  {
    hide Held, Without, Drop;
    NextIsSimple(s, t);
  }

  lemma MakingStoresOwnSlot(s: State, t: nat)
    requires WfState(s) && t < |s.threads| && Continue(s, t).Some?
    requires var pc := s.threads[t];
             && !(pc.Pushed? || pc.EraseUnlocked? || pc.Cancelled? || pc.Releasing?)
             && !(pc.Erasing? || pc.EraseLocked? || pc.EraseMarked? || pc.EraseDone? || pc.Destroying?)
    ensures StoresOwnSlot(s, Continue(s, t).value, t)
  {
    hide Held, Without, Drop;
    var s' := Continue(s, t).value;
    assert s'.threads == s.threads[t := s'.threads[t]];
  }

  lemma StepStoresOwnSlot(s: State, t: nat, a: Act)
    requires WfState(s) && t < |s.threads| && Step(s, t, a).Some?
    ensures StoresOwnSlot(s, Step(s, t, a).value, t)
  {
    hide Held, Without, Drop, Continue;
    var s' := Step(s, t, a).value;
    if a.Advance? {
      AdvanceStoresOwnSlot(s, t);
    } else if a.SendFails? {
      DropStoresNone(s, t, s.threads[t].c, Idle);
    } else if a.Release? {
      DropStoresNone(Set(s, a.c, s.calls[a.c].(owned := false)), t, a.c, Idle);
    }
    assert s'.threads == s.threads[t := s'.threads[t]];
  }

  lemma SlotAfterSendStays(s: State, t: nat, a: Act)
    requires Inv(s) && WfState(s) && t < |s.threads| && Step(s, t, a).Some? && WfState(Step(s, t, a).value)
    requires SlotAfterSend(s)
    ensures SlotAfterSend(Step(s, t, a).value)
  {
    hide Inv, Step, WfState, LoopInv, Distinct;
    var s' := Step(s, t, a).value;
    StepStoresOwnSlot(s, t, a);
    forall u | 0 <= u < |s'.threads| && s'.threads[u].Sending?
      ensures s'.threads[u].c < |s'.calls| && !s'.calls[s'.threads[u].c].slotSet
    {
      SendingIsCall(s', u);
      if u != t {
        assert s'.threads[u] == s.threads[u];
        InvHere(s, u);
        InvHere(s, t);
        SendingIsCall(s, u);
      }
    }
  }

  lemma SendingIsCall(s: State, u: nat)
    requires WfState(s) && u < |s.threads| && s.threads[u].Sending?
    ensures s.threads[u].c < |s.calls|
  {
  }

  lemma {:induction false} SlotAfterSendThroughout(s: State, turns: seq<Turn>, s': State)
    requires Inv(s) && IsRun(s, turns, s') && WfState(s) && SlotAfterSend(s)
    ensures WfState(s') && SlotAfterSend(s')
    decreases |turns|
  {
    hide Step, Inv, SlotAfterSend;
    if turns != [] {
      StepKeeps(s, turns[0].thread, turns[0].act);
      var s1 := Step(s, turns[0].thread, turns[0].act).value;
      InvIsWf(s1);
      SlotAfterSendStays(s, turns[0].thread, turns[0].act);
      SlotAfterSendThroughout(s1, turns[1..], s');
    }
  }

  /** The exception of a failed send drops the only reference, so the thread goes on to destroy the
      call, which sd-bus has never known and the container has never held. */
  lemma FailedSendDestroys(n: nat, turns: seq<Turn>, s: State, t: nat)
    requires n > 0 && IsRun(Initially(n), turns, s) && t < |s.threads| && s.threads[t].Sending?
    ensures WfState(s)
    ensures var c, r := s.threads[t].c, Step(s, t, SendFails);
            && r.Some? && c < |r.value.calls| && r.value.calls[c].phase == Dying(t)
            && r.value.threads[t] == Destroying(c, true, Idle)
            && c !in r.value.slots && !r.value.calls[c].registered && !r.value.calls[c].started
  {
    ReachableInv(n, turns, s);
    SlotAfterSendThroughout(Initially(n), turns, s);
    SendingIsCall(s, t);
    OnlyMakerHolds(s, t);
    InvAt(s, t, s.threads[t].c);
    hide IsRun, Inv, LoopInv, Distinct, Held;
  }

  lemma OnlyMakerHolds(s: State, t: nat)
    requires Inv(s) && WfState(s) && t < |s.threads| && s.threads[t].Sending? && s.threads[t].c < |s.calls|
    requires !s.calls[s.threads[t].c].slotSet
    ensures !Held(Move(s, t, Idle), s.threads[t].c)
  {
    hide Inv, LoopInv, Distinct;
    var c, after := s.threads[t].c, Move(s, t, Idle);
    InvAt(s, t, c);
    forall u | 0 <= u < |after.threads| ensures !Holds(after.threads[u], c) {
      if u != t {
        InvHere(s, u);
      }
    }
  }

  // ---------------------------------------------------------------------------------------
  // Cancelled calls

  /** The call has finished and is not stored. */
  predicate TakenAway(s: State, c: nat) {
    c < |s.calls| && s.calls[c].finished && c !in s.slots && !s.calls[c].forUser
  }

  lemma TakenAwayByAdvance(s: State, t: nat, c: nat)
    requires Inv(s) && t < |s.threads| && TakenAway(s, c) && Continue(s, t).Some?
    ensures c !in Continue(s, t).value.slots
  {
    hide Inv, Held, LoopInv, ThreadInv;
    InvHere(s, t);
    if s.threads[t].EraseMarked? { WithoutKeeps(s.slots, s.threads[t].c); }
    hide Without, Distinct;
  }

  lemma TakenAwayStays(s: State, t: nat, a: Act, c: nat)
    requires Inv(s) && t < |s.threads| && TakenAway(s, c) && Step(s, t, a).Some?
    ensures TakenAway(Step(s, t, a).value, c)
  {
    hide Inv, Held, LoopInv, ThreadInv, Distinct, Continue, WfState;
    InvHere(s, t);
    StepRemembers(s, t, a);
    if a.Advance? { TakenAwayByAdvance(s, t, c); }
  }

  lemma {:induction false} TakenAwayForever(s: State, turns: seq<Turn>, s': State, c: nat)
    requires Inv(s) && IsRun(s, turns, s') && TakenAway(s, c)
    ensures Inv(s') && TakenAway(s', c)
    decreases |turns|
  {
    hide Step, Inv, TakenAway, WfState;
    if turns != [] {
      StepKeeps(s, turns[0].thread, turns[0].act);
      TakenAwayStays(s, turns[0].thread, turns[0].act, c);
      TakenAwayForever(Step(s, turns[0].thread, turns[0].act).value, turns[1..], s', c);
    }
  }

  /** Whoever is about to take a call out has marked it. */
  predicate MarksFirst(s: State)
    requires WfState(s)
  {
    forall u | 0 <= u < |s.threads| && s.threads[u].EraseMarked? :: s.calls[s.threads[u].c].finished
  }

  lemma MarksFirstStays(s: State, t: nat, a: Act)
    requires WfState(s) && t < |s.threads| && Step(s, t, a).Some? && WfState(Step(s, t, a).value) && MarksFirst(s)
    ensures MarksFirst(Step(s, t, a).value)
  {
    var s' := Step(s, t, a).value;
    hide Continue, Held, Without;
    AdvanceIsContinue(s, t);
    StepRemembers(s, t, a);
    if a.Advance? { NewlyMarked(s, t); } else { StartsUnmarked(s, t, a); }
    hide Step;
    forall u | 0 <= u < |s'.threads| && s'.threads[u].EraseMarked? ensures s'.calls[s'.threads[u].c].finished {
      assert u != t ==> s'.threads[u] == s.threads[u];
    }
  }

  lemma NewlyMarked(s: State, t: nat)
    requires WfState(s) && t < |s.threads| && Continue(s, t).Some?
    ensures var s' := Continue(s, t).value;
            && |s'.threads| == |s.threads| && s'.threads == s.threads[t := s'.threads[t]]
            && (s'.threads[t].EraseMarked? ==> s'.threads[t].c < |s'.calls| && s'.calls[s'.threads[t].c].finished)
  {
    hide Held, Without;
    NextIsSimple(s, t);
    var s' := Continue(s, t).value;
    assert s'.threads == s.threads[t := s'.threads[t]];
  }

  lemma StartsUnmarked(s: State, t: nat, a: Act)
    requires WfState(s) && t < |s.threads| && Step(s, t, a).Some? && !a.Advance?
    ensures var s' := Step(s, t, a).value;
            |s'.threads| == |s.threads| && s'.threads == s.threads[t := s'.threads[t]] && !s'.threads[t].EraseMarked?
  {
    hide Held, Without, Continue;
    var s' := Step(s, t, a).value;
    assert s'.threads == s.threads[t := s'.threads[t]];
  }

  lemma InvIsWf(s: State)
    requires Inv(s)
    ensures WfState(s)
  {
  }

  lemma {:induction false} MarksFirstThroughout(s: State, turns: seq<Turn>, s': State)
    requires Inv(s) && IsRun(s, turns, s') && WfState(s) && MarksFirst(s)
    ensures WfState(s') && MarksFirst(s')
    decreases |turns|
  {
    hide Step, Inv, MarksFirst;
    if turns != [] {
      StepKeeps(s, turns[0].thread, turns[0].act);
      var s1 := Step(s, turns[0].thread, turns[0].act).value;
      InvIsWf(s1);
      MarksFirstStays(s, turns[0].thread, turns[0].act);
      MarksFirstThroughout(s1, turns[1..], s');
    }
  }

  /** What a cancel guarantees when it returns: the call is freed, so that its callback neither runs
      nor ever starts, or another thread is still making it or on its way with it. */
  lemma CancelSynchronizes(n: nat, turns: seq<Turn>, s: State, t: nat, later: seq<Turn>, s': State, c: nat)
    requires n > 0 && IsRun(Initially(n), turns, s) && t < |s.threads| && s.threads[t] == EraseMarked(c, true)
    requires WfState(s) && IsRun(Continue(s, t).value, later, s') && t < |s'.threads| && s'.threads[t].Idle?
    ensures c < |s'.calls| && c !in s'.slots
    ensures || (s'.calls[c].phase.Freed? && s'.dispatch != Callback(c))
            || exists u :: 0 <= u < |s'.threads| && u != t && (Holds(s'.threads[u], c) || Destroys(s'.threads[u], c))
  {
    ReachableInv(n, turns, s);
    MarksFirstThroughout(Initially(n), turns, s);
    hide IsRun, Distinct, LoopInv;
    InvAt(s, t, c);
    ContinueKeeps(s, t);
    WithoutKeeps(s.slots, c);
    assert TakenAway(Continue(s, t).value, c);
    TakenAwayForever(Continue(s, t).value, later, s', c);
    assert CallInv(s', c);
  }
}
