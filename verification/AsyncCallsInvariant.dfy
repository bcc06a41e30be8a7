/** Every step of the asynchronous-call protocol keeps the invariant `AsyncCalls.Inv`. */
module AsyncCallsInvariant {
  import opened Options
  import opened AsyncCalls

  predicate OtherHolds(threads: seq<Pc>, t: nat, c: nat) {
    exists u | 0 <= u < |threads| && u != t :: Holds(threads[u], c)
  }

  /** The locals of one thread against those of the others. */
  lemma HeldAfter(threads: seq<Pc>, t: nat, pc: Pc, c: nat)
    requires t < |threads|
    ensures HeldByThread(threads[t := pc], c) <==> Holds(pc, c) || OtherHolds(threads, t, c)
    ensures HeldByThread(threads, c) <==> Holds(threads[t], c) || OtherHolds(threads, t, c)
  {
    hide Holds;
    var after := threads[t := pc];
    if Holds(pc, c) { assert Holds(after[t], c); }
    if u :| 0 <= u < |threads| && u != t && Holds(threads[u], c) { assert Holds(after[u], c); }
  }

  /** What the invariant says of one thread and one call. */
  lemma InvAt(s: State, t: nat, c: nat)
    requires Inv(s) && t < |s.threads|
    ensures WfState(s) && Distinct(s.slots) && LoopInv(s) && ThreadInv(s, t)
    ensures c < |s.calls| ==> CallInv(s, c)
  {
    hide WfState, Distinct, LoopInv, ThreadInv, CallInv;
  }

  lemma InvHere(s: State, t: nat)
    requires Inv(s) && t < |s.threads|
    ensures WfState(s) && Distinct(s.slots) && LoopInv(s) && ThreadInv(s, t)
  {
    hide WfState, Distinct, LoopInv, ThreadInv, CallInv;
  }

  /** A call that a thread holds is alive; so nobody is destroying it. */
  lemma HeldIsAlive(s: State, t: nat, c: nat)
    requires Inv(s) && t < |s.threads| && c < |s.calls| && Holds(s.threads[t], c)
    ensures s.calls[c].phase.Alive?
  {
    assert CallInv(s, c);
  }

  // ---------------------------------------------------------------------------------------
  // The rest of the state

  /** The invariant in the moment when `c` may have lost its last reference. */
  predicate InvBut(s: State, c: nat) {
    && WfState(s)
    && Distinct(s.slots)
    && LoopInv(s)
    && (forall t | 0 <= t < |s.threads| :: ThreadInv(s, t))
    && (forall d | 0 <= d < |s.calls| ::
          CallFacts(s, d) && (d != c ==> (s.calls[d].phase.Alive? <==> Held(s, d))))
    && c < |s.calls| && s.calls[c].phase.Alive?
  }

  /** A step of thread `t` that changes no call but `c`: the same calls are held otherwise, and none
      comes into the container. */
  ghost predicate Touches(s: State, s': State, t: nat, c: Option<nat>)
    requires WfState(s) && WfState(s') && t < |s.threads|
  {
    var pc := s.threads[t];
    && |s'.calls| == |s.calls| && |s'.threads| == |s.threads| && s'.threads == s.threads[t := s'.threads[t]]
    && (t != 0 ==> s'.dispatch == s.dispatch)
    && (s'.owner == s.owner || {s.owner, s'.owner} == {None, Some(t)})
    && (pc.Sent? || pc.Destroying? || pc.EraseMarked? ==> c == Some(pc.c))
    && (c.Some? ==> c.value < |s.calls|)
    && (forall d | 0 <= d < |s.calls| && c != Some(d) ::
          && s'.calls[d] == s.calls[d]
          && (Held(s', d) <==> Held(s, d))
          && (d in s'.slots ==> d in s.slots)
          && (InHandler(s', d) <==> InHandler(s, d)))
  }

  /** What another thread knows of call `c` is still true. */
  predicate Respects(s: State, s': State, u: nat, c: nat)
    requires WfState(s) && WfState(s') && u < |s.threads| && c < |s.calls| == |s'.calls|
  {
    var b, a := s.calls[c], s'.calls[c];
    && a.creator == b.creator && a.forUser == b.forUser && (b.slotSet ==> a.slotSet)
    && (Creates(s.threads[u], c) || Destroys(s.threads[u], c) ==>
          && a == b.(finished := a.finished)
          && (c in s'.slots ==> c in s.slots)
          && (InHandler(s', c) ==> InHandler(s, c)))
  }

  lemma OtherCalls(s: State, s': State, t: nat, c: Option<nat>, d: nat)
    requires Inv(s) && WfState(s') && t < |s.threads| && Touches(s, s', t, c) && d < |s.calls| && c != Some(d)
    ensures CallInv(s', d)
  {
    assert CallInv(s, d);
    hide Known, WfState, InHandler, Holds, Held;
  }

  lemma OtherThreads(s: State, s': State, t: nat, c: Option<nat>, u: nat)
    requires Inv(s) && WfState(s') && t < |s.threads| && Touches(s, s', t, c)
    requires u < |s.threads| && u != t && (c.Some? ==> Respects(s, s', u, c.value))
    ensures ThreadInv(s', u)
  {
    assert ThreadInv(s, u);
    hide Known, WfState, InHandler, Held;
  }

  /** So it is enough to look at the thread and the call; the call may be about to be destroyed. */
  lemma KeepsRest(s: State, s': State, t: nat, c: Option<nat>, lost: bool)
    requires Inv(s) && WfState(s') && t < |s.threads| && Touches(s, s', t, c)
    requires Distinct(s'.slots) && LoopInv(s') && ThreadInv(s', t)
    requires forall u | 0 <= u < |s.threads| && u != t && c.Some? :: Respects(s, s', u, c.value)
    requires lost ==> c.Some? && s'.calls[c.value].phase.Alive?
    requires c.Some? ==> if lost then CallFacts(s', c.value) else CallInv(s', c.value)
    ensures if lost then InvBut(s', c.value) else Inv(s')
  {
    forall d | 0 <= d < |s'.calls| && c != Some(d)
      ensures CallInv(s', d) && CallFacts(s', d) && (s'.calls[d].phase.Alive? <==> Held(s', d))
    {
      OtherCalls(s, s', t, c, d);
    }
    forall u | 0 <= u < |s'.threads| ensures ThreadInv(s', u) {
      if u != t { OtherThreads(s, s', t, c, u); }
    }
    assert |s'.calls| == |s.calls| && (c.Some? ==> c.value < |s.calls|);
    hide ThreadInv, CallFacts, Held, Touches, Respects, WfState, LoopInv, Distinct;
  }

  lemma HeldHere(s: State, t: nat)
    requires WfState(s) && t < |s.threads|
    ensures forall c | 0 <= c < |s.calls| && Holds(s.threads[t], c) :: Held(s, c)
  {
  }

  /** With the container as it was, the other calls are held as before if `t` keeps hold of the same
      ones. */
  lemma HeldAsBefore(s: State, s': State, t: nat, c: Option<nat>)
    requires t < |s.threads| && |s'.threads| == |s.threads| && s'.threads == s.threads[t := s'.threads[t]]
    requires |s'.calls| == |s.calls|
    requires forall d | 0 <= d < |s.calls| && c != Some(d) ::
               s'.calls[d] == s.calls[d] && (d in s'.slots <==> d in s.slots)
    requires forall d | 0 <= d < |s.calls| && c != Some(d) ::
               (Holds(s.threads[t], d) ==> Holds(s'.threads[t], d)) && (Holds(s'.threads[t], d) ==> Held(s, d))
    ensures forall d | 0 <= d < |s.calls| && c != Some(d) :: Held(s', d) <==> Held(s, d)
  {
    hide Holds;
    forall d | 0 <= d < |s.calls| && c != Some(d) ensures Held(s', d) <==> Held(s, d) {
      HeldAfter(s.threads, t, s'.threads[t], d);
    }
  }

  // ---------------------------------------------------------------------------------------
  // Steps that touch no call

  /** A thread goes from one of its locals to another. */
  ghost predicate Local(s: State, s': State, t: nat)
    requires WfState(s) && WfState(s') && t < |s.threads|
  {
    var pc := s.threads[t];
    && s'.calls == s.calls && s'.slots == s.slots
    && |s'.threads| == |s.threads| && s'.threads == s.threads[t := s'.threads[t]]
    && (t != 0 ==> s'.dispatch == s.dispatch)
    && (s'.owner == s.owner || {s.owner, s'.owner} == {None, Some(t)})
    && !pc.Sent? && !pc.Destroying? && !pc.EraseMarked?
    && (forall c | 0 <= c < |s.calls| :: InHandler(s', c) <==> InHandler(s, c))
    && (forall c | 0 <= c < |s.calls| :: Holds(pc, c) ==> Holds(s'.threads[t], c))
    && (forall c | 0 <= c < |s.calls| :: Holds(s'.threads[t], c) ==> Held(s, c))
  }

  lemma LocalKeeps(s: State, s': State, t: nat)
    requires Inv(s) && WfState(s') && t < |s.threads| && Local(s, s', t) && LoopInv(s') && ThreadInv(s', t)
    ensures Inv(s')
  {
    HeldAsBefore(s, s', t, None);
    hide Known, WfState, InHandler, Holds, Held, Inv;
    KeepsRest(s, s', t, None, false);
  }

  /** The thread holds the same calls as before. */
  lemma MoveIsLocal(s: State, s': State, t: nat)
    requires WfState(s) && WfState(s') && t < |s.threads|
    requires var pc := s.threads[t]; !pc.Sent? && !pc.Destroying? && !pc.EraseMarked?
    requires |s'.threads| == |s.threads|
    requires s' == Move(s.(owner := s'.owner, dispatch := s'.dispatch), t, s'.threads[t])
    requires t != 0 ==> s'.dispatch == s.dispatch
    requires s'.owner == s.owner || {s.owner, s'.owner} == {None, Some(t)}
    requires forall c | 0 <= c < |s.calls| :: Holds(s'.threads[t], c) <==> Holds(s.threads[t], c)
    requires forall c | 0 <= c < |s.calls| :: InHandler(s', c) <==> InHandler(s, c)
    ensures Local(s, s', t)
  {
    HeldHere(s, t);
    hide Holds, Held, InHandler, WfState;
  }

  /** Taking the container mutex. */
  lemma LockStep(s: State, t: nat)
    requires Inv(s) && t < |s.threads|
    requires var pc := s.threads[t]; pc.Pushing? || pc.Erasing? || pc.Clearing?
    ensures Continue(s, t).Some? ==> Inv(Continue(s, t).value)
  {
    hide Inv, CallInv, Held, Distinct, Local;
    InvHere(s, t);
    if Continue(s, t).Some? {
      MoveIsLocal(s, Continue(s, t).value, t);
      LocalKeeps(s, Continue(s, t).value, t);
    }
  }

  predicate Unlocks(pc: Pc) {
    (pc.Pushed? && pc.stored) || pc.EraseDone? || pc.ClearMoved?
  }

  function AfterUnlock(pc: Pc): Pc {
    match pc
    case EraseDone(c, mine, moved) => EraseUnlocked(c, mine, moved)
    case ClearMoved(todo) => Releasing(todo)
    case _ => Idle
  }

  lemma UnlockedState(s: State, t: nat)
    requires WfState(s) && t < |s.threads| && LoopInv(s) && ThreadInv(s, t) && Unlocks(s.threads[t])
    ensures var s' := Unlock(s, t, AfterUnlock(s.threads[t]));
            Continue(s, t) == Some(s') && WfState(s') && LoopInv(s') && ThreadInv(s', t)
  {
    assert Known(AfterUnlock(s.threads[t]), |s.calls|);
  }

  /** Giving it back. */
  lemma UnlockStep(s: State, t: nat)
    requires Inv(s) && t < |s.threads| && Unlocks(s.threads[t])
    ensures Continue(s, t).Some? ==> Inv(Continue(s, t).value)
  {
    hide Inv, CallInv, Held, Distinct, Local;
    InvHere(s, t);
    UnlockedState(s, t);
    var s' := Unlock(s, t, AfterUnlock(s.threads[t]));
    assert s.owner == Some(t);
    hide Continue, LoopInv, ThreadInv, WfState;
    forall c | 0 <= c < |s.calls| ensures Holds(s'.threads[t], c) <==> Holds(s.threads[t], c) {
    }
    MoveIsLocal(s, s', t);
    LocalKeeps(s, s', t);
  }

  /** Coming to the end of something. */
  lemma QuietStep(s: State, t: nat)
    requires Inv(s) && t < |s.threads|
    requires var pc := s.threads[t];
             pc.Idle? || pc == Releasing([]) || (pc.EraseUnlocked? && (pc.mine || !pc.moved))
    ensures Continue(s, t).Some? ==> Inv(Continue(s, t).value)
  {
    hide Inv, CallInv, Held, Distinct, Local;
    InvHere(s, t);
    if Continue(s, t).Some? {
      var s' := Continue(s, t).value;
      assert s'.threads == s.threads[t := s'.threads[t]];
      MoveIsLocal(s, s', t);
      LocalKeeps(s, s', t);
    }
  }

  // ---------------------------------------------------------------------------------------
  // Dropping a reference

  /** The end of `Drop`, from the state in which the reference is gone. */
  function Settle(s: State, t: nat, c: nat): State
    requires t < |s.threads| && c < |s.calls|
  {
    if Held(s, c) then s
    else Move(Set(s, c, s.calls[c].(phase := Dying(t))), t, Destroying(c, !s.calls[c].slotSet, s.threads[t]))
  }

  lemma DropSettles(s: State, t: nat, c: nat, next: Pc)
    requires t < |s.threads| && c < |s.calls|
    ensures Drop(s, t, c, next) == Settle(Move(s, t, next), t, c)
  {
    hide Held;
    assert s.threads[t := next][t := Destroying(c, !s.calls[c].slotSet, next)] ==
           s.threads[t := Destroying(c, !s.calls[c].slotSet, next)];
  }

  lemma SentIfUnheld(s: State, c: nat)
    requires WfState(s) && c < |s.calls| && CallFacts(s, c) && !Held(s, c)
    ensures s.calls[c].registered || s.calls[c].started ==> s.calls[c].slotSet
  {
    var u := s.calls[c].creator;
    assert u < |s.threads| ==> !Holds(s.threads[u], c);
  }

  /** Thread `t` may have dropped the last reference to `c`. */
  predicate MayDestroy(s: State, t: nat, c: nat) {
    && InvBut(s, c) && t < |s.threads| && (s.threads[t].Idle? || s.threads[t].Releasing?)
    && (t == 0 ==> s.dispatch != Callback(c) && (s.dispatch.Exit? ==> s.dispatch.c == c && s.threads[t].Idle?))
  }

  lemma SettledGlobally(s: State, t: nat, c: nat)
    requires MayDestroy(s, t, c) && !Held(s, c)
    ensures WfState(Settle(s, t, c)) && LoopInv(Settle(s, t, c))
  {
    assert ThreadInv(s, t);
  }

  lemma SettledCall(s: State, t: nat, c: nat)
    requires MayDestroy(s, t, c) && !Held(s, c) && WfState(Settle(s, t, c))
    ensures CallInv(Settle(s, t, c), c)
  {
    HeldAfter(s.threads, t, Settle(s, t, c).threads[t], c);
    hide Known, WfState, ThreadInv, Distinct;
    assert CallFacts(s, c);
  }

  lemma SettledOthers(s: State, t: nat, c: nat, d: nat)
    requires MayDestroy(s, t, c) && !Held(s, c) && d < |s.calls| && d != c && WfState(Settle(s, t, c))
    ensures CallInv(Settle(s, t, c), d)
  {
    hide Known, WfState, Distinct;
    HeldAfter(s.threads, t, Settle(s, t, c).threads[t], d);
    assert ThreadInv(s, t) && CallFacts(s, d);
  }

  lemma SettledThreads(s: State, t: nat, c: nat, u: nat)
    requires MayDestroy(s, t, c) && !Held(s, c) && u < |s.threads| && WfState(Settle(s, t, c))
    ensures ThreadInv(Settle(s, t, c), u)
  {
    hide Distinct;
    assert ThreadInv(s, u) && ThreadInv(s, t) && CallFacts(s, c);
    assert Known(s.threads[u], |s.calls|);
    SentIfUnheld(s, c);
    assert !Holds(s.threads[u], c);
  }

  lemma SettleKeeps(s: State, t: nat, c: nat)
    requires MayDestroy(s, t, c)
    ensures Inv(Settle(s, t, c))
  {
    if !Held(s, c) {
      var s' := Settle(s, t, c);
      SettledGlobally(s, t, c);
      forall d | 0 <= d < |s'.calls| ensures CallInv(s', d) {
        if d == c { SettledCall(s, t, c); } else { SettledOthers(s, t, c, d); }
      }
      forall u | 0 <= u < |s'.threads| ensures ThreadInv(s', u) {
        SettledThreads(s, t, c, u);
      }
    }
  }

  /** A reference to `c` is given up, and nothing else changes but the locals of `t` and its hold on
      the container mutex. */
  ghost predicate GivesUp(s: State, s': State, t: nat, c: nat)
    requires WfState(s) && WfState(s') && t < |s.threads|
  {
    var pc := s.threads[t];
    && |s'.calls| == |s.calls| && c < |s.calls| && s.calls[c].phase.Alive?
    && (s'.calls == s.calls || s'.calls == s.calls[c := s.calls[c].(owned := false)])
    && s'.slots == s.slots && s'.dispatch == s.dispatch
    && |s'.threads| == |s.threads| && s'.threads == s.threads[t := s'.threads[t]]
    && (s'.owner == s.owner || {s.owner, s'.owner} == {None, Some(t)})
    && !pc.Sent? && !pc.Destroying? && !pc.EraseMarked?
    && (forall d | 0 <= d < |s.calls| :: InHandler(s', d) <==> InHandler(s, d))
    && (forall d | 0 <= d < |s.calls| && d != c :: Holds(pc, d) ==> Holds(s'.threads[t], d))
    && (forall d | 0 <= d < |s.calls| && d != c :: Holds(s'.threads[t], d) ==> Held(s, d))
    && (Creates(pc, c) ==> pc.Sending?)
  }

  lemma GivenUp(s: State, s': State, t: nat, c: nat)
    requires Inv(s) && WfState(s') && t < |s.threads| && GivesUp(s, s', t, c)
    requires LoopInv(s') && ThreadInv(s', t) && (s'.threads[t].Idle? || s'.threads[t].Releasing?)
    requires t == 0 ==> s'.dispatch != Callback(c) && (s'.dispatch.Exit? ==> s'.dispatch.c == c && s'.threads[t].Idle?)
    ensures Inv(Settle(s', t, c))
  {
    HeldAsBefore(s, s', t, Some(c));
    assert CallFacts(s', c) by { assert CallInv(s, c); }
    forall u | 0 <= u < |s.threads| && u != t ensures Respects(s, s', u, c) {
      assert ThreadInv(s, u) && CallInv(s, c);
    }
    hide Known, WfState, InHandler, Holds, Held, Inv, CallFacts;
    KeepsRest(s, s', t, Some(c), true);
    SettleKeeps(s', t, c);
  }

  /** The call finished before it could be stored. */
  lemma PushedInVainStep(s: State, t: nat)
    requires Inv(s) && t < |s.threads| && s.threads[t].Pushed? && !s.threads[t].stored
    ensures Continue(s, t).Some? ==> Inv(Continue(s, t).value)
  {
    hide Inv, CallInv, Held, Distinct;
    InvHere(s, t);
    var c := s.threads[t].c;
    HeldIsAlive(s, t, c);
    HeldHere(s, t);
    DropSettles(s.(owner := None), t, c, Idle);
    hide Settle, Drop;
    GivenUp(s, Move(s.(owner := None), t, Idle), t, c);
  }

  /** sd_bus_call_async fails, and the exception drops the call. */
  lemma SendFailsStep(s: State, t: nat)
    requires Inv(s) && t < |s.threads| && s.threads[t].Sending?
    ensures Step(s, t, SendFails).Some? ==> Inv(Step(s, t, SendFails).value)
  {
    hide Inv, CallInv, Held, Distinct;
    InvHere(s, t);
    var c := s.threads[t].c;
    HeldIsAlive(s, t, c);
    HeldHere(s, t);
    DropSettles(s, t, c, Idle);
    hide Settle, Drop;
    GivenUp(s, Move(s, t, Idle), t, c);
  }

  /** The reply handler drops what it has erased. */
  lemma HandlerDropStep(s: State, t: nat)
    requires Inv(s) && t < |s.threads| && s.threads[t].EraseUnlocked? && !s.threads[t].mine && s.threads[t].moved
    ensures Continue(s, t).Some? ==> Inv(Continue(s, t).value)
  {
    hide Inv, CallInv, Held, Distinct;
    InvHere(s, t);
    var c := s.threads[t].c;
    HeldIsAlive(s, t, c);
    HeldHere(s, t);
    DropSettles(s, t, c, Idle);
    hide Settle, Drop;
    GivenUp(s, Move(s, t, Idle), t, c);
  }

  /** cancel drops its own reference. */
  lemma CancelledStep(s: State, t: nat)
    requires Inv(s) && t < |s.threads| && s.threads[t].Cancelled?
    ensures Continue(s, t).Some? ==> Inv(Continue(s, t).value)
  {
    hide Inv, CallInv, Held, Distinct;
    InvHere(s, t);
    var c := s.threads[t].c;
    HeldIsAlive(s, t, c);
    HeldHere(s, t);
    DropSettles(s, t, c, Idle);
    hide Settle, Drop;
    GivenUp(s, Move(s, t, Idle), t, c);
  }

  /** clear drops one of the calls it has taken. */
  lemma ReleasingStep(s: State, t: nat)
    requires Inv(s) && t < |s.threads| && s.threads[t].Releasing? && s.threads[t].todo != []
    ensures Continue(s, t).Some? ==> Inv(Continue(s, t).value)
  {
    hide Inv, CallInv, Held, Distinct;
    InvHere(s, t);
    var c := s.threads[t].todo[0];
    HeldIsAlive(s, t, c);
    HeldHere(s, t);
    DropSettles(s, t, c, Releasing(s.threads[t].todo[1..]));
    hide Settle, Drop;
    GivenUp(s, Move(s, t, Releasing(s.threads[t].todo[1..])), t, c);
  }

  // ---------------------------------------------------------------------------------------
  // Steps that change one call

  /** Thread `t` changes call `c`, which it creates or destroys, or marks or takes out. */
  ghost predicate Changes(s: State, s': State, t: nat, c: nat)
    requires WfState(s) && WfState(s') && t < |s.threads|
  {
    var pc := s.threads[t];
    && |s'.calls| == |s.calls| && c < |s.calls|
    && (forall d | 0 <= d < |s.calls| && d != c :: s'.calls[d] == s.calls[d] && (d in s'.slots <==> d in s.slots))
    && s'.owner == s.owner && s'.dispatch == s.dispatch
    && |s'.threads| == |s.threads| && s'.threads == s.threads[t := s'.threads[t]]
    && (pc.Sent? || pc.Destroying? || pc.EraseMarked? ==> pc.c == c)
    && (forall d | 0 <= d < |s.calls| && d != c :: InHandler(s', d) <==> InHandler(s, d))
    && (forall d | 0 <= d < |s.calls| && d != c :: Holds(s'.threads[t], d) <==> Holds(pc, d))
    && s'.calls[c].creator == s.calls[c].creator && s'.calls[c].forUser == s.calls[c].forUser
    && (s.calls[c].slotSet ==> s'.calls[c].slotSet)
    && (|| Creates(pc, c) || Destroys(pc, c)
        || (s'.calls[c] == s.calls[c].(finished := s'.calls[c].finished)
            && (c in s'.slots ==> c in s.slots) && (InHandler(s', c) ==> InHandler(s, c))))
  }

  lemma ChangeKeeps(s: State, s': State, t: nat, c: nat)
    requires Inv(s) && WfState(s') && t < |s.threads| && Changes(s, s', t, c)
    requires Distinct(s'.slots) && LoopInv(s') && ThreadInv(s', t) && CallInv(s', c)
    ensures Inv(s')
  {
    HeldHere(s, t);
    HeldAsBefore(s, s', t, Some(c));
    forall u | 0 <= u < |s.threads| && u != t ensures Respects(s, s', u, c) {
      assert ThreadInv(s, u) && ThreadInv(s, t) && CallInv(s, c);
      assert Creates(s.threads[u], c) ==> Holds(s.threads[u], c);
      assert Creates(s.threads[t], c) ==> Holds(s.threads[t], c);
      hide Known, InHandler, HoldsShared;
    }
    hide Known, WfState, InHandler, Holds, Held, Inv;
    KeepsRest(s, s', t, Some(c), false);
  }

  /** sd_bus_call_async. */
  lemma SendingStep(s: State, t: nat)
    requires Inv(s) && t < |s.threads| && s.threads[t].Sending?
    ensures Continue(s, t).Some? ==> Inv(Continue(s, t).value)
  {
    hide Inv;
    InvAt(s, t, s.threads[t].c);
    if Continue(s, t).Some? {
      var s', c := Continue(s, t).value, s.threads[t].c;
      HeldIsAlive(s, t, c);
      HeldAfter(s.threads, t, s'.threads[t], c);
      assert WfState(s') && LoopInv(s');
      hide Known, WfState;
      ChangeKeeps(s, s', t, c);
    }
  }

  /** The sd-bus slot is stored, and the call of a user handed out. */
  lemma SentStep(s: State, t: nat)
    requires Inv(s) && t < |s.threads| && s.threads[t].Sent?
    ensures Continue(s, t).Some? ==> Inv(Continue(s, t).value)
  {
    hide Inv;
    InvAt(s, t, s.threads[t].c);
    var s', c := Continue(s, t).value, s.threads[t].c;
    HeldIsAlive(s, t, c);
    HeldAfter(s.threads, t, s'.threads[t], c);
    assert WfState(s') && LoopInv(s');
    hide Known, WfState;
    ChangeKeeps(s, s', t, c);
  }

  /** The call is stored unless it has finished. */
  lemma PushLockedStep(s: State, t: nat)
    requires Inv(s) && t < |s.threads| && s.threads[t].PushLocked?
    ensures Continue(s, t).Some? ==> Inv(Continue(s, t).value)
  {
    hide Inv;
    InvAt(s, t, s.threads[t].c);
    var s', c := Continue(s, t).value, s.threads[t].c;
    HeldIsAlive(s, t, c);
    HeldAfter(s.threads, t, s'.threads[t], c);
    assert WfState(s') && LoopInv(s');
    hide Known, WfState;
    ChangeKeeps(s, s', t, c);
  }

  /** The call is marked as finished. */
  lemma EraseLockedStep(s: State, t: nat)
    requires Inv(s) && t < |s.threads| && s.threads[t].EraseLocked?
    ensures Continue(s, t).Some? ==> Inv(Continue(s, t).value)
  {
    hide Inv;
    InvAt(s, t, s.threads[t].c);
    var s', c := Continue(s, t).value, s.threads[t].c;
    HeldAfter(s.threads, t, s'.threads[t], c);
    assert WfState(s') && LoopInv(s');
    hide Known, WfState;
    ChangeKeeps(s, s', t, c);
  }

  lemma {:induction false} WithoutKeeps<T>(slots: seq<T>, c: T)
    requires Distinct(slots)
    ensures Distinct(Without(slots, c)) && c !in Without(slots, c)
    ensures forall d | d != c :: d in Without(slots, c) <==> d in slots
    ensures forall i | 0 <= i < |Without(slots, c)| :: Without(slots, c)[i] in slots
  {
    if slots != [] && slots[0] != c {
      WithoutKeeps(slots[1..], c);
      var rest := Without(slots[1..], c);
      assert slots == [slots[0]] + slots[1..];
      assert slots[0] !in rest by {
        assert slots[0] !in slots[1..];
      }
      assert Without(slots, c) == [slots[0]] + rest;
    } else if slots != [] {
      assert slots == [slots[0]] + slots[1..];
    }
  }

  /** A marked call is taken out. */
  lemma EraseMarkedStep(s: State, t: nat)
    requires Inv(s) && t < |s.threads| && s.threads[t].EraseMarked?
    ensures Continue(s, t).Some? ==> Inv(Continue(s, t).value)
  {
    hide Inv;
    InvAt(s, t, s.threads[t].c);
    var s', c := Continue(s, t).value, s.threads[t].c;
    WithoutKeeps(s.slots, c);
    hide Without;
    assert WfState(s') && LoopInv(s') && s'.calls == s.calls && c !in s'.slots;
    TakenOut(s, s', t, c);
    hide CallInv, Held;
    assert ThreadInv(s', t);
    hide Known, WfState, Changes, ThreadInv, Continue;
    ChangeKeeps(s, s', t, c);
  }

  lemma TakenOut(s: State, s': State, t: nat, c: nat)
    requires WfState(s) && WfState(s') && t < |s.threads| && c < |s.calls| && CallInv(s, c) && ThreadInv(s, t)
    requires exists mine :: s.threads[t] == EraseMarked(c, mine) &&
               s' == Move(s.(slots := s'.slots), t, EraseDone(c, mine, c in s.slots))
    requires c !in s'.slots && forall d | d != c :: d in s'.slots <==> d in s.slots
    ensures CallInv(s', c) && Changes(s, s', t, c)
  {
    HeldAfter(s.threads, t, s'.threads[t], c);
    hide Known, WfState;
  }

  /** The sd-bus slot is released under the sd-bus mutex. */
  lemma UnreferenceStep(s: State, t: nat)
    requires Inv(s) && t < |s.threads| && s.threads[t].Destroying? && !s.threads[t].unreferenced
    ensures Continue(s, t).Some? ==> Inv(Continue(s, t).value)
  {
    hide Inv;
    InvAt(s, t, s.threads[t].c);
    if Continue(s, t).Some? {
      var s', c := Continue(s, t).value, s.threads[t].c;
      HeldAfter(s.threads, t, s'.threads[t], c);
      assert WfState(s') && LoopInv(s');
      hide Known, WfState;
      ChangeKeeps(s, s', t, c);
    }
  }

  /** The memory is freed. */
  lemma FreeStep(s: State, t: nat)
    requires Inv(s) && t < |s.threads| && s.threads[t].Destroying? && s.threads[t].unreferenced
    ensures Continue(s, t).Some? ==> Inv(Continue(s, t).value)
  {
    hide Inv;
    InvAt(s, t, s.threads[t].c);
    var s', c := Continue(s, t).value, s.threads[t].c;
    HeldAfter(s.threads, t, s'.threads[t], c);
    assert WfState(s') && LoopInv(s');
    hide Known, WfState;
    ChangeKeeps(s, s', t, c);
  }

  /** clear takes everything out. */
  lemma ClearLockedStep(s: State, t: nat)
    requires Inv(s) && t < |s.threads| && s.threads[t].ClearLocked?
    ensures Inv(Continue(s, t).value)
  {
    var s' := Continue(s, t).value;
    assert ThreadInv(s, t);
    assert WfState(s') && LoopInv(s');
    forall d | 0 <= d < |s.calls| ensures Held(s', d) <==> Held(s, d) {
      HeldAfter(s.threads, t, s'.threads[t], d);
    }
    assert HoldsShared(s', s'.threads[t]) by {
      forall c | 0 <= c < |s.calls| && c in s.slots ensures !s.calls[c].forUser && s.calls[c].slotSet {
        assert CallInv(s, c);
      }
    }
    hide Known, WfState, Held, Inv;
    KeepsRest(s, s', t, None, false);
  }

  // ---------------------------------------------------------------------------------------
  // Starting something

  lemma KnownStays(pc: Pc, n: nat)
    requires Known(pc, n)
    ensures Known(pc, n + 1) && !Holds(pc, n) && !Destroys(pc, n)
  {
  }

  /** A call that has just been made is known to its thread alone. */
  lemma NotYetKnown(s: State, u: nat)
    requires Inv(s) && u < |s.threads|
    ensures Known(s.threads[u], |s.calls| + 1)
    ensures !Holds(s.threads[u], |s.calls|) && !Destroys(s.threads[u], |s.calls|)
  {
    KnownStays(s.threads[u], |s.calls|);
  }

  lemma StartedCalls(s: State, s': State, t: nat, forUser: bool, c: nat)
    requires Inv(s) && t < |s.threads| && AtLeisure(s, t) && Step(s, t, Start(forUser)) == Some(s') && WfState(s')
    requires c < |s'.calls| && !HeldByThread(s.threads, |s.calls|)
    ensures CallInv(s', c)
  {
    hide Inv;
    InvAt(s, t, c);
    HeldAfter(s.threads, t, s'.threads[t], c);
    assert c == |s.calls| ==> !InHandler(s', c) && c !in s'.slots;
    hide Known, WfState;
  }

  lemma StartedThreads(s: State, s': State, t: nat, forUser: bool, u: nat)
    requires Inv(s) && t < |s.threads| && AtLeisure(s, t) && Step(s, t, Start(forUser)) == Some(s') && WfState(s')
    requires u < |s.threads|
    ensures ThreadInv(s', u)
  {
    hide Inv;
    InvHere(s, u);
    assert Known(s.threads[u], |s.calls|);
    assert |s.calls| !in s'.slots;
    hide Known, WfState;
  }

  lemma StartStep(s: State, t: nat, forUser: bool)
    requires Inv(s) && t < |s.threads| && AtLeisure(s, t)
    ensures Inv(Step(s, t, Start(forUser)).value)
  {
    var s' := Step(s, t, Start(forUser)).value;
    forall u | 0 <= u < |s.threads| ensures Known(s.threads[u], |s'.calls|) && !Holds(s.threads[u], |s.calls|) {
      NotYetKnown(s, u);
    }
    assert WfState(s') && LoopInv(s') by { InvHere(s, t); }
    assert Distinct(s'.slots) && |s'.threads| == |s.threads|;
    hide Known, WfState, Step, LoopInv, ThreadInv, CallInv, Holds;
    forall c | 0 <= c < |s'.calls| ensures CallInv(s', c) {
      StartedCalls(s, s', t, forUser, c);
    }
    forall u | 0 <= u < |s'.threads| ensures ThreadInv(s', u) {
      StartedThreads(s, s', t, forUser, u);
    }
  }

  lemma CancelStep(s: State, t: nat, c: nat)
    requires Inv(s) && t < |s.threads| && Polite(s, t, Cancel(c))
    ensures Step(s, t, Cancel(c)).Some? ==> Inv(Step(s, t, Cancel(c)).value)
  {
    hide Inv, CallInv, Held, Distinct;
    InvHere(s, t);
    if Step(s, t, Cancel(c)).Some? {
      LocalKeeps(s, Step(s, t, Cancel(c)).value, t);
    }
  }

  lemma ReleaseStep(s: State, t: nat, c: nat)
    requires Inv(s) && t < |s.threads| && Polite(s, t, Release(c))
    ensures Step(s, t, Release(c)).Some? ==> Inv(Step(s, t, Release(c)).value)
  {
    if Step(s, t, Release(c)).Some? {
      var s' := Set(s, c, s.calls[c].(owned := false));
      assert ThreadInv(s, t) && CallInv(s, c);
      assert s.threads[t := Idle] == s.threads;
      DropSettles(s', t, c, Idle);
      hide CallInv, Held, Distinct, Settle, Drop;
      GivenUp(s, Move(s', t, Idle), t, c);
    }
  }

  lemma UnregisterStep(s: State, t: nat)
    requires Inv(s) && t < |s.threads| && Polite(s, t, Unregister)
    ensures Step(s, t, Unregister).Some? ==> Inv(Step(s, t, Unregister).value)
  {
    hide Inv, CallInv, Held, Distinct;
    InvHere(s, t);
    if Step(s, t, Unregister).Some? {
      LocalKeeps(s, Step(s, t, Unregister).value, t);
    }
  }

  lemma ReplyStep(s: State, t: nat, c: nat)
    requires Inv(s) && t < |s.threads|
    ensures Step(s, t, Reply(c)).Some? ==> Inv(Step(s, t, Reply(c)).value)
  {
    if Step(s, t, Reply(c)).Some? {
      var s' := Step(s, t, Reply(c)).value;
      assert ThreadInv(s, t) && CallInv(s, c);
      assert WfState(s') && LoopInv(s');
      hide Known, WfState;
      forall d | 0 <= d < |s'.calls| ensures CallInv(s', d) {
        assert CallInv(s, d);
      }
      forall u | 0 <= u < |s'.threads| ensures ThreadInv(s', u) {
        assert ThreadInv(s, u);
      }
    }
  }

  lemma ReturnStep(s: State, t: nat)
    requires Inv(s) && t < |s.threads|
    ensures Step(s, t, Return).Some? ==> Inv(Step(s, t, Return).value)
  {
    hide Inv, CallInv, Held, Distinct;
    InvHere(s, t);
    if Step(s, t, Return).Some? {
      LocalKeeps(s, Step(s, t, Return).value, t);
    }
  }

  /** Every polite step keeps the invariant. */
  lemma StepKeeps(s: State, t: nat, a: Act)
    requires Inv(s) && t < |s.threads| && Polite(s, t, a)
    ensures Step(s, t, a).Some? ==> Inv(Step(s, t, a).value)
  {
    hide Inv, Continue, Held, Drop;
    match a
    case Advance => ContinueKeeps(s, t);
    case SendFails => if s.threads[t].Sending? { SendFailsStep(s, t); }
    case Start(forUser) => if AtLeisure(s, t) { StartStep(s, t, forUser); }
    case Cancel(c) => CancelStep(s, t, c);
    case Unregister => UnregisterStep(s, t);
    case Release(c) => ReleaseStep(s, t, c);
    case Reply(c) => ReplyStep(s, t, c);
    case Return => ReturnStep(s, t);
  }

  lemma ContinueKeeps(s: State, t: nat)
    requires Inv(s) && t < |s.threads|
    ensures Continue(s, t).Some? ==> Inv(Continue(s, t).value)
  {
    var pc := s.threads[t];
    hide Inv, Continue, Held, Drop, WfState;
    match pc
    case Idle => QuietStep(s, t);
    case Sending(_) => SendingStep(s, t);
    case Sent(_) => SentStep(s, t);
    case Pushing(_) => LockStep(s, t);
    case PushLocked(_) => PushLockedStep(s, t);
    case Pushed(_, stored) => if stored { UnlockStep(s, t); } else { PushedInVainStep(s, t); }
    case Erasing(_, _) => LockStep(s, t);
    case EraseLocked(_, _) => EraseLockedStep(s, t);
    case EraseMarked(_, _) => EraseMarkedStep(s, t);
    case EraseDone(_, _, _) => UnlockStep(s, t);
    case EraseUnlocked(_, mine, moved) => if mine || !moved { QuietStep(s, t); } else { HandlerDropStep(s, t); }
    case Cancelled(_) => CancelledStep(s, t);
    case Clearing => LockStep(s, t);
    case ClearLocked => ClearLockedStep(s, t);
    case ClearMoved(_) => UnlockStep(s, t);
    case Releasing(todo) => if todo == [] { QuietStep(s, t); } else { ReleasingStep(s, t); }
    case Destroying(_, unreferenced, _) => if unreferenced { FreeStep(s, t); } else { UnreferenceStep(s, t); }
  }
}
