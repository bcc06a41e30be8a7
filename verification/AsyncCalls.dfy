/** Asynchronous calls of a proxy (src/Proxy.cpp, src/Proxy.h): caller threads, cancelling threads
    and one event-loop thread (thread 0), interleaved between any two steps, over the sd-bus
    mutex and the mutex of the container of pending calls.

    The recursive sd-bus mutex is held by the event loop for as long as it dispatches a reply; the
    other operations that take it (sd_bus_call_async, sd_bus_slot_unref) do nothing else while
    they hold it and are one step each. */
module AsyncCalls {
  import opened Options

  /** An AsyncCallInfo: alive while there is a strong reference; then its members are destroyed by
      one thread, the sd-bus slot before the callback; then the memory is gone. */
  datatype Phase = Alive | Dying(destroyer: nat) | Freed

  datatype Call = Call(
    creator: nat,
    forUser: bool,       // callMethodAsync with return_slot: no PendingAsyncCall, not in the container
    phase: Phase,
    owned: bool,         // held by a Slot of the user
    registered: bool,    // sd-bus will call the reply handler
    slotSet: bool,       // asyncCallInfo->slot holds the sd-bus slot
    finished: bool,
    started: bool)       // the callback has been entered

  datatype Pc =
    | Idle
    // callMethodAsync
    | Sending(c: nat)
    | Sent(c: nat)
    | Pushing(c: nat)
    | PushLocked(c: nat)
    | Pushed(c: nat, stored: bool)
    // erase; `mine` is the strong reference of PendingAsyncCall::cancel
    | Erasing(c: nat, mine: bool)
    | EraseLocked(c: nat, mine: bool)
    | EraseMarked(c: nat, mine: bool)
    | EraseDone(c: nat, mine: bool, moved: bool)
    | EraseUnlocked(c: nat, mine: bool, moved: bool)
    | Cancelled(c: nat)
    // clear
    | Clearing
    | ClearLocked
    | ClearMoved(todo: seq<nat>)
    | Releasing(todo: seq<nat>)
    // ~AsyncCallInfo, started by dropping the last reference
    | Destroying(c: nat, unreferenced: bool, next: Pc)

  /** What the event loop does inside sd_bus_process: run the callback of a call, then the erase
      at the exit of the reply handler. */
  datatype Dispatch = NoReply | Callback(c: nat) | Exit(c: nat)

  datatype State = State(
    calls: seq<Call>,
    slots: seq<nat>,         // slots_
    owner: Option<nat>,      // who holds the container mutex
    dispatch: Dispatch,
    threads: seq<Pc>)

  // ---------------------------------------------------------------------------------------
  // Reading a state

  predicate InCritical(pc: Pc) {
    || pc.PushLocked? || pc.Pushed? || pc.EraseLocked? || pc.EraseMarked? || pc.EraseDone?
    || pc.ClearLocked? || pc.ClearMoved?
  }

  /** The thread keeps a shared_ptr to call `c` in a local variable. */
  predicate Holds(pc: Pc, c: nat) {
    match pc
    case Sending(d) => d == c
    case Sent(d) => d == c
    case Pushing(d) => d == c
    case PushLocked(d) => d == c
    case Pushed(d, stored) => d == c && !stored
    case Erasing(d, mine) => d == c && mine
    case EraseLocked(d, mine) => d == c && mine
    case EraseMarked(d, mine) => d == c && mine
    case EraseDone(d, mine, moved) => d == c && (mine || moved)
    case EraseUnlocked(d, mine, moved) => d == c && (mine || moved)
    case Cancelled(d) => d == c
    case ClearMoved(todo) => c in todo
    case Releasing(todo) => c in todo
    case Destroying(_, _, next) => next.Releasing? && c in next.todo
    case _ => false
  }

  predicate Creates(pc: Pc, c: nat) {
    (pc.Sending? || pc.Sent? || pc.Pushing? || pc.PushLocked?) && pc.c == c
  }

  predicate Destroys(pc: Pc, c: nat) {
    pc.Destroying? && pc.c == c
  }

  predicate HeldByThread(threads: seq<Pc>, c: nat) {
    exists t | 0 <= t < |threads| :: Holds(threads[t], c)
  }

  /** Some strong reference exists; `PendingAsyncCall::isPending`. */
  predicate Held(s: State, c: nat)
    requires c < |s.calls|
  {
    c in s.slots || s.calls[c].owned || HeldByThread(s.threads, c)
  }

  /** Thread `t` may take the recursive sd-bus mutex. */
  predicate SdBusFree(s: State, t: nat) {
    s.dispatch.NoReply? || t == 0
  }

  // ---------------------------------------------------------------------------------------
  // Steps

  /** A thread moves on, or starts something when it is idle. */
  datatype Act =
    | Advance
    | SendFails
    | Start(forUser: bool)     // callMethodAsync
    | Cancel(c: nat)           // PendingAsyncCall::cancel, at any time after the slot is stored
    | Unregister               // unregister, or the destructor of the proxy
    | Release(c: nat)          // the user destroys its Slot
    | Reply(c: nat)            // sd_bus_process takes up the reply to `c`
    | Return                   // the callback returns

  predicate Known(pc: Pc, n: nat) {
    match pc
    case Idle => true
    case Clearing => true
    case ClearLocked => true
    case ClearMoved(todo) => forall i | 0 <= i < |todo| :: todo[i] < n
    case Releasing(todo) => forall i | 0 <= i < |todo| :: todo[i] < n
    case Destroying(c, _, next) => c < n && (next.Idle? || (next.Releasing? && Known(next, n)))
    case _ => pc.c < n
  }

  predicate WfState(s: State) {
    && 0 < |s.threads|
    && (forall i | 0 <= i < |s.slots| :: s.slots[i] < |s.calls|)
    && (forall t | 0 <= t < |s.threads| :: Known(s.threads[t], |s.calls|))
    && (!s.dispatch.NoReply? ==> s.dispatch.c < |s.calls|)
  }

  function Move(s: State, t: nat, pc: Pc): State
    requires t < |s.threads|
  {
    s.(threads := s.threads[t := pc])
  }

  function Lock(s: State, t: nat, pc: Pc): Option<State>
    requires t < |s.threads|
  {
    if s.owner.None? then Some(Move(s.(owner := Some(t)), t, pc)) else None
  }

  function Unlock(s: State, t: nat, pc: Pc): State
    requires t < |s.threads|
  {
    Move(s.(owner := None), t, pc)
  }

  function Set(s: State, c: nat, call: Call): State
    requires c < |s.calls|
  {
    s.(calls := s.calls[c := call])
  }

  /** Thread `t` gives up a reference to `c` and goes on at `next`; whoever gives up the last one
      destroys the object. */
  function Drop(s: State, t: nat, c: nat, next: Pc): State
    requires t < |s.threads| && c < |s.calls|
  {
    var s' := Move(s, t, next);
    if Held(s', c) then s'
    else Move(Set(s, c, s.calls[c].(phase := Dying(t))), t, Destroying(c, !s.calls[c].slotSet, next))
  }

  /** `slots_.erase(it)` for the entry of `c`. */
  function Without<T(==)>(slots: seq<T>, c: T): seq<T> {
    if slots == [] then []
    else if slots[0] == c then slots[1..]
    else [slots[0]] + Without(slots[1..], c)
  }

  /** The next step of a thread that is in the middle of something. */
  function Continue(s: State, t: nat): Option<State>
    requires WfState(s) && t < |s.threads|
  {
    match s.threads[t]
    case Idle => if t == 0 && s.dispatch.Exit? then Some(s.(dispatch := NoReply)) else None
    case Sending(c) =>
      if SdBusFree(s, t) then Some(Move(Set(s, c, s.calls[c].(registered := true)), t, Sent(c))) else None
    case Sent(c) =>
      if s.calls[c].forUser then Some(Move(Set(s, c, s.calls[c].(slotSet := true, owned := true)), t, Idle))
      else Some(Move(Set(s, c, s.calls[c].(slotSet := true)), t, Pushing(c)))
    case Pushing(c) => Lock(s, t, PushLocked(c))
    case PushLocked(c) =>
      if s.calls[c].finished then Some(Move(s, t, Pushed(c, false)))
      else Some(Move(s.(slots := s.slots + [c]), t, Pushed(c, true)))
    case Pushed(c, stored) =>
      if stored then Some(Unlock(s, t, Idle)) else Some(Drop(s.(owner := None), t, c, Idle))
    case Erasing(c, mine) => Lock(s, t, EraseLocked(c, mine))
    case EraseLocked(c, mine) => Some(Move(Set(s, c, s.calls[c].(finished := true)), t, EraseMarked(c, mine)))
    case EraseMarked(c, mine) =>
      Some(Move(s.(slots := Without(s.slots, c)), t, EraseDone(c, mine, c in s.slots)))
    case EraseDone(c, mine, moved) => Some(Unlock(s, t, EraseUnlocked(c, mine, moved)))
    case EraseUnlocked(c, mine, moved) =>
      if mine then Some(Move(s, t, Cancelled(c)))
      else if moved then Some(Drop(s, t, c, Idle))
      else Some(Move(s, t, Idle))
    case Cancelled(c) => Some(Drop(s, t, c, Idle))
    case Clearing => Lock(s, t, ClearLocked)
    case ClearLocked => Some(Move(s.(slots := []), t, ClearMoved(s.slots)))
    case ClearMoved(todo) => Some(Unlock(s, t, Releasing(todo)))
    case Releasing(todo) =>
      if todo == [] then Some(Move(s, t, Idle)) else Some(Drop(s, t, todo[0], Releasing(todo[1..])))
    case Destroying(c, unreferenced, next) =>
      if unreferenced then Some(Move(Set(s, c, s.calls[c].(phase := Freed)), t, next))
      else if SdBusFree(s, t) then
        Some(Move(Set(s, c, s.calls[c].(registered := false)), t, Destroying(c, true, next)))
      else None
  }

  /** Thread `t` is at a point where its own code runs: not in the library, or in a callback. */
  predicate AtLeisure(s: State, t: nat)
    requires t < |s.threads|
  {
    s.threads[t].Idle? && (t == 0 ==> !s.dispatch.Exit?)
  }

  function Step(s: State, t: nat, a: Act): Option<State>
    requires WfState(s) && t < |s.threads|
  {
    match a
    case Advance => Continue(s, t)
    case SendFails =>
      if s.threads[t].Sending? then Some(Drop(s, t, s.threads[t].c, Idle)) else None
    case Start(forUser) =>
      if AtLeisure(s, t)
      then
        var call := Call(t, forUser, Alive, false, false, false, false, false);
        Some(Move(s.(calls := s.calls + [call]), t, Sending(|s.calls|)))
      else None
    case Cancel(c) =>
      if AtLeisure(s, t) && c < |s.calls| && Held(s, c) && !s.calls[c].forUser && s.calls[c].slotSet
      then Some(Move(s, t, Erasing(c, true))) else None
    case Unregister => if AtLeisure(s, t) then Some(Move(s, t, Clearing)) else None
    case Release(c) =>
      if AtLeisure(s, t) && c < |s.calls| && s.calls[c].owned
      then Some(Drop(Set(s, c, s.calls[c].(owned := false)), t, c, Idle)) else None
    case Reply(c) =>
      if t == 0 && s.threads[0].Idle? && s.dispatch.NoReply? && c < |s.calls| && s.calls[c].registered
      then Some(Set(s, c, s.calls[c].(registered := false, started := true)).(dispatch := Callback(c)))
      else None
    case Return =>
      if t == 0 && s.threads[0].Idle? && s.dispatch.Callback?
      then Some(Move(s.(dispatch := Exit(s.dispatch.c)), 0, Erasing(s.dispatch.c, false)))
      else None
  }

  /** Inside its own callback a call is neither cancelled nor released, and the proxy is not
      unregistered. */
  predicate Polite(s: State, t: nat, a: Act) {
    t == 0 && s.dispatch.Callback? ==> !a.Unregister? && a != Cancel(s.dispatch.c) && a != Release(s.dispatch.c)
  }

  // ---------------------------------------------------------------------------------------
  // Invariant

  /** A thread has got hold of `c` or is about to get hold of whatever is stored. */
  predicate Involves(pc: Pc, c: nat) {
    Holds(pc, c) || Destroys(pc, c) || pc.Clearing? || pc.ClearLocked?
  }

  /** The reply handler of `c` is still going to touch the object. */
  predicate InHandler(s: State, c: nat)
    requires WfState(s)
  {
    || s.dispatch == Callback(c)
    || (s.dispatch == Exit(c) && (s.threads[0] == Erasing(c, false) || s.threads[0] == EraseLocked(c, false)))
  }

  predicate IsErase(pc: Pc) {
    pc.Erasing? || pc.EraseLocked? || pc.EraseMarked? || pc.EraseDone? || pc.EraseUnlocked?
  }

  /** Where the event loop is after the callback of `c`. */
  predicate AtExit(pc: Pc, c: nat) {
    || pc.Idle?
    || (IsErase(pc) && pc.c == c && !pc.mine)
    || (pc.Destroying? && pc.c == c && pc.next.Idle?)
  }

  /** Once its slot is stored, a call of the user is held by its Slot alone, any other by anyone. */
  predicate HoldsShared(s: State, pc: Pc) {
    || pc.Sending? || pc.Sent?
    || forall c | 0 <= c < |s.calls| && Holds(pc, c) :: !s.calls[c].forUser && s.calls[c].slotSet
  }

  predicate ThreadInv(s: State, t: nat)
    requires WfState(s) && t < |s.threads|
  {
    var pc := s.threads[t];
    && (InCritical(pc) <==> s.owner == Some(t))
    && (IsErase(pc) && !pc.mine ==> t == 0 && s.dispatch == Exit(pc.c))
    && (pc.Sending? || pc.Sent? || pc.Pushing? || pc.PushLocked? ==>
          s.calls[pc.c].creator == t && !s.calls[pc.c].owned && pc.c !in s.slots)
    && (pc.Sending? ==> !s.calls[pc.c].registered && !s.calls[pc.c].started)
    && HoldsShared(s, pc)
    && (pc.Destroying? ==>
          && s.calls[pc.c].phase == Dying(t)
          && (pc.unreferenced ==> !s.calls[pc.c].registered && !InHandler(s, pc.c)))
  }

  predicate CallInv(s: State, c: nat)
    requires WfState(s) && c < |s.calls|
  {
    (s.calls[c].phase.Alive? <==> Held(s, c)) && CallFacts(s, c)
  }

  predicate CallFacts(s: State, c: nat)
    requires WfState(s) && c < |s.calls|
  {
    var call := s.calls[c];
    && (call.phase.Dying? ==>
          call.phase.destroyer < |s.threads| && Destroys(s.threads[call.phase.destroyer], c))
    && (call.phase.Freed? ==> !call.registered && !InHandler(s, c))
    && ((call.registered || call.started) && !call.slotSet ==>
          call.creator < |s.threads| && s.threads[call.creator] == Sent(c))
    && (call.owned ==> call.forUser && call.slotSet)
    && (c in s.slots ==> !call.forUser && call.slotSet && !call.owned)
    && (c in s.slots && call.finished ==>
          && s.owner.Some? && s.owner.value < |s.threads|
          && s.threads[s.owner.value].EraseMarked? && s.threads[s.owner.value].c == c)
    && (call.started ==> !call.registered && (call.finished || InHandler(s, c)))
    && (InHandler(s, c) ==> call.started)
  }

  predicate LoopInv(s: State)
    requires WfState(s)
  {
    && (s.dispatch.Callback? ==> !Involves(s.threads[0], s.dispatch.c))
    && (s.dispatch.Exit? ==> AtExit(s.threads[0], s.dispatch.c))
    && (s.owner.Some? ==> s.owner.value < |s.threads|)
  }

  predicate Distinct<T(==)>(slots: seq<T>) {
    forall i, j | 0 <= i < j < |slots| :: slots[i] != slots[j]
  }

  predicate Inv(s: State) {
    && WfState(s)
    && Distinct(s.slots)
    && LoopInv(s)
    && (forall t | 0 <= t < |s.threads| :: ThreadInv(s, t))
    && (forall c | 0 <= c < |s.calls| :: CallInv(s, c))
  }
}
