/** The hand-shake between a coroutine that awaits an asynchronous call and the reply callback that
    completes it (include/sdbus-c++/Awaitable.h, src/Proxy.cpp): one co_await and at most one
    callback, interleaved between any two accesses to the shared data. */
module Awaitables {
  import opened Options

  datatype Status = NotReady | Waiting | Completed

  datatype Coroutine =
    | BeforeAwait      // before await_ready
    | NotReadyYet      // await_ready has returned false
    | HandleStored     // await_suspend has stored the handle
    | Suspended        // await_suspend has returned true
    | Continued

  datatype Reply =
    | NoReply
    | ResultStored
    | Resuming         // the exchange has found a waiting coroutine
    | Over

  datatype State<R> = State(
    result: Option<R>,
    status: Status,
    handle: bool,
    coroutine: Coroutine,
    reply: Reply,
    resumes: nat,      // how often the coroutine has gone on after the co_await
    got: Option<R>)    // what await_resume has found

  datatype Step<R> = Await | Complete(value: R)

  function Initially<R>(): State<R> {
    State(None, NotReady, false, BeforeAwait, NoReply, 0, None)
  }

  /** `await_resume`. */
  function GoOn<R>(s: State<R>): State<R> {
    s.(coroutine := Continued, resumes := s.resumes + 1, got := s.result)
  }

  /** The next access of the coroutine, or None if it is suspended or has gone on. */
  function AwaitStep<R>(s: State<R>): Option<State<R>> {
    match s.coroutine
    case BeforeAwait => Some(if s.status.Completed? then GoOn(s) else s.(coroutine := NotReadyYet))
    case NotReadyYet => Some(s.(handle := true, coroutine := HandleStored))
    case HandleStored =>    // compare_exchange_strong
      Some(if s.status.NotReady? then s.(status := Waiting, coroutine := Suspended) else GoOn(s))
    case Suspended => None
    case Continued => None
  }

  /** The next access of the callback, which is given `value`. */
  function CompleteStep<R>(s: State<R>, value: R): Option<State<R>> {
    match s.reply
    case NoReply => Some(s.(result := Some(value), reply := ResultStored))
    case ResultStored => Some(s.(status := Completed, reply := if s.status.Waiting? then Resuming else Over))
    case Resuming => Some(GoOn(s.(reply := Over)))
    case Over => None
  }

  function Next<R>(s: State<R>, step: Step<R>): Option<State<R>> {
    match step case Await => AwaitStep(s) case Complete(v) => CompleteStep(s, v)
  }

  predicate IsRun<R(==)>(s: State<R>, steps: seq<Step<R>>, s': State<R>)
    decreases |steps|
  {
    if steps == [] then s == s'
    else Next(s, steps[0]).Some? && IsRun(Next(s, steps[0]).value, steps[1..], s')
  }

  predicate Inv<R(==)>(s: State<R>) {
    && (s.reply.NoReply? <==> s.result.None?)
    && (s.status.Completed? <==> s.reply.Resuming? || s.reply.Over?)
    && (s.status.Waiting? ==> s.coroutine.Suspended?)
    && (s.coroutine.HandleStored? ==> s.handle)
    && (s.coroutine.Suspended? ==> s.handle && !s.status.NotReady? && !s.reply.Over?)
    && (s.reply.Resuming? ==> s.coroutine.Suspended?)
    && s.resumes == (if s.coroutine.Continued? then 1 else 0)
    && (s.coroutine.Continued? ==> s.status.Completed? && s.got == s.result)
  }

  lemma NextKeeps<R>(s: State<R>, step: Step<R>)
    requires Inv(s) && Next(s, step).Some?
    ensures Inv(Next(s, step).value)
    ensures s.result.Some? ==> Next(s, step).value.result == s.result
  {
  }

  lemma {:induction false} RunKeeps<R>(s: State<R>, steps: seq<Step<R>>, s': State<R>)
    requires Inv(s) && IsRun(s, steps, s')
    ensures Inv(s') && (s.result.Some? ==> s'.result == s.result)
    decreases |steps|
  {
    if steps != [] {
      NextKeeps(s, steps[0]);
      RunKeeps(Next(s, steps[0]).value, steps[1..], s');
    }
  }

  /** In every interleaving the coroutine goes on at most once, and only with the result the
      callback has stored. */
  lemma ContinuesOnceWithResult<R>(steps: seq<Step<R>>, s: State<R>)
    requires IsRun(Initially(), steps, s)
    ensures s.resumes <= 1
    ensures s.resumes == 1 <==> s.coroutine.Continued?
    ensures s.resumes == 1 ==> s.got.Some? && s.got == s.result
  {
    RunKeeps(Initially(), steps, s);
  }

  /** A callback that is about to resume the coroutine finds its handle stored and the coroutine
      suspended. */
  lemma ResumesWithHandle<R>(steps: seq<Step<R>>, s: State<R>)
    requires IsRun(Initially(), steps, s) && s.reply.Resuming?
    ensures s.handle && s.coroutine.Suspended? && s.resumes == 0
  {
    RunKeeps(Initially(), steps, s);
  }

  /** When both the co_await and the callback have happened, the coroutine has gone on exactly once:
      neither of them can end with it still suspended. */
  lemma BothMeansOnce<R>(steps: seq<Step<R>>, s: State<R>, value: R)
    requires IsRun(Initially(), steps, s) && AwaitStep(s).None? && CompleteStep(s, value).None?
    ensures s.resumes == 1 && s.coroutine.Continued?
  {
    RunKeeps(Initially(), steps, s);
  }

  function StepsLeft(co: Coroutine, reply: Reply): nat {
    (match co case BeforeAwait => 3 case NotReadyYet => 2 case HandleStored => 1 case _ => 0) +
    (match reply case NoReply => 3 case ResultStored => 2 case Resuming => 1 case Over => 0)
  }

  /** From every reachable state the two sides get there in at most six steps, whatever the order,
      and the coroutine receives the reply of the one callback. */
  lemma {:induction false} BothFinish<R>(s: State<R>, steps: seq<Step<R>>, s': State<R>, value: R)
    requires Inv(s) && IsRun(s, steps, s')
    requires forall i | 0 <= i < |steps| :: steps[i] == Await || steps[i] == Complete(value)
    requires s.result.Some? ==> s.result.value == value
    ensures |steps| + StepsLeft(s'.coroutine, s'.reply) <= StepsLeft(s.coroutine, s.reply)
    ensures AwaitStep(s').None? && CompleteStep(s', value).None? ==> s'.resumes == 1 && s'.got == Some(value)
    decreases |steps|
  {
    if steps != [] {
      NextKeeps(s, steps[0]);
      BothFinish(Next(s, steps[0]).value, steps[1..], s', value);
    }
  }
}
