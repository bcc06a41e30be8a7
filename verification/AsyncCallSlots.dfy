/** The critical sections of FloatingAsyncCallSlots as code (src/Proxy.cpp, src/Proxy.h): the
    container of pending calls and the `finished` flag of a call. What they do to the container is
    what the steps of `AsyncCalls` do to `slots`. */
module AsyncCallSlots {
  import opened AsyncCalls
  import opened AsyncCallsInvariant

  class AsyncCallInfo {
    var finished: bool

    constructor ()
      ensures !finished
    {
      finished := false;
    }
  }

  class FloatingAsyncCallSlots {
    var slots: seq<AsyncCallInfo>    // slots_

    constructor ()
      ensures slots == []
    {
      slots := [];
    }

    /** No stored call is finished, none is stored twice. */
    ghost predicate Valid()
      reads this, slots
    {
      && (forall i | 0 <= i < |slots| :: !slots[i].finished)
      && Distinct(slots)
    }

    /** `push_back`: the call may have finished in the meantime. */
    method PushBack(info: AsyncCallInfo)
      requires Valid() && info !in slots
      modifies this
      ensures Valid()
      ensures slots == if info.finished then old(slots) else old(slots) + [info]
    {
      if !info.finished {
        slots := slots + [info];
      }
    }

    /** `erase`: marks the call and takes it out; `moved` is the reference that the caller drops
        after unlocking. */
    method Erase(info: AsyncCallInfo) returns (moved: bool)
      requires Valid()
      modifies this, info
      ensures Valid() && info.finished && info !in slots
      ensures slots == Without(old(slots), info) && (moved <==> info in old(slots))
    {
      ghost var before := slots;
      info.finished := true;
      var it := 0;
      while it < |slots| && slots[it] != info    // find_if
        invariant it <= |slots| && slots == before
        invariant forall i | 0 <= i < it :: slots[i] != info
      {
        it := it + 1;
      }
      moved := it < |slots|;
      WithoutFound(slots, info, it);
      WithoutKeeps(slots, info);
      hide Without, Distinct;
      if moved {
        slots := slots[..it] + slots[it + 1..];
      }
    }

    /** `clear`: takes everything out, to be dropped after unlocking. */
    method Clear() returns (taken: seq<AsyncCallInfo>)
      modifies this
      ensures Valid() && slots == [] && taken == old(slots)
    {
      taken := slots;
      slots := [];
    }
  }

  /** What the critical sections do to the container is what the steps of the protocol do to it. */
  lemma StepsOfTheContainer(s: State, t: nat)
    requires WfState(s) && t < |s.threads|
    ensures match s.threads[t]
            case PushLocked(c) =>
              && Continue(s, t).Some?
              && Continue(s, t).value.slots == if s.calls[c].finished then s.slots else s.slots + [c]
            case EraseLocked(c, _) => Continue(s, t).Some? && Continue(s, t).value.calls[c].finished
            case EraseMarked(c, mine) =>
              && Continue(s, t).Some? && Continue(s, t).value.slots == Without(s.slots, c)
              && Continue(s, t).value.threads[t] == EraseDone(c, mine, c in s.slots)
            case ClearLocked =>
              && Continue(s, t).Some? && Continue(s, t).value.slots == []
              && Continue(s, t).value.threads[t] == ClearMoved(s.slots)
            case _ => Continue(s, t).Some? ==> Continue(s, t).value.slots == s.slots
  {
    hide Held, Without;
  }

  /** Taking out the first match by position is `Without`. */
  lemma {:induction false} WithoutFound<T>(slots: seq<T>, c: T, it: nat)
    requires it <= |slots| && (forall i | 0 <= i < it :: slots[i] != c) && (it < |slots| ==> slots[it] == c)
    ensures Without(slots, c) == if it < |slots| then slots[..it] + slots[it + 1..] else slots
  {
    if it == 0 {
      assert slots != [] ==> slots[..0] + slots[1..] == slots[1..];
    } else {
      var rest := slots[1..];
      assert slots[0] != c && Without(slots, c) == [slots[0]] + Without(rest, c);
      hide Without;
      assert forall i | 0 <= i < it - 1 :: rest[i] == slots[i + 1];
      WithoutFound(rest, c, it - 1);
      CutCons(slots, it);
    }
  }

  lemma CutCons<T>(slots: seq<T>, it: nat)
    requires 0 < it <= |slots|
    ensures it < |slots| ==>
              [slots[0]] + (slots[1..][..it - 1] + slots[1..][it..]) == slots[..it] + slots[it + 1..]
    ensures [slots[0]] + slots[1..] == slots
  {
  }
}
