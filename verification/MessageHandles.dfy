/** Message objects as handles that own references to sd-bus messages: construction, copy, move,
    assignment and destruction (src/Message.cpp). */
module MessageHandles {
  import opened Options

  /** A Message object; `msg` is msg_ and `connected` says that connection_ is set. */
  datatype Handle = Gone | Handle(msg: Option<nat>, connected: bool)

  predicate Refers(h: Handle, m: nat) {
    h == Handle(Some(m), true)
  }

  /** How many live handles refer to message `m`. */
  function Count(handles: seq<Handle>, m: nat): nat {
    if handles == [] then 0 else Count(handles[1..], m) + if Refers(handles[0], m) then 1 else 0
  }

  class Handles {
    var handles: seq<Handle>
    var refs: map<nat, nat>    // references to sd-bus messages that the library owns

    constructor ()
      ensures Valid() && handles == []
    {
      handles, refs := [], map[];
    }

    function Owned(m: nat): nat
      reads this
    {
      if m in refs then refs[m] else 0
    }

    /** Each message's references are exactly its live handles, and no handle has a message without
        a connection. */
    ghost predicate Valid()
      reads this
    {
      && (forall m: nat :: Owned(m) == Count(handles, m))
      && (forall i | 0 <= i < |handles| && handles[i].Handle? && handles[i].msg.Some? :: handles[i].connected)
    }

    /** `incrementMessageRefCount`: somebody must be holding the message. */
    method Increment(m: nat)
      requires Owned(m) > 0
      modifies this`refs
      ensures refs == old(refs)[m := old(Owned(m)) + 1]
    {
      refs := refs[m := Owned(m) + 1];
    }

    /** `decrementMessageRefCount`. */
    method Decrement(m: nat)
      requires Owned(m) > 0
      modifies this`refs
      ensures refs == old(refs)[m := old(Owned(m)) - 1 as nat]
    {
      refs := refs[m := Owned(m) - 1];
    }

    /** Takes over a reference to `m`, or adds one while the caller keeps its own. */
    method Construct(m: nat) returns (h: nat)
      requires Valid()
      modifies this
      ensures Valid() && h == |old(handles)| && handles == old(handles) + [Handle(Some(m), true)]
    {
      refs := refs[m := Owned(m) + 1];
      CountAppend(handles, Handle(Some(m), true));
      h, handles := |handles|, handles + [Handle(Some(m), true)];
    }

    predicate Live(h: nat)
      reads this
    {
      h < |handles| && handles[h].Handle?
    }

    /** A handle that may be copied from. */
    predicate Source(h: nat)
      reads this
    {
      Live(h) && handles[h].msg.Some?
    }

    /** `operator=(const Message&)`, to itself and to another handle of the same message too. */
    method CopyAssign(dst: nat, src: nat)
      requires Valid() && Live(dst) && Source(src)
      modifies this
      ensures Valid() && handles == old(handles)[dst := old(handles)[src]]
    {
      if dst == src { return; }
      var target := handles[src];
      CountTwo(handles, dst, src);
      CountAfter(handles, dst, target);
      assert Refers(target, target.msg.value);
      if handles[dst].msg.Some? {
        assert Refers(handles[dst], handles[dst].msg.value);
        Decrement(handles[dst].msg.value);
      }
      assert Owned(target.msg.value) > 0;    // held by `src`
      Increment(target.msg.value);
      handles := handles[dst := target];
      forall m: nat ensures Owned(m) == Count(handles, m) {
        assert old(Owned(m)) == Count(old(handles), m);
        assert Refers(old(handles)[dst], m) <==> old(handles)[dst].msg == Some(m);
        assert Refers(target, m) <==> target.msg == Some(m);
      }
    }

    /** `Message(const Message&)`. */
    method CopyConstruct(src: nat) returns (h: nat)
      requires Valid() && Source(src)
      modifies this
      ensures Valid() && h == |old(handles)| && handles == old(handles) + [old(handles)[src]]
    {
      CountAppend(handles, Handle(None, false));
      h, handles := |handles|, handles + [Handle(None, false)];
      CopyAssign(h, src);
    }

    /** `operator=(Message&&)`. Moving a handle to itself gives up its reference and empties it. */
    method MoveAssign(dst: nat, src: nat)
      requires Valid() && Live(dst) && Live(src)
      modifies this
      ensures Valid()
      ensures handles == if dst == src then old(handles)[dst := Handle(None, false)]
                         else old(handles)[dst := old(handles)[src]][src := Handle(None, false)]
    {
      hide Count;
      ghost var gone := handles[dst];
      if handles[dst].msg.Some? {
        CountTwo(handles, dst, dst);
        assert Refers(handles[dst], handles[dst].msg.value);
        Decrement(handles[dst].msg.value);
      }
      CountAfter(handles, dst, Handle(None, false));
      handles := handles[dst := Handle(None, false)];
      if dst != src {
        var target := handles[src];
        CountAfter(handles, dst, target);
        handles := handles[dst := target];
        CountAfter(handles, src, Handle(None, false));
        handles := handles[src := Handle(None, false)];
      }
      forall m: nat ensures Owned(m) == Count(handles, m) {
        assert old(Owned(m)) == Count(old(handles), m);
        assert Refers(gone, m) <==> gone.msg == Some(m);
      }
    }

    /** `Message(Message&&)`. */
    method MoveConstruct(src: nat) returns (h: nat)
      requires Valid() && Live(src)
      modifies this
      ensures Valid() && h == |old(handles)|
      ensures handles == old(handles)[src := Handle(None, false)] + [old(handles)[src]]
    {
      CountAppend(handles, Handle(None, false));
      h, handles := |handles|, handles + [Handle(None, false)];
      MoveAssign(h, src);
    }

    /** `~Message`. */
    method Destroy(h: nat)
      requires Valid() && Live(h)
      modifies this
      ensures Valid() && handles == old(handles)[h := Gone]
    {
      ghost var gone := handles[h];
      CountTwo(handles, h, h);
      CountAfter(handles, h, Gone);
      if handles[h].msg.Some? {
        assert Refers(handles[h], handles[h].msg.value);
        Decrement(handles[h].msg.value);
      }
      handles := handles[h := Gone];
      forall m: nat ensures Owned(m) == Count(handles, m) {
        assert old(Owned(m)) == Count(old(handles), m);
        assert Refers(gone, m) <==> gone.msg == Some(m);
      }
    }
  }

  lemma {:induction false} CountAppend(handles: seq<Handle>, h: Handle)
    ensures forall m: nat :: Count(handles + [h], m) == Count(handles, m) + if Refers(h, m) then 1 else 0
  {
    if handles == [] {
      assert handles + [h] == [h] && [h][1..] == [];
    } else {
      assert (handles + [h])[1..] == handles[1..] + [h];
      CountAppend(handles[1..], h);
    }
  }

  lemma {:induction false} CountAfter(handles: seq<Handle>, i: nat, h: Handle)
    requires i < |handles|
    ensures forall m: nat :: Count(handles[i := h], m) + (if Refers(handles[i], m) then 1 else 0) ==
                             Count(handles, m) + if Refers(h, m) then 1 else 0
  {
    if i == 0 {
      assert handles[i := h][1..] == handles[1..];
    } else {
      assert handles[i := h][1..] == handles[1..][i - 1 := h];
      CountAfter(handles[1..], i - 1, h);
    }
  }

  /** A message is counted at least once for each handle that refers to it. */
  lemma {:induction false} CountTwo(handles: seq<Handle>, i: nat, j: nat)
    requires i < |handles| && j < |handles|
    ensures forall m: nat | Refers(handles[i], m) :: Count(handles, m) >= 1
    ensures forall m: nat | Refers(handles[j], m) :: Count(handles, m) >= 1
    ensures forall m: nat | i != j && Refers(handles[i], m) && Refers(handles[j], m) :: Count(handles, m) >= 2
  {
    CountAfter(handles, i, Gone);
    CountAfter(handles, j, Gone);
    CountAfter(handles[i := Gone], j, Gone);
  }

  /** A message that a live handle refers to still has a reference. */
  lemma NeverZeroWhileHeld(handles: seq<Handle>, m: nat)
    ensures Count(handles, m) > 0 <==> exists i | 0 <= i < |handles| :: Refers(handles[i], m)
  {
    if handles != [] {
      NeverZeroWhileHeld(handles[1..], m);
      assert handles == [handles[0]] + handles[1..];
    }
  }
}
