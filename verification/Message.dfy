/** sdbus::Message: the serialisation operators as they move the sd-bus message and the `ok_`
    flag (include/sdbus-c++/Message.h, src/Message.cpp). */
module Messages {
  import opened Options
  import opened TypeTraits
  import opened SdBus
  import opened Values

  /** How a call ends: normally, by throwing sdbus::Error, or in undefined behaviour. */
  datatype Outcome = Done | Threw | Crashed

  function OutcomeOf<T>(r: Res<T>): Outcome {
    match r case Got(_) => Done case Throws => Threw case Crashes => Crashed
  }

  /** A message is built first; sealing rewinds it for reading. */
  datatype State = Writing(builder: Builder) | Reading(cursor: Cursor)

  predicate WfState(s: State) {
    s.Reading? ==> WfCursor(s.cursor)
  }

  /** What a read of type `t` into `dest` comes to at the current position. */
  function Effect(t: Type, dest: Value, c: Cursor): Res<Value>
    requires WfType(t) && Shape(t, dest)
  {
    match Peek(c)
    case Next(item) => Decode(t, dest, item)
    case ArrayEnd => AtEnd(t, dest)
    case SignatureEnd => if t.Variant? || t.StdVariant? then AtEnd(t, dest) else Throws
  }

  /** Where a read that ends normally leaves the cursor. */
  function Moved(c: Cursor): Cursor {
    if c.rest == [] then c else Advance(c)
  }

  class Message {
    var state: State
    var ok: bool    // ok_

    /** `createPlainMessage`. */
    constructor ()
      ensures state == Writing(Root("", [])) && ok
    {
      state := Writing(Root("", []));
      ok := true;
    }

    method Seal() returns (threw: bool)
      modifies this`state
      ensures threw <==> !(old(state).Writing? && old(state).builder.Root?)
      ensures !threw ==> state == Reading(Top(old(state).builder.items))
      ensures threw ==> state == old(state)
    {
      threw := !(state.Writing? && state.builder.Root?);
      if !threw {
        state := Reading(Top(state.builder.items));
      }
    }

    // -------------------------------------------------------------------------------------
    // Forwarders to sd-bus

    /** Takes the result of an sd-bus call on the builder: None is r < 0. */
    method Built(b: Option<Builder>) returns (threw: bool)
      modifies this`state
      ensures threw <==> b.None?
      ensures state == if b.Some? then Writing(b.value) else old(state)
    {
      threw := b.None?;
      if !threw {
        state := Writing(b.value);
      }
    }

    method AppendBasic(b: Basic, p: Payload) returns (threw: bool)
      modifies this`state
      ensures !threw <==> old(state).Writing? && Append(old(state).builder, Plain(b, Sent(p))).Some?
      ensures !threw ==> state == Writing(Append(old(state).builder, Plain(b, Sent(p))).value)
    {
      if !state.Writing? { return true; }
      threw := Built(Append(state.builder, Plain(b, Sent(p))));
    }

    method AppendArray(b: Basic, ps: seq<Payload>) returns (threw: bool)
      modifies this`state
      ensures var item := Array([Code(b)], seq(|ps|, i requires 0 <= i < |ps| => Plain(b, ps[i])));
              && (!threw <==> old(state).Writing? && Append(old(state).builder, item).Some?)
              && (!threw ==> state == Writing(Append(old(state).builder, item).value))
    {
      if !state.Writing? { return true; }
      threw := Built(Append(state.builder, Array([Code(b)], seq(|ps|, i requires 0 <= i < |ps| => Plain(b, ps[i])))));
    }

    method Open(kind: Kind, contents: string) returns (threw: bool)
      modifies this`state
      ensures !threw <==> old(state).Writing? && OpenContainer(old(state).builder, kind, contents).Some?
      ensures !threw ==> state == Writing(OpenContainer(old(state).builder, kind, contents).value)
    {
      if !state.Writing? { return true; }
      threw := Built(OpenContainer(state.builder, kind, contents));
    }

    method Close() returns (threw: bool)
      modifies this`state
      ensures !threw <==> old(state).Writing? && CloseContainer(old(state).builder).Some?
      ensures !threw ==> state == Writing(CloseContainer(old(state).builder).value)
    {
      if !state.Writing? { return true; }
      threw := Built(CloseContainer(state.builder));
    }

    // -------------------------------------------------------------------------------------
    // operator<<

    /** `operator<<` for a value of type `t`. */
    method Write(t: Type, v: Value) returns (threw: bool)
      requires WfType(t) && Shape(t, v)
      modifies this`state
      ensures Sendable(t, v) ==> (!threw <==> Takes(old(state), Signature(t)))
      ensures Sendable(t, v) && !threw ==> state == Put(old(state), Signature(t), Encode(t, v))
      ensures t.Variant? && v.items != [] ==> (!threw <==> Takes(old(state), ItemSignature(v.items[0])))
      ensures t.Variant? && v.items != [] && !threw ==>
                state == Put(old(state), ItemSignature(v.items[0]), v.items[0])
      ensures !Sendable(t, v) && !(t.Variant? && v.items != []) ==> threw
      decreases t, 0
    {
      match t
      case Basic(b) => threw := AppendBasic(b, v.data);
      case Vec(e) => threw := SerializeArray(e, v.elems);
      case Fixed(e, _) => threw := SerializeArray(e, v.elems);
      case Dict(k, e) => threw := SerializeDictionary(k, e, v.entries);
      case Struct(fs) => threw := WriteStruct(fs, v.fields);
      case StdVariant(alts) => threw := WriteStdVariant(alts[v.index], v.val);
      case Variant =>
        if v.items == [] || !state.Writing? { return true; }
        threw := Built(Append(state.builder, v.items[0]));
    }

    /** `serializeArray`, with the one-step path for trivial elements other than bool. */
    method SerializeArray(e: Type, vs: seq<Value>) returns (threw: bool)
      requires WfType(e) && forall i | 0 <= i < |vs| :: Shape(e, vs[i])
      modifies this`state
      ensures SendableAll(e, vs) ==> (!threw <==> Takes(old(state), "a" + Signature(e)))
      ensures SendableAll(e, vs) && !threw ==>
                state == Put(old(state), "a" + Signature(e), Array(Signature(e), EncodeAll(e, vs)))
      ensures !SendableAll(e, vs) ==> threw
      decreases e, 3
    {
      if OneStep(e) {
        var ps := seq(|vs|, i requires 0 <= i < |vs| => vs[i].data);
        threw := AppendArray(e.basic, ps);
        assert SendableAll(e, vs) ==>
            EncodeAll(e, vs) == seq(|ps|, i requires 0 <= i < |ps| => Plain(e.basic, ps[i]));
      } else {
        threw := SerializeSlowly(e, vs);
      }
    }

    /** The step-by-step path of `serializeArray`. */
    method SerializeSlowly(e: Type, vs: seq<Value>) returns (threw: bool)
      requires WfType(e) && forall i | 0 <= i < |vs| :: Shape(e, vs[i])
      modifies this`state
      ensures SendableAll(e, vs) ==> (!threw <==> Takes(old(state), "a" + Signature(e)))
      ensures SendableAll(e, vs) && !threw ==>
                state == Put(old(state), "a" + Signature(e), Array(Signature(e), EncodeAll(e, vs)))
      ensures !SendableAll(e, vs) ==> threw
      decreases e, 2
    {
      hide Parse, ValidElement, ValidContents, Signature, EncodeAll, Sendable, Shape, WfType;
      ElementValid(e);
      threw := Open(ArrayKind, Signature(e));
      if threw { return; }
      threw := WriteElements(e, vs);
      if threw { return; }
      assert SendableAll(e, vs) ==> [] + EncodeAll(e, vs) == EncodeAll(e, vs);
      threw := Close();
    }

    /** The loop of `serializeArray`: element after element. */
    method WriteElements(e: Type, vs: seq<Value>) returns (threw: bool)
      requires WfType(e) && forall i | 0 <= i < |vs| :: Shape(e, vs[i])
      modifies this`state
      ensures InArrayOf(old(state), Signature(e)) && SendableAll(e, vs) ==>
                !threw && state == More(old(state), EncodeAll(e, vs))
      ensures InArrayOf(old(state), Signature(e)) && !SendableAll(e, vs) ==> threw
      decreases e, 1
    {
      hide Signature, Encode, Sendable, Shape, Takes, Put;
      ghost var before, inside := state, InArrayOf(state, Signature(e));
      ghost var good := InArrayOf(state, Signature(e)) && SendableAll(e, vs);
      ghost var items := if good then EncodeAll(e, vs) else [];
      assert before.Writing? ==> before.builder.items + [] == before.builder.items;
      threw := false;
      for i := 0 to |vs|
        invariant good ==> state == More(before, items[..i])
        invariant inside ==> InArrayOf(state, Signature(e)) && forall j | 0 <= j < i :: Sendable(e, vs[j])
      {
        if good { PutInArray(before, Signature(e), items[..i], items[i]); }
        ghost var here := state;
        threw := Write(e, vs[i]);
        if threw { return; }
        if inside { ElementWritten(here, e, vs[i]); }
        assert good ==> items[..i] + [items[i]] == items[..i + 1];
      }
      assert items[..|items|] == items;
    }

    /** `serializeDictionary` over the entries of a map in iteration order. */
    method SerializeDictionary(k: Basic, e: Type, es: seq<KeyValue>) returns (threw: bool)
      requires WfType(e) && ShapeEntries(k, e, es)
      modifies this`state
      ensures SendableEntries(k, e, es) ==> (!threw <==> Takes(old(state), "a" + EntrySignature(k, e)))
      ensures SendableEntries(k, e, es) && !threw ==>
                state == Put(old(state), "a" + EntrySignature(k, e),
                             Array(EntrySignature(k, e), EncodeEntries(k, e, es)))
      ensures !SendableEntries(k, e, es) ==> threw
      decreases e, 3
    {
      hide Parse, ValidElement, ValidContents, EntrySignature, EncodeEntries, Sendable, Shape, WfType, Signature;
      EntryValid(k, e);
      threw := Open(ArrayKind, EntrySignature(k, e));
      if threw { return; }
      threw := WriteEntries(k, e, es);
      if threw { return; }
      assert SendableEntries(k, e, es) ==> [] + EncodeEntries(k, e, es) == EncodeEntries(k, e, es);
      threw := Close();
    }

    /** The callback of `serializeDictionary`: entry after entry. */
    method WriteEntries(k: Basic, e: Type, es: seq<KeyValue>) returns (threw: bool)
      requires WfType(e) && ShapeEntries(k, e, es)
      modifies this`state
      ensures InArrayOf(old(state), EntrySignature(k, e)) && SendableEntries(k, e, es) ==>
                !threw && state == More(old(state), EncodeEntries(k, e, es))
      ensures !SendableEntries(k, e, es) ==> threw
      decreases e, 2
    {
      hide EntrySignature, EncodeEntry, PayloadOk, Sendable, Shape, Takes, Put, WfType;
      ghost var before := state;
      ghost var good := InArrayOf(state, EntrySignature(k, e)) && SendableEntries(k, e, es);
      ghost var items := if good then EncodeEntries(k, e, es) else [];
      assert before.Writing? ==> before.builder.items + [] == before.builder.items;
      threw := false;
      for i := 0 to |es|
        invariant good ==> state == More(before, items[..i])
        invariant forall j | 0 <= j < i :: Sendable(e, es[j].val)
      {
        if good { PutInArray(before, EntrySignature(k, e), items[..i], items[i]); }
        threw := WriteDictEntry(k, e, es[i]);
        if threw { return; }
        assert good ==> items[..i] + [items[i]] == items[..i + 1];
      }
      assert items[..|items|] == items;
    }

    /** `operator<<` for DictEntry. */
    method WriteDictEntry(k: Basic, e: Type, kv: KeyValue) returns (threw: bool)
      requires WfType(e) && PayloadOk(k, kv.key) && Shape(e, kv.val)
      modifies this`state
      ensures Takes(old(state), EntrySignature(k, e)) && InArray(old(state).builder) && Sendable(e, kv.val) ==>
                !threw && state == Put(old(state), EntrySignature(k, e), EncodeEntry(k, e, kv))
      ensures !Sendable(e, kv.val) ==> threw
      decreases e, 1
    {
      hide Parse, ValidElement, ValidContents, Signature, Encode, Sendable, Shape;
      var contents := [Code(k)] + Signature(e);
      EntryValid(k, e);
      assert EntrySignature(k, e) == "{" + contents + "}";
      threw := Open(EntryKind, contents);
      if threw { return; }
      assert contents[0..] == contents && Prefix([Code(k)], contents);
      threw := AppendBasic(k, kv.key);
      if threw { return; }
      assert contents[1..] == Signature(e) && Prefix(Signature(e), contents[1..]);
      ghost var here := state;
      threw := Write(e, kv.val);
      if threw { return; }
      if !Sendable(e, kv.val) { VariantAhead(here, e, kv.val); }
      threw := Close();
    }

    /** `operator<<` for Struct: the fields, between opening and closing. */
    method WriteStruct(fs: seq<Type>, vs: seq<Value>) returns (threw: bool)
      requires WfTypes(fs) && |vs| == |fs| && fs != [] && forall i | 0 <= i < |fs| :: Shape(fs[i], vs[i])
      modifies this`state
      ensures SendableFields(fs, vs) ==> (!threw <==> Takes(old(state), "(" + Signatures(fs) + ")"))
      ensures SendableFields(fs, vs) && !threw ==>
                state == Put(old(state), "(" + Signatures(fs) + ")", Tuple(EncodeFields(fs, vs)))
      ensures !SendableFields(fs, vs) ==> threw
      decreases fs, 1
    {
      var contents := Signatures(fs);
      StructValid(fs);
      hide Parse, ValidContents, Signatures, EncodeFields, Sendable, Shape;
      ghost var good := Takes(state, "(" + contents + ")") && SendableFields(fs, vs);
      threw := Open(StructKind, contents);
      if threw { return; }
      ghost var outer := if good then state.builder.outer else Root("", []);
      ghost var items := if good then EncodeFields(fs, vs) else [];
      if good { StructEnds(fs, items, outer); }
      threw := WriteFields(fs, vs, items, outer);
      if threw { return; }
      threw := Close();
    }

    /** `serialize_pack`: one field after the other. */
    method WriteFields(fs: seq<Type>, vs: seq<Value>, ghost items: seq<Item>, ghost outer: Builder)
      returns (threw: bool)
      requires WfTypes(fs) && |vs| == |fs| && forall i | 0 <= i < |fs| :: Shape(fs[i], vs[i])
      modifies this`state
      ensures SendableFields(fs, vs) && items == EncodeFields(fs, vs)
              && old(state) == StructSoFar(fs, 0, items, outer) ==>
                !threw && state == StructSoFar(fs, |fs|, items, outer)
      ensures AtField(old(state), fs, 0) && !SendableFields(fs, vs) ==> threw
      decreases fs, 0
    {
      hide Parse, Signatures, Encode, Sendable, Shape, StructSoFar, Takes, Put, AtField;
      ghost var inside := AtField(state, fs, 0);
      ghost var good := SendableFields(fs, vs) && items == EncodeFields(fs, vs)
                        && state == StructSoFar(fs, 0, items, outer);
      threw := false;
      for i := 0 to |fs|
        invariant good ==> state == StructSoFar(fs, i, items, outer)
        invariant inside ==> AtField(state, fs, i) && forall j | 0 <= j < i :: Sendable(fs[j], vs[j])
      {
        if good { PutInStruct(fs, i, items, outer); }
        ghost var here := state;
        threw := Write(fs[i], vs[i]);
        if threw { return; }
        if inside { FieldWritten(here, fs, i, vs[i]); }
      }
    }

    /** `operator<<` for std::variant holding a value of type `t`. */
    method WriteStdVariant(t: Type, v: Value) returns (threw: bool)
      requires WfType(t) && Shape(t, v)
      modifies this`state
      ensures Sendable(t, v) ==> (!threw <==> Takes(old(state), "v"))
      ensures Sendable(t, v) && !threw ==> state == Put(old(state), "v", Boxed(Encode(t, v)))
      ensures !Sendable(t, v) ==> threw
      decreases t, 1
    {
      hide Parse, ValidElement, ValidContents, Signature, Encode, Sendable, Shape, WfType;
      VariantValid(t);
      threw := Open(VariantKind, Signature(t));
      if threw { return; }
      assert Signature(t)[0..] == Signature(t);
      ghost var here := state;
      threw := Write(t, v);
      if threw { return; }
      if !Sendable(t, v) { VariantAhead(here, t, v); }
      threw := Close();
    }

    // -------------------------------------------------------------------------------------
    // Entering and leaving containers, and the basic reads

    method EnterContainer(kind: Kind, contents: string) returns (threw: bool)
      modifies this
      ensures threw <==> !old(state).Reading? || Enter(old(state).cursor, kind, contents).Fail?
      ensures !threw ==> var r := Enter(old(state).cursor, kind, contents);
                         if r.Ok? then state == Reading(r.value) && ok == old(ok)
                         else state == old(state) && !ok
      ensures WfState(old(state)) ==> WfState(state)
    {
      if !state.Reading? { return true; }
      var r := Enter(state.cursor, kind, contents);
      match r
      case Fail => threw := true;
      case End => threw, ok := false, false;
      case Ok(c) =>
        if WfCursor(state.cursor) { EnterWf(state.cursor, kind, contents); }
        threw, state := false, Reading(c);
    }

    method ExitContainer() returns (threw: bool)
      modifies this`state
      ensures !threw <==> old(state).Reading? && Exit(old(state).cursor).Some?
      ensures !threw ==> state == Reading(Exit(old(state).cursor).value)
    {
      threw := !(state.Reading? && Exit(state.cursor).Some?);
      if !threw {
        state := Reading(Exit(state.cursor).value);
      }
    }

    /** The reads of basic types. Those of bool and UnixFd store their local variable even when
        nothing was read. */
    method ReadBasicValue(b: Basic, dest: Value) returns (r: Outcome, out: Value)
      requires Shape(Basic(b), dest) && WfState(state) && ok
      modifies this
      ensures Reads(old(state), Basic(b), dest, r, out, state, ok)
    {
      out := dest;
      if !state.Reading? { return Threw, dest; }
      match ReadBasic(state.cursor, b)
      case Fail => r := Threw;
      case End =>
        r, ok := Done, false;
        if b == Boolean {
          out := VBasic(Num(0));
        } else if b == Fd {
          out := VBasic(Num(-1));
        }
      case Ok((p, c)) =>
        r, out, state := Done, VBasic(p), Reading(c);
    }

    // -------------------------------------------------------------------------------------
    // operator>>

    /** `operator>>` into a variable of type `t` that holds `dest`. */
    method Read(t: Type, dest: Value) returns (r: Outcome, out: Value)
      requires WfType(t) && Shape(t, dest) && WfState(state) && ok
      modifies this
      ensures Reads(old(state), t, dest, r, out, state, ok)
      ensures t.Vec? && r == Done ==> out.VSeq? && dest.elems <= out.elems
      decreases t, 0
    {
      match t
      case Basic(b) => r, out := ReadBasicValue(b, dest);
      case Vec(e) =>
        if OneStep(e) {
          r, out := ReadVectorFast(e.basic, dest);
        } else {
          r, out := ReadVectorSlowly(e, dest);
        }
      case Fixed(e, n) =>
        if OneStep(e) {
          r, out := ReadFixedFast(e.basic, n, dest);
        } else {
          r, out := ReadFixedSlowly(e, n, dest);
        }
      case Dict(k, e) => r, out := ReadDictionary(k, e, dest);
      case Struct(fs) => r, out := ReadStruct(fs, dest);
      case Variant => r, out := ReadVariant(dest);
      case StdVariant(alts) => r, out := ReadStdVariant(alts, dest);
    }

    /** `deserializeArrayFast` into a vector. */
    method ReadVectorFast(b: Basic, dest: Value) returns (r: Outcome, out: Value)
      requires OneStep(Basic(b)) && Shape(Vec(Basic(b)), dest) && WfState(state) && ok
      modifies this
      ensures Reads(old(state), Vec(Basic(b)), dest, r, out, state, ok)
      ensures r == Done ==> out.VSeq? && dest.elems <= out.elems
    {
      out := dest;
      if !state.Reading? { return Threw, dest; }
      match ReadArray(state.cursor, b)
      case Fail => r := Threw;
      case End => r, ok := Done, false;
      case Ok((ps, c)) =>
        PlainElements(b, state.cursor.rest[0].items);
        r, state := Done, Reading(c);
        out := VSeq(dest.elems + Basics(ps));
    }

    /** `deserializeArrayFast` into a sequence of `n` elements. */
    method ReadFixedFast(b: Basic, n: nat, dest: Value) returns (r: Outcome, out: Value)
      requires OneStep(Basic(b)) && Shape(Fixed(Basic(b), n), dest) && WfState(state) && ok
      modifies this
      ensures Reads(old(state), Fixed(Basic(b), n), dest, r, out, state, ok)
    {
      out := dest;
      if !state.Reading? { return Threw, dest; }
      match ReadArray(state.cursor, b)
      case Fail => r := Threw;
      case End => r, ok := Done, false;
      case Ok((ps, c)) =>
        PlainOver(b, dest.elems, state.cursor.rest[0].items);
        state := Reading(c);
        if n < |ps| { return Threw, dest; }
        r := Done;
        out := VSeq(Basics(ps) + dest.elems[|ps|..]);
    }

    /** `deserializeArraySlow` into a vector. */
    method ReadVectorSlowly(e: Type, dest: Value) returns (r: Outcome, out: Value)
      requires WfType(e) && Shape(Vec(e), dest) && WfState(state) && ok
      modifies this
      ensures Reads(old(state), Vec(e), dest, r, out, state, ok)
      ensures r == Done ==> out.VSeq? && dest.elems <= out.elems
      decreases e, 1
    {
      hide WfItem, WfCursor, WfType, Signature, DecodeAll, Then;
      out := dest;
      var threw := EnterContainer(ArrayKind, Signature(e));
      if threw { return Threw, dest; }
      if !ok { return Done, dest; }
      ghost var items, outer := state.cursor.rest, state.cursor.outer;
      ghost var done: seq<Value> := [];
      var elems := dest.elems;
      assert DecodeAll(e, items) == Then(done, DecodeAll(e, items)) by { ThenNothing(DecodeAll(e, items)); }
      while true
        invariant ok && state.Reading? && WfCursor(state.cursor)
        invariant state.cursor == In(ArrayKind, state.cursor.rest, outer)
        invariant DecodeAll(e, items) == Then(done, DecodeAll(e, state.cursor.rest))
        invariant elems == dest.elems + done
        decreases |state.cursor.rest|
      {
        ghost var c := state.cursor;
        var elem;
        r, elem := Read(e, Default(e));
        ElementRead(done, e, c, r, elem, state, ok);
        if r != Done { return r, dest; }
        if !ok { break; }
        elems := elems + [elem];
        done := done + [elem];
      }
      ok := true;
      threw := ExitContainer();
      out := VSeq(elems);
    }

    /** `deserializeArraySlow` over a sequence of `n` elements. */
    method ReadFixedSlowly(e: Type, n: nat, dest: Value) returns (r: Outcome, out: Value)
      requires WfType(e) && Shape(Fixed(e, n), dest) && WfState(state) && ok
      modifies this
      ensures Reads(old(state), Fixed(e, n), dest, r, out, state, ok)
      decreases e, 2
    {
      out := dest;
      var threw := EnterContainer(ArrayKind, Signature(e));
      if threw { return Threw, dest; }
      if !ok { return Done, dest; }
      var elems;
      r, elems := ReadOver(e, dest.elems);
      if r != Done { return; }
      ok := true;
      threw := ExitContainer();
      out := VSeq(elems);
    }

    /** The loop of `deserializeArraySlow` over existing elements, and the check that follows. */
    method ReadOver(e: Type, dests: seq<Value>) returns (r: Outcome, elems: seq<Value>)
      requires WfType(e) && forall i | 0 <= i < |dests| :: Shape(e, dests[i])
      requires WfState(state) && ok && state.Reading? && state.cursor.In? && state.cursor.kind == ArrayKind
      modifies this
      ensures var c := old(state).cursor;
              && r == OutcomeOf(DecodeOver(e, dests, c.rest))
              && (r == Done ==> elems == DecodeOver(e, dests, c.rest).value
                                && state == Reading(In(ArrayKind, [], c.outer)))
      decreases e, 1
    {
      hide WfItem, WfCursor, WfType, Shape, DecodeOver, Effect, Then, Reads, Moved, AtEnd;
      ghost var items, outer := state.cursor.rest, state.cursor.outer;
      ghost var done: seq<Value>, todo := [], dests;
      elems := dests;
      ThenNothing(DecodeOver(e, dests, items));
      var i := 0;
      while i < |dests|
        invariant |done| == i && i + |todo| == |dests| && ok && state.Reading? && WfCursor(state.cursor)
        invariant state.cursor == In(ArrayKind, state.cursor.rest, outer)
        invariant forall j | 0 <= j < |todo| :: Shape(e, todo[j])
        invariant elems == done + todo
        invariant DecodeOver(e, dests, items) == Then(done, DecodeOver(e, todo, state.cursor.rest))
        decreases |todo|
      {
        ghost var c := state.cursor;
        var elem;
        r, elem := Read(e, elems[i]);
        OverRead(done, e, todo, c, r, elem, state, ok);
        if r != Done { return; }
        Overwritten(done, todo, elem);
        elems := elems[i := elem];
        if !ok { break; }    // keep the rest of the destination untouched
        done, todo, i := done + [elem], todo[1..], i + 1;
      }
      if i == |dests| {
        OverEnd(done, e, todo, state.cursor.rest);
      }
      r := if state.cursor.rest != [] then Threw else Done;
    }

    /** `operator>>` for map and unordered_map, by `deserializeDictionary`. */
    method ReadDictionary(k: Basic, e: Type, dest: Value) returns (r: Outcome, out: Value)
      requires WfType(e) && Shape(Dict(k, e), dest) && WfState(state) && ok
      modifies this
      ensures Reads(old(state), Dict(k, e), dest, r, out, state, ok)
      decreases e, 3
    {
      hide WfItem, WfCursor, Signature, EntrySignature, DecodeEntry, DecodeEntries, ReadsEntry, Insert, WfType;
      out := dest;
      var threw := EnterContainer(ArrayKind, EntrySignature(k, e));
      if threw { return Threw, dest; }
      if !ok { return Done, dest; }
      ghost var items, outer := state.cursor.rest, state.cursor.outer;
      var entries := dest.entries;
      while true
        invariant ok && state.Reading? && WfCursor(state.cursor)
        invariant state.cursor == In(ArrayKind, state.cursor.rest, outer)
        invariant DecodeEntries(k, e, dest.entries, items) == DecodeEntries(k, e, entries, state.cursor.rest)
        decreases |state.cursor.rest|
      {
        ghost var c := state.cursor;
        var entry;
        r, entry := ReadDictEntry(k, e);
        EntryRead(k, e, entries, c, r, entry, state, ok);
        if r != Done { return r, dest; }
        if !ok { break; }
        entries := Insert(entries, entry);
      }
      ok := true;
      threw := ExitContainer();
      out := VMap(entries);
    }

    /** `operator>>` for DictEntry, into a fresh one. */
    method ReadDictEntry(k: Basic, e: Type) returns (r: Outcome, out: KeyValue)
      requires WfType(e) && WfState(state) && ok && state.Reading?
      modifies this
      ensures ReadsEntry(old(state).cursor, k, e, r, out, state, ok)
      decreases e, 2
    {
      hide WfItem, WfCursor, Enter, Peek, ReadsEntry, DecodePair, Signature, WfType;
      EntryCases(state.cursor, k, e);
      out := KeyValue(DefaultPayload(k), VSeq([]));
      var threw := EnterContainer(EntryKind, [Code(k)] + Signature(e));
      if threw { return Threw, out; }
      if !ok { return Done, out; }
      r, out := ReadKeyAndValue(k, e);
      if r != Done { return; }
      threw := ExitContainer();
    }

    /** The two reads inside a dictionary entry. */
    method ReadKeyAndValue(k: Basic, e: Type) returns (r: Outcome, out: KeyValue)
      requires WfType(e) && WfState(state) && ok && state.Reading?
      requires state.cursor.In? && state.cursor.kind == EntryKind && |state.cursor.rest| == 2
      modifies this
      ensures r == OutcomeOf(DecodePair(k, e, old(state).cursor.rest))
      ensures r == Done ==> out == DecodePair(k, e, old(state).cursor.rest).value
      ensures r == Done ==> state == Reading(In(EntryKind, [], old(state).cursor.outer)) && ok
      decreases e, 1
    {
      hide WfItem, WfCursor, Decode, DecodePair, Shape, Default, DefaultPayload, WfType;
      PairCases(k, e, state.cursor.rest);
      AdvanceWf(state.cursor);
      out := KeyValue(DefaultPayload(k), Default(e));
      var key, val;
      r, key := ReadBasicValue(k, VBasic(out.key));
      if r != Done { return; }
      r, val := Read(e, out.val);
      if r != Done { return; }
      assert old(state).cursor.rest[1..][1..] == [];
      out := KeyValue(key.data, val);
    }

    /** `operator>>` for Struct: the fields, one after the other. */
    method ReadStruct(fs: seq<Type>, dest: Value) returns (r: Outcome, out: Value)
      requires WfType(Struct(fs)) && Shape(Struct(fs), dest) && WfState(state) && ok
      modifies this
      ensures Reads(old(state), Struct(fs), dest, r, out, state, ok)
      decreases fs, 1
    {
      out := dest;
      var threw := EnterContainer(StructKind, Signatures(fs));
      if threw { return Threw, dest; }
      if !ok { return Done, dest; }
      FieldSignatures(fs, state.cursor.rest);
      var vals;
      r, vals := ReadFields(fs, dest.fields);
      if r != Done { return; }
      threw := ExitContainer();
      out := VStruct(vals);
    }

    /** `deserialize_pack`: each field into its variable. */
    method ReadFields(fs: seq<Type>, dests: seq<Value>) returns (r: Outcome, vals: seq<Value>)
      requires WfTypes(fs) && |dests| == |fs| && forall i | 0 <= i < |fs| :: Shape(fs[i], dests[i])
      requires WfState(state) && ok && state.Reading? && |state.cursor.rest| == |fs|
      modifies this
      ensures var c := old(state).cursor;
              && r == OutcomeOf(DecodeFields(fs, dests, c.rest))
              && (r == Done ==> vals == DecodeFields(fs, dests, c.rest).value
                                && state == Reading(c.(rest := [])) && ok)
      decreases fs, 0
    {
      hide WfItem, WfCursor, WfType, Shape, Decode, DecodeFields;
      ghost var start, items := state.cursor, state.cursor.rest;
      r, vals := Done, [];
      assert fs[0..] == fs && dests[0..] == dests && items[0..] == items;
      ThenNothing(DecodeFields(fs, dests, items));
      for i := 0 to |fs|
        invariant ok && state.Reading? && WfCursor(state.cursor)
        invariant state.cursor == start.(rest := items[i..])
        invariant |vals| == i && r == Done
        invariant DecodeFields(fs, dests, items) ==
                  Then(vals, DecodeFields(fs[i..], dests[i..], items[i..]))
      {
        AdvanceWf(state.cursor);
        FieldStep(fs, dests, items, i);
        var v;
        r, v := Read(fs[i], dests[i]);
        if r != Done { return; }
        ThenMore(vals, v, DecodeFields(fs[i + 1..], dests[i + 1..], items[i + 1..]));
        vals := vals + [v];
      }
      FieldsEnd(fs[|fs|..], dests[|fs|..], items[|fs|..]);
      assert vals + [] == vals;
    }

    /** `operator>>` for Variant: a copy of the next complete item, or of nothing. */
    method ReadVariant(dest: Value) returns (r: Outcome, out: Value)
      requires Shape(Variant, dest) && WfState(state) && ok
      modifies this
      ensures Reads(old(state), Variant, dest, r, out, state, ok)
    {
      out := dest;
      if !state.Reading? || dest.sealed { return Threw, dest; }
      match Peek(state.cursor) {
        case Next(item) =>
          out := VVariant(dest.items + [item], true);
          state := Reading(Advance(state.cursor));
        case _ =>
          out := VVariant(dest.items, true);
      }
      if out.items == [] {
        ok := false;
      }
      r := Done;
    }

    /** `operator>>` for std::variant: the alternatives in order. */
    method ReadStdVariant(alts: seq<Type>, dest: Value) returns (r: Outcome, out: Value)
      requires WfType(StdVariant(alts)) && Shape(StdVariant(alts), dest) && WfState(state) && ok
      modifies this
      ensures Reads(old(state), StdVariant(alts), dest, r, out, state, ok)
      decreases alts, 1
    {
      out := dest;
      if !state.Reading? { return Threw, dest; }
      var contents := PeekContents(state.cursor);
      if contents.None? {
        StdVariantNull(state.cursor, alts, dest);
        return Crashed, dest;    // strcmp on a null pointer
      }
      hide Signature, Decode, DecodeBoxed, WfItem, Shape, WfCursor, Reads;
      var i := FindAlternative(alts, contents.value);
      if i == |alts| {
        StdVariantNone(state.cursor, alts, dest);
        return Threw, dest;
      }
      StdVariantSome(state.cursor, alts, dest, i);
      r, out := ReadAlternative(alts[i]);
      out := VAlt(i, out);
    }

    /** The fold over the alternatives: the first one whose signature is `contents`. */
    method FindAlternative(alts: seq<Type>, contents: string) returns (i: nat)
      ensures i <= |alts| && (i < |alts| ==> Signature(alts[i]) == contents)
      ensures forall j | 0 <= j < i :: Signature(alts[j]) != contents
    {
      i := 0;
      while i < |alts| && Signature(alts[i]) != contents
        invariant i <= |alts|
        invariant forall j | 0 <= j < i :: Signature(alts[j]) != contents
      {
        i := i + 1;
      }
    }

    /** `deserialize_variant` for an alternative whose signature matches. */
    method ReadAlternative(t: Type) returns (r: Outcome, out: Value)
      requires WfType(t) && WfState(state) && ok && state.Reading?
      requires Peek(state.cursor).Next? && Contents(state.cursor.rest[0]) == Signature(t)
      modifies this
      ensures r == OutcomeOf(DecodeBoxed(t, old(state).cursor.rest[0]))
      ensures r == Done ==> out == DecodeBoxed(t, old(state).cursor.rest[0]).value
      ensures r == Done ==> state == Reading(Advance(old(state).cursor)) && ok
      decreases t, 1
    {
      hide Signature, Decode, WfItem, Shape;
      out := Default(t);
      var threw := EnterContainer(VariantKind, Signature(t));
      if threw { return Threw, out; }
      r, out := Read(t, out);
      if r != Done { return; }
      threw := ExitContainer();
    }
  }

  /** The same for a dictionary entry read into a fresh one. */
  predicate ReadsEntry(c: Cursor, k: Basic, e: Type, r: Outcome, out: KeyValue, after: State, ok: bool)
    requires WfType(e)
  {
    match Peek(c)
    case SignatureEnd => r == Threw
    case ArrayEnd => r == Done && !ok && after == Reading(c)
    case Next(item) =>
      && r == OutcomeOf(DecodeEntry(k, e, item))
      && (r == Done ==> ok && out == DecodeEntry(k, e, item).value && after == Reading(Advance(c)))
  }

  lemma KeyCases(k: Basic, key: Item)
    ensures Shape(Basic(k), VBasic(DefaultPayload(k)))
    ensures Decode(Basic(k), VBasic(DefaultPayload(k)), key) ==
            if key.Plain? && key.basic == k then Got(VBasic(key.data)) else Throws
  {
  }

  lemma PairCases(k: Basic, e: Type, items: seq<Item>)
    requires WfType(e) && |items| == 2
    ensures Shape(Basic(k), VBasic(DefaultPayload(k)))
    ensures var key, val := Decode(Basic(k), VBasic(DefaultPayload(k)), items[0]), Decode(e, Default(e), items[1]);
            if !key.Got? then key.Throws? && DecodePair(k, e, items) == Throws
            else
              && key.value.VBasic?
              && OutcomeOf(DecodePair(k, e, items)) == OutcomeOf(val)
              && (val.Got? ==> DecodePair(k, e, items).value == KeyValue(key.value.data, val.value))
  {
    hide Decode, Default, Shape, WfType, DefaultPayload;
    KeyCases(k, items[0]);
  }

  lemma EntryCases(c: Cursor, k: Basic, e: Type)
    requires WfType(e)
    ensures var r := Enter(c, EntryKind, [Code(k)] + Signature(e));
            && (r.Fail? ==> forall out, s, ok :: ReadsEntry(c, k, e, Threw, out, s, ok))
            && (r.End? ==> forall out :: ReadsEntry(c, k, e, Done, out, Reading(c), false))
            && (r.Ok? ==> EntryEntered(c, k, e, r.value))
  {
    hide Decode, DecodePair, Signature, ItemSignature, Contents, EntryEntered, WfType, Code;
    if Enter(c, EntryKind, [Code(k)] + Signature(e)).Ok? {
      EntryInside(c, k, e);
    }
  }

  /** What reading key and value from `inner` amounts to for the entry as a whole. */
  ghost predicate EntryEntered(c: Cursor, k: Basic, e: Type, inner: Cursor)
    requires WfType(e)
  {
    && inner.In? && inner.kind == EntryKind && |inner.rest| == 2
    && var p := DecodePair(k, e, inner.rest);
       if p.Got? then ReadsEntry(c, k, e, Done, p.value, Reading(inner.outer), true)
       else forall out, s, ok :: ReadsEntry(c, k, e, OutcomeOf(p), out, s, ok)
  }

  lemma EntryInside(c: Cursor, k: Basic, e: Type)
    requires WfType(e) && Enter(c, EntryKind, [Code(k)] + Signature(e)).Ok?
    ensures EntryEntered(c, k, e, Enter(c, EntryKind, [Code(k)] + Signature(e)).value)
  {
    hide Decode, DecodePair, Signature, ItemSignature, WfType, Code;
  }

  lemma StdVariantNull(c: Cursor, alts: seq<Type>, dest: Value)
    requires WfType(StdVariant(alts)) && Shape(StdVariant(alts), dest) && PeekContents(c).None?
    ensures forall out, s, ok :: Reads(Reading(c), StdVariant(alts), dest, Crashed, out, s, ok)
  {
  }

  lemma StdVariantNone(c: Cursor, alts: seq<Type>, dest: Value)
    requires WfType(StdVariant(alts)) && Shape(StdVariant(alts), dest) && PeekContents(c).Some?
    requires forall j | 0 <= j < |alts| :: Signature(alts[j]) != PeekContents(c).value
    ensures forall out, s, ok :: Reads(Reading(c), StdVariant(alts), dest, Threw, out, s, ok)
  {
    assert Pick(alts, PeekContents(c).value).None?;
    hide DecodeBoxed, Signature, WfType, Shape;
  }

  lemma StdVariantSome(c: Cursor, alts: seq<Type>, dest: Value, i: nat)
    requires WfType(StdVariant(alts)) && Shape(StdVariant(alts), dest) && PeekContents(c).Some?
    requires i < |alts| && Signature(alts[i]) == PeekContents(c).value
    requires forall j | 0 <= j < i :: Signature(alts[j]) != PeekContents(c).value
    ensures var r := DecodeBoxed(alts[i], c.rest[0]);
            if r.Got? then Reads(Reading(c), StdVariant(alts), dest, Done, VAlt(i, r.value), Reading(Advance(c)), true)
            else forall out, s, ok :: Reads(Reading(c), StdVariant(alts), dest, OutcomeOf(r), out, s, ok)
  {
    assert Pick(alts, PeekContents(c).value) == Some(i);
    hide DecodeBoxed, Signature, WfType, Shape;
  }

  /** What the read of one element says about the whole loop into a vector. */
  lemma ElementRead(done: seq<Value>, e: Type, c: Cursor, r: Outcome, elem: Value, after: State, ok: bool)
    requires WfType(e) && c.In? && c.kind == ArrayKind && WfCursor(c)
    requires Reads(Reading(c), e, Default(e), r, elem, after, ok)
    ensures r == Done ==> after.Reading? && WfCursor(after.cursor)
    ensures var all := Then(done, DecodeAll(e, c.rest));
            if r != Done then r == OutcomeOf(all)
            else if ok then
              && c.rest != [] && after == Reading(In(ArrayKind, c.rest[1..], c.outer))
              && all == Then(done + [elem], DecodeAll(e, c.rest[1..]))
            else c.rest == [] && after == Reading(c) && all == Got(done)
  {
    hide WfCursor, Decode, WfItem, Shape;
    if c.rest != [] {
      AdvanceWf(c);
      ThenMore(done, elem, DecodeAll(e, c.rest[1..]));
    } else {
      assert done + [] == done;
    }
  }

  /** What the read of one entry says about the whole loop over the entries. */
  lemma EntryRead(k: Basic, e: Type, es: seq<KeyValue>, c: Cursor, r: Outcome, entry: KeyValue, after: State, ok: bool)
    requires WfType(e) && c.In? && c.kind == ArrayKind && WfCursor(c) && ReadsEntry(c, k, e, r, entry, after, ok)
    ensures r == Done ==> after.Reading? && WfCursor(after.cursor)
    ensures var all := DecodeEntries(k, e, es, c.rest);
            if r != Done then r == OutcomeOf(all)
            else if ok then
              && c.rest != [] && after == Reading(In(ArrayKind, c.rest[1..], c.outer))
              && all == DecodeEntries(k, e, Insert(es, entry), c.rest[1..])
            else c.rest == [] && after == Reading(c) && all == Got(es)
  {
    hide WfCursor, DecodeEntry, Insert, WfType, WfItem;
    if c.rest != [] { AdvanceWf(c); }
  }

  /** One turn of the loop over existing elements, in front of what is already done. */
  lemma OverStep(done: seq<Value>, e: Type, todo: seq<Value>, c: Cursor)
    requires WfType(e) && forall j | 0 <= j < |todo| :: Shape(e, todo[j])
    requires todo != [] && c.In? && c.kind == ArrayKind
    ensures var r, all := Effect(e, todo[0], c), Then(done, DecodeOver(e, todo, c.rest));
            && (!r.Got? ==> OutcomeOf(all) == OutcomeOf(r))
            && (r.Got? && c.rest == [] ==> all == Got(done + ([r.value] + todo[1..])))
            && (r.Got? && c.rest != [] ==>
                  all == Then(done + [r.value], DecodeOver(e, todo[1..], c.rest[1..])))
  {
    if c.rest != [] && Effect(e, todo[0], c).Got? {
      ThenMore(done, Effect(e, todo[0], c).value, DecodeOver(e, todo[1..], c.rest[1..]));
    }
  }

  /** What a read inside the loop over existing elements says about the whole loop. */
  lemma OverRead(done: seq<Value>, e: Type, todo: seq<Value>, c: Cursor, r: Outcome, elem: Value,
                 after: State, ok: bool)
    requires WfType(e) && forall j | 0 <= j < |todo| :: Shape(e, todo[j])
    requires todo != [] && c.In? && c.kind == ArrayKind && WfCursor(c)
    requires Reads(Reading(c), e, todo[0], r, elem, after, ok)
    ensures r == Done ==> after.Reading? && WfCursor(after.cursor)
    ensures var all := Then(done, DecodeOver(e, todo, c.rest));
            if r != Done then r == OutcomeOf(all)
            else if ok then
              && c.rest != [] && after == Reading(In(ArrayKind, c.rest[1..], c.outer))
              && all == Then(done + [elem], DecodeOver(e, todo[1..], c.rest[1..]))
            else
              c.rest == [] && after == Reading(c) && all == Got(done + ([elem] + todo[1..]))
  {
    OverStep(done, e, todo, c);
    hide WfType, Shape, DecodeOver, Effect, Then;
  }

  lemma Overwritten(done: seq<Value>, todo: seq<Value>, v: Value)
    requires todo != []
    ensures (done + todo)[|done| := v] == done + ([v] + todo[1..]) == done + [v] + todo[1..]
  {
  }

  lemma OverEnd(done: seq<Value>, e: Type, dests: seq<Value>, items: seq<Item>)
    requires WfType(e) && dests == []
    ensures Then(done, DecodeOver(e, dests, items)) == if items == [] then Got(done + dests) else Throws
  {
  }

  lemma FieldStep(fs: seq<Type>, dests: seq<Value>, items: seq<Item>, i: nat)
    requires i < |fs| == |dests| == |items|
    requires WfTypes(fs) && forall i | 0 <= i < |fs| :: Shape(fs[i], dests[i])
    ensures var r := Decode(fs[i], dests[i], items[i]);
            DecodeFields(fs[i..], dests[i..], items[i..]) ==
            match r
            case Got(v) => Then([v], DecodeFields(fs[i + 1..], dests[i + 1..], items[i + 1..]))
            case Throws => Throws
            case Crashes => Crashes
  {
    assert fs[i..][1..] == fs[i + 1..] && dests[i..][1..] == dests[i + 1..] && items[i..][1..] == items[i + 1..];
  }

  lemma FieldsEnd(fs: seq<Type>, dests: seq<Value>, items: seq<Item>)
    requires fs == [] && dests == [] && items == []
    ensures DecodeFields(fs, dests, items) == Got([])
  {
  }

  lemma ThenNothing<T>(r: Res<seq<T>>)
    ensures Then([], r) == r
  {
    if r.Got? {
      assert [] + r.value == r.value;
    }
  }

  lemma ThenMore<T>(done: seq<T>, v: T, r: Res<seq<T>>)
    ensures Then(done, Then([v], r)) == Then(done + [v], r)
  {
    if r.Got? {
      assert done + ([v] + r.value) == done + [v] + r.value;
    }
  }

  /** A read from `before` ends as the reference semantics says; when it ends normally, `ok_` is
      true exactly if one complete item was consumed, and false exactly if nothing moved. */
  predicate Reads(before: State, t: Type, dest: Value, r: Outcome, out: Value, after: State, ok: bool)
    requires WfType(t) && Shape(t, dest)
  {
    if !before.Reading? then r == Threw
    else
      var c, e := before.cursor, Effect(t, dest, before.cursor);
      && r == OutcomeOf(e)
      && (r == Done ==> out == e.value && after == Reading(Moved(c)) && (ok <==> c.rest != []))
  }

  lemma EnterWf(c: Cursor, kind: Kind, contents: string)
    requires WfCursor(c) && Enter(c, kind, contents).Ok?
    ensures WfCursor(Enter(c, kind, contents).value)
  {
    assert WfItem(c.rest[0]);
    AdvanceWf(c);
  }

  lemma AdvanceWf(c: Cursor)
    requires WfCursor(c) && c.rest != []
    ensures WfCursor(Advance(c))
  {
  }

  // ---------------------------------------------------------------------------------------
  // Items and types

  /** The D-Bus type of an item. */
  function ItemType(item: Item): (t: Type)
    requires WfItem(item) && !item.Entry?
    decreases item, 0
  {
    match item
    case Plain(b, _) => Basic(b)
    case Array(elem, _) => Parse("a" + elem).value.0
    case Tuple(fs) => Struct(ItemTypes(fs))
    case Boxed(_) => Variant
  }

  function ItemTypes(items: seq<Item>): (ts: seq<Type>)
    requires forall i | 0 <= i < |items| :: WfItem(items[i]) && !items[i].Entry?
    ensures |ts| == |items|
    decreases items, 1
  {
    if items == [] then [] else [ItemType(items[0])] + ItemTypes(items[1..])
  }

  lemma {:induction false} ItemTypeSignature(item: Item)
    requires WfItem(item) && !item.Entry?
    ensures WfType(ItemType(item)) && Signature(ItemType(item)) == ItemSignature(item)
    decreases item, 0
  {
    match item
    case Plain(b, _) =>
    case Array(elem, _) =>
      ParseSound("a" + elem);
      var (t, rest) := Parse("a" + elem).value;
      assert Signature(t) + "" == Signature(t);
    case Tuple(fs) => ItemTypesSignatures(fs);
    case Boxed(_) =>
  }

  lemma {:induction false} ItemTypesSignatures(items: seq<Item>)
    requires forall i | 0 <= i < |items| :: WfItem(items[i]) && !items[i].Entry?
    ensures WfTypes(ItemTypes(items)) && Signatures(ItemTypes(items)) == ItemSignatures(items)
    decreases items, 1
  {
    if items != [] {
      ItemTypeSignature(items[0]);
      ItemTypesSignatures(items[1..]);
      assert ItemTypes(items)[1..] == ItemTypes(items[1..]);
    }
  }

  /** Well-typed items whose signatures concatenate to those of `fs` match them one by one. */
  lemma FieldSignatures(fs: seq<Type>, items: seq<Item>)
    requires WfTypes(fs) && forall i | 0 <= i < |items| :: WfItem(items[i]) && !items[i].Entry?
    requires ItemSignatures(items) == Signatures(fs)
    ensures |items| == |fs|
    ensures forall i | 0 <= i < |fs| :: ItemSignature(items[i]) == Signature(fs[i])
  {
    ItemTypesSignatures(items);
    SameSignatures(ItemTypes(items), fs);
    forall i | 0 <= i < |fs| ensures ItemSignature(items[i]) == Signature(fs[i]) {
      ItemTypesAt(items, i);
      CanonsAt(fs, i);
      CanonsAt(ItemTypes(items), i);
      ItemTypeSignature(items[i]);
      SameSignature(ItemTypes(items)[i], fs[i]);
    }
  }

  lemma {:induction false} ItemTypesAt(items: seq<Item>, i: nat)
    requires i < |items| && forall i | 0 <= i < |items| :: WfItem(items[i]) && !items[i].Entry?
    ensures ItemTypes(items)[i] == ItemType(items[i])
  {
    if i > 0 {
      ItemTypesAt(items[1..], i - 1);
    }
  }

  lemma {:induction false} CanonsAt(ts: seq<Type>, i: nat)
    requires i < |ts|
    ensures Canons(ts)[i] == Canon(ts[i])
  {
    if i > 0 {
      CanonsAt(ts[1..], i - 1);
    }
  }

  lemma PlainBySignature(item: Item, b: Basic)
    requires ItemSignature(item) == [Code(b)]
    ensures item.Plain? && item.basic == b
  {
    BasicOfCode(b);
    assert Code(b) !in {'a', '{', '(', 'v'};
    assert ItemSignature(item)[0] == Code(b);
    if item.Plain? {
      BasicOfCode(item.basic);
    }
  }

  function Basics(ps: seq<Payload>): (vs: seq<Value>)
    ensures |vs| == |ps|
  {
    seq(|ps|, i requires 0 <= i < |ps| => VBasic(ps[i]))
  }

  lemma {:induction false} PlainElements(b: Basic, items: seq<Item>)
    requires forall i | 0 <= i < |items| :: ItemSignature(items[i]) == [Code(b)]
    ensures DecodeAll(Basic(b), items) == Got(Basics(Payloads(items)))
  {
    if items != [] {
      PlainBySignature(items[0], b);
      PlainElements(b, items[1..]);
      assert Basics(Payloads(items)) == [VBasic(items[0].data)] + Basics(Payloads(items[1..]));
    }
  }

  lemma {:induction false} PlainOver(b: Basic, dests: seq<Value>, items: seq<Item>)
    requires OneStep(Basic(b))
    requires forall i | 0 <= i < |dests| :: Shape(Basic(b), dests[i])
    requires forall i | 0 <= i < |items| :: ItemSignature(items[i]) == [Code(b)]
    ensures DecodeOver(Basic(b), dests, items) ==
            if |dests| < |items| then Throws
            else Got(Basics(Payloads(items)) + dests[|items|..])
  {
    if dests == [] {
      assert items == [] ==> Basics(Payloads(items)) + dests[0..] == [];
    } else if items == [] {
      assert Basics(Payloads(items)) + dests[0..] == [dests[0]] + dests[1..];
    } else {
      PlainBySignature(items[0], b);
      PlainOver(b, dests[1..], items[1..]);
      assert |items| <= |dests| ==>
          Basics(Payloads(items)) + dests[|items|..] ==
          [VBasic(items[0].data)] + (Basics(Payloads(items[1..])) + dests[1..][|items[1..]|..]);
    }
  }

  /** The message under construction admits an item with signature `sig` here. */
  predicate Takes(s: State, sig: string) {
    s.Writing? && Accept(s.builder, sig).Some?
  }

  /** The message with `item` appended, and its signature moved past `sig`. */
  function Put(s: State, sig: string, item: Item): State
    requires Takes(s, sig)
  {
    Writing(Add(Accept(s.builder, sig).value, item))
  }

  /** The innermost open container is an array of `elem`. */
  predicate InArrayOf(s: State, elem: string) {
    s.Writing? && InArray(s.builder) && s.builder.signature == elem && s.builder.index == 0
  }

  function More(s: State, items: seq<Item>): State
    requires s.Writing?
  {
    Writing(s.builder.(items := s.builder.items + items))
  }

  /** Inside the struct, with the first `i` fields written. */
  function StructSoFar(fs: seq<Type>, i: nat, items: seq<Item>, outer: Builder): State
    requires i <= |fs| && i <= |items|
  {
    Writing(SdBus.Open(StructKind, Signatures(fs), |Signatures(fs[..i])|, items[..i], outer))
  }

  /** Inside the struct, in front of field `i`, whatever was written before. */
  predicate AtField(s: State, fs: seq<Type>, i: nat)
    requires i <= |fs|
  {
    && s.Writing? && s.builder.Open? && s.builder.kind == StructKind
    && s.builder.signature == Signatures(fs) && s.builder.index == |Signatures(fs[..i])|
  }

  /** The declared contents go on with a variant. */
  predicate ExpectsVariant(s: State) {
    && s.Writing? && s.builder.Open? && s.builder.index < |s.builder.signature|
    && s.builder.signature[s.builder.index] == 'v'
  }

  lemma OnlyVariantsThere(s: State, item: Item)
    requires ExpectsVariant(s) && Takes(s, ItemSignature(item))
    ensures item.Boxed?
  {
    var rest := s.builder.signature[s.builder.index..];
    assert ItemSignature(item) != "" && ItemSignature(item)[0] == rest[..|ItemSignature(item)|][0] == 'v';
  }

  lemma WrittenVariant(s: State, t: Type, v: Value)
    requires WfType(t) && Shape(t, v) && t.Variant? && v.items != []
    requires ExpectsVariant(s) && Takes(s, ItemSignature(v.items[0]))
    ensures Sendable(t, v)
  {
    OnlyVariantsThere(s, v.items[0]);
  }

  lemma VariantAhead(s: State, e: Type, v: Value)
    requires WfType(e) && Shape(e, v) && e.Variant? && v.items != [] && s.Writing? && s.builder.Open?
    requires s.builder.index <= |s.builder.signature| && s.builder.signature[s.builder.index..] == Signature(e)
    requires Takes(s, ItemSignature(v.items[0]))
    ensures Sendable(e, v)
  {
    assert s.builder.signature[s.builder.index..][0] == 'v';
    WrittenVariant(s, e, v);
  }

  /** A value that was written as an element was fit to be sent, and the array goes on. */
  lemma ElementWritten(s: State, e: Type, v: Value)
    requires WfType(e) && Shape(e, v) && InArrayOf(s, Signature(e))
    requires Sendable(e, v) ==> Takes(s, Signature(e))
    requires e.Variant? && v.items != [] ==> Takes(s, ItemSignature(v.items[0]))
    requires !Sendable(e, v) ==> e.Variant? && v.items != []
    ensures Sendable(e, v) && InArrayOf(Put(s, Signature(e), Encode(e, v)), Signature(e))
  {
    if !Sendable(e, v) { WrittenVariant(s, e, v); }
    hide Encode, Sendable, Shape, Signature;
  }

  lemma FieldWritten(s: State, fs: seq<Type>, i: nat, v: Value)
    requires i < |fs| && WfType(fs[i]) && Shape(fs[i], v) && AtField(s, fs, i)
    requires Sendable(fs[i], v) ==> Takes(s, Signature(fs[i]))
    requires fs[i].Variant? && v.items != [] ==> Takes(s, ItemSignature(v.items[0]))
    requires !Sendable(fs[i], v) ==> fs[i].Variant? && v.items != []
    ensures Sendable(fs[i], v) && AtField(Put(s, Signature(fs[i]), Encode(fs[i], v)), fs, i + 1)
  {
    SignaturesSplit(fs, i);
    if !Sendable(fs[i], v) {
      assert Signature(fs[i]) == "v";
      assert s.builder.signature[s.builder.index] == s.builder.signature[s.builder.index..][..1][0];
      WrittenVariant(s, fs[i], v);
    }
    hide Encode, Sendable, Shape, Signature, Signatures;
  }

  lemma StructEnds(fs: seq<Type>, items: seq<Item>, outer: Builder)
    requires |items| == |fs|
    ensures StructSoFar(fs, 0, items, outer) ==
            Writing(SdBus.Open(StructKind, Signatures(fs), 0, [], outer))
    ensures StructSoFar(fs, |fs|, items, outer) ==
            Writing(SdBus.Open(StructKind, Signatures(fs), |Signatures(fs)|, items, outer))
  {
    assert fs[..|fs|] == fs && items[..|items|] == items && fs[..0] == [];
  }

  lemma PutInStruct(fs: seq<Type>, i: nat, items: seq<Item>, outer: Builder)
    requires i < |fs| == |items|
    ensures Takes(StructSoFar(fs, i, items, outer), Signature(fs[i]))
    ensures Put(StructSoFar(fs, i, items, outer), Signature(fs[i]), items[i]) ==
            StructSoFar(fs, i + 1, items, outer)
  {
    SignaturesSplit(fs, i);
    assert items[..i] + [items[i]] == items[..i + 1];
  }

  lemma PutInArray(s: State, elem: string, items: seq<Item>, item: Item)
    requires InArrayOf(s, elem)
    ensures Takes(More(s, items), elem) && InArray(More(s, items).builder)
    ensures Put(More(s, items), elem, item) == More(s, items + [item])
    ensures More(s, []) == s
  {
    assert elem[0..] == elem;
    assert s.builder.items + (items + [item]) == s.builder.items + items + [item];
  }

  lemma ElementValid(e: Type)
    requires WfType(e)
    ensures ValidContents(ArrayKind, Signature(e))
  {
    ParseSignature(Vec(e), "");
    assert "a" + Signature(e) + "" == "a" + Signature(e);
  }

  lemma EntryValid(k: Basic, e: Type)
    requires WfType(e)
    ensures ValidContents(ArrayKind, EntrySignature(k, e))
    ensures ValidContents(EntryKind, [Code(k)] + Signature(e))
  {
    ParseSignature(Dict(k, e), "");
    assert Signature(Dict(k, e)) + "" == "a" + EntrySignature(k, e);
    assert EntrySignature(k, e) == "{" + ([Code(k)] + Signature(e)) + "}";
  }

  lemma VariantValid(t: Type)
    requires WfType(t)
    ensures ValidContents(VariantKind, Signature(t))
  {
    ParseSignature(t, "");
    assert Signature(t) + "" == Signature(t);
  }

  lemma StructValid(fs: seq<Type>)
    requires WfTypes(fs) && fs != []
    ensures ValidContents(StructKind, Signatures(fs))
  {
    ParseSignature(Struct(fs), "");
    assert Signature(Struct(fs)) + "" == "(" + Signatures(fs) + ")";
  }

  ghost predicate IsSignature(s: string) {
    exists t | WfType(t) :: s == Signature(t)
  }

  ghost predicate IsEntry(s: string) {
    exists k, v | WfType(v) :: s == EntrySignature(k, v)
  }

  ghost predicate IsStruct(s: string) {
    exists fs | WfTypes(fs) && fs != [] :: s == Signatures(fs)
  }

  /** A container opens exactly when its contents signature is one that C++ types have, and the
      container is what is due here; a dictionary entry opens only in an array. */
  lemma OpensForTypes(b: Builder, contents: string)
    ensures OpenContainer(b, ArrayKind, contents).Some? <==>
            (IsSignature(contents) || IsEntry(contents)) && Accept(b, "a" + contents).Some?
    ensures OpenContainer(b, EntryKind, contents).Some? <==>
            IsEntry("{" + contents + "}") && InArray(b) && Accept(b, "{" + contents + "}").Some?
    ensures OpenContainer(b, StructKind, contents).Some? <==>
            IsStruct(contents) && Accept(b, "(" + contents + ")").Some?
    ensures OpenContainer(b, VariantKind, contents).Some? <==> IsSignature(contents) && Accept(b, "v").Some?
  {
    hide ValidContents, Accept, IsSignature, IsEntry, IsStruct;
    TypesAreValid(contents);
  }

  lemma TypesAreValid(contents: string)
    ensures ValidContents(ArrayKind, contents) <==> IsSignature(contents) || IsEntry(contents)
    ensures ValidContents(EntryKind, contents) <==> IsEntry("{" + contents + "}")
    ensures ValidContents(StructKind, contents) <==> IsStruct(contents)
    ensures ValidContents(VariantKind, contents) <==> IsSignature(contents)
  {
    hide Parse, IsSignature, IsEntry, IsStruct;
    ElementIsType(contents);
    StructIsTypes(contents);
    WholeIsType(contents);
    ElementIsType("{" + contents + "}");
    BraceIsEntry("{" + contents + "}");
  }

  lemma BraceIsEntry(s: string)
    requires s != "" && s[0] == '{'
    ensures !IsSignature(s)
  {
    if IsSignature(s) {
      var t :| WfType(t) && s == Signature(t);
      SignatureFirst(t);
    }
  }

  lemma WholeIsType(s: string)
    ensures ValidContents(VariantKind, s) <==> IsSignature(s)
  {
    if ValidContents(VariantKind, s) {
      ParseSound(s);
      assert s == Signature(Parse(s).value.0);
    }
    if IsSignature(s) {
      var t :| WfType(t) && s == Signature(t);
      VariantValid(t);
    }
  }

  lemma ElementIsType(s: string)
    ensures ValidContents(ArrayKind, s) <==> IsSignature(s) || IsEntry(s)
  {
    if ValidContents(ArrayKind, s) {
      ParseSound("a" + s);
      var t := Parse("a" + s).value.0;
      assert "a" + s == Signature(t);
      assert s == Signature(t)[1..];
      match t
      case Vec(e) => assert s == Signature(e);
      case Dict(k, v) => assert s == EntrySignature(k, v);
    }
    if IsSignature(s) {
      var t :| WfType(t) && s == Signature(t);
      ElementValid(t);
    }
    if IsEntry(s) {
      var k, v :| WfType(v) && s == EntrySignature(k, v);
      EntryValid(k, v);
    }
  }

  lemma StructIsTypes(s: string)
    ensures ValidContents(StructKind, s) <==> IsStruct(s)
  {
    if ValidContents(StructKind, s) {
      ParseSound("(" + s + ")");
      var t := Parse("(" + s + ")").value.0;
      assert "(" + s + ")" == Signature(t);
      assert s == Signature(t)[1..|s| + 1];
      match t
      case Struct(fs) => assert s == Signatures(fs);
    }
    if IsStruct(s) {
      var fs :| WfTypes(fs) && fs != [] && s == Signatures(fs);
      StructValid(fs);
    }
  }

  lemma {:induction false} SignaturesConcat(ts: seq<Type>, us: seq<Type>)
    ensures Signatures(ts + us) == Signatures(ts) + Signatures(us)
  {
    if ts == [] {
      assert ts + us == us;
    } else {
      assert (ts + us)[1..] == ts[1..] + us;
      SignaturesConcat(ts[1..], us);
    }
  }

  lemma SignaturesSplit(fs: seq<Type>, i: nat)
    requires i < |fs|
    ensures Signatures(fs[..i + 1]) == Signatures(fs[..i]) + Signature(fs[i])
    ensures |Signatures(fs[..i])| <= |Signatures(fs)|
    ensures Prefix(Signature(fs[i]), Signatures(fs)[|Signatures(fs[..i])|..])
  {
    assert fs == fs[..i] + [fs[i]] + fs[i + 1..] && fs[..i + 1] == fs[..i] + [fs[i]];
    SignaturesConcat(fs[..i], [fs[i]]);
    SignaturesConcat(fs[..i] + [fs[i]], fs[i + 1..]);
    assert [fs[i]][1..] == [] && Signatures([fs[i]]) == Signature(fs[i]);
  }
}
