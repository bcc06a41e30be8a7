/** C++ values, what serialising one puts into a message, and what reading an item into a
    variable does to that variable. These are the reference definitions; the operators of
    include/sdbus-c++/Message.h are proved against them in Message.dfy. */
module Values {
  import opened Options
  import opened TypeTraits
  import opened SdBus

  datatype Value =
    | VBasic(data: Payload)
    | VSeq(elems: seq<Value>)
    | VMap(entries: seq<KeyValue>)                   // in iteration order
    | VStruct(fields: seq<Value>)
    | VVariant(items: seq<Item>, sealed: bool)       // sdbus::Variant: a message of its own
    | VAlt(index: nat, val: Value)                   // std::variant

  datatype KeyValue = KeyValue(key: Payload, val: Value)

  predicate HasKey(es: seq<KeyValue>, key: Payload) {
    exists i | 0 <= i < |es| :: es[i].key == key
  }

  predicate DistinctKeys(es: seq<KeyValue>) {
    forall i, j | 0 <= i < j < |es| :: es[i].key != es[j].key
  }

  /** `map::insert`: an entry whose key is present is dropped. */
  function Insert(es: seq<KeyValue>, e: KeyValue): seq<KeyValue> {
    if HasKey(es, e.key) then es else es + [e]
  }

  /** `v` is a value of the C++ type `t`. */
  predicate Shape(t: Type, v: Value)
    decreases t, 0
  {
    match t
    case Basic(b) => v.VBasic? && PayloadOk(b, v.data)
    case Vec(e) => v.VSeq? && forall i | 0 <= i < |v.elems| :: Shape(e, v.elems[i])
    case Fixed(e, n) => v.VSeq? && |v.elems| == n && forall i | 0 <= i < n :: Shape(e, v.elems[i])
    case Dict(k, e) =>
      v.VMap? && DistinctKeys(v.entries) && ShapeEntries(k, e, v.entries)
    case Struct(fs) =>
      && v.VStruct? && |v.fields| == |fs|
      && forall i | 0 <= i < |fs| :: Shape(fs[i], v.fields[i])
    case Variant =>
      && v.VVariant? && (v.items != [] ==> v.sealed) && |v.items| <= 1
      && forall i | 0 <= i < |v.items| :: WfItem(v.items[i]) && !v.items[i].Entry?
    case StdVariant(alts) => v.VAlt? && v.index < |alts| && Shape(alts[v.index], v.val)
  }

  predicate ShapeEntries(k: Basic, e: Type, es: seq<KeyValue>)
    decreases e, 1
  {
    forall i | 0 <= i < |es| :: PayloadOk(k, es[i].key) && Shape(e, es[i].val)
  }

  function DefaultPayload(b: Basic): Payload {
    match b
    case Str => Text("") case Path => Text("") case Sig => Text("")
    case Double => Real(0.0) case Fd => Num(-1) case _ => Num(0)
  }

  /** A default-constructed variable. */
  function Default(t: Type): (v: Value)
    requires WfType(t)
    ensures Shape(t, v)
  {
    match t
    case Basic(b) => VBasic(DefaultPayload(b))
    case Vec(_) => VSeq([])
    case Fixed(e, n) => VSeq(seq(n, _ => Default(e)))
    case Dict(_, _) => VMap([])
    case Struct(fs) => VStruct(seq(|fs|, i requires 0 <= i < |fs| => Default(fs[i])))
    case Variant => VVariant([], false)
    case StdVariant(alts) => VAlt(0, Default(alts[0]))
  }

  // ---------------------------------------------------------------------------------------
  // Writing

  /** A string goes through `c_str()`, so it ends at its first NUL. */
  function CString(s: string): (r: string)
    ensures r <= s && '\0' !in r
    ensures |r| < |s| ==> s[|r|] == '\0'
  {
    if s == "" || s[0] == '\0' then "" else [s[0]] + CString(s[1..])
  }

  function Sent(p: Payload): Payload {
    if p.Text? then Text(CString(p.s)) else p
  }

  /** Every Variant in `v` was built from a value or read from one. */
  predicate Sendable(t: Type, v: Value)
    requires Shape(t, v)
    decreases t, 0
  {
    match t
    case Basic(_) => true
    case Vec(e) => SendableAll(e, v.elems)
    case Fixed(e, _) => SendableAll(e, v.elems)
    case Dict(k, e) => SendableEntries(k, e, v.entries)
    case Struct(fs) => SendableFields(fs, v.fields)
    case Variant => v.items != [] && v.items[0].Boxed?
    case StdVariant(alts) => Sendable(alts[v.index], v.val)
  }

  predicate SendableAll(e: Type, vs: seq<Value>)
    decreases e, 1
  {
    forall i | 0 <= i < |vs| :: Shape(e, vs[i]) && Sendable(e, vs[i])
  }

  predicate SendableEntries(k: Basic, e: Type, es: seq<KeyValue>)
    decreases e, 1
  {
    ShapeEntries(k, e, es) && forall i | 0 <= i < |es| :: Sendable(e, es[i].val)
  }

  predicate SendableFields(fs: seq<Type>, vs: seq<Value>)
    decreases fs, 1
  {
    && |fs| == |vs|
    && forall i | 0 <= i < |fs| :: Shape(fs[i], vs[i]) && Sendable(fs[i], vs[i])
  }

  /** The item that stands for `v` on the wire. */
  function Encode(t: Type, v: Value): Item
    requires Shape(t, v) && Sendable(t, v)
    decreases t, 0, 0
  {
    match t
    case Basic(b) => Plain(b, Sent(v.data))
    case Vec(e) => Array(Signature(e), EncodeAll(e, v.elems))
    case Fixed(e, _) => Array(Signature(e), EncodeAll(e, v.elems))
    case Dict(k, e) => Array(EntrySignature(k, e), EncodeEntries(k, e, v.entries))
    case Struct(fs) => Tuple(EncodeFields(fs, v.fields))
    case Variant => v.items[0]
    case StdVariant(alts) => Boxed(Encode(alts[v.index], v.val))
  }

  function EncodeAll(e: Type, vs: seq<Value>): (items: seq<Item>)
    requires SendableAll(e, vs)
    ensures |items| == |vs|
    decreases e, 1
  {
    seq(|vs|, i requires 0 <= i < |vs| => Encode(e, vs[i]))
  }

  function EncodeEntries(k: Basic, e: Type, es: seq<KeyValue>): (items: seq<Item>)
    requires SendableEntries(k, e, es)
    ensures |items| == |es|
    decreases e, 1
  {
    seq(|es|, i requires 0 <= i < |es| => EncodeEntry(k, e, es[i]))
  }

  function EncodeEntry(k: Basic, e: Type, kv: KeyValue): Item
    requires Shape(e, kv.val) && Sendable(e, kv.val)
    decreases e, 0, 1
  {
    Entry(Plain(k, Sent(kv.key)), Encode(e, kv.val))
  }

  function EncodeFields(fs: seq<Type>, vs: seq<Value>): (items: seq<Item>)
    requires SendableFields(fs, vs)
    ensures |items| == |fs|
    decreases fs, 1
  {
    seq(|fs|, i requires 0 <= i < |fs| => Encode(fs[i], vs[i]))
  }

  // ---------------------------------------------------------------------------------------
  // Reading

  /** A read finishes with a value, throws, or runs into undefined behaviour. */
  datatype Res<+T> = Got(value: T) | Throws | Crashes {
    predicate IsFailure() {
      !Got?
    }

    function PropagateFailure<U>(): Res<U>
      requires !Got?
    {
      if Throws? then Throws else Crashes
    }

    function Extract(): T
      requires Got?
    {
      value
    }
  }

  function Then<T>(done: seq<T>, r: Res<seq<T>>): Res<seq<T>> {
    if r.Got? then Got(done + r.value) else r
  }

  /** What a read leaves in the variable when it stands at the end of the enclosing array. */
  function EndValue(t: Type, dest: Value): Value {
    if t == Basic(Boolean) then VBasic(Num(0))
    else if t == Basic(Fd) then VBasic(Num(-1))
    else if t.Variant? then VVariant([], true)
    else dest
  }

  /** Outcome of a read at the end of the enclosing array. peekType has no contents there, so a
      std::variant compares against a null pointer; a Variant cannot be copied into twice. */
  function AtEnd(t: Type, dest: Value): Res<Value>
    requires Shape(t, dest)
  {
    if t.StdVariant? then Crashes
    else if t.Variant? && dest.sealed then Throws
    else Got(EndValue(t, dest))
  }

  /** The least alternative whose signature is `contents`. */
  function Pick(alts: seq<Type>, contents: string): (r: Option<nat>)
    ensures r.Some? ==> r.value < |alts| && Signature(alts[r.value]) == contents
    ensures forall i | 0 <= i < |alts| && (r.Some? ==> i < r.value) :: Signature(alts[i]) != contents
  {
    if alts == [] then None
    else if Signature(alts[0]) == contents then Some(0)
    else
      match Pick(alts[1..], contents)
      case Some(i) =>
        assert forall j | 0 < j < |alts| :: alts[j] == alts[1..][j - 1];
        Some(i + 1)
      case None =>
        assert forall j | 0 < j < |alts| :: alts[j] == alts[1..][j - 1];
        None
  }

  /** Reading `item` into a variable of type `t` that holds `dest`. */
  function Decode(t: Type, dest: Value, item: Item): Res<Value>
    requires WfType(t) && Shape(t, dest)
    decreases t, 0
  {
    match t
    case Basic(b) =>
      if item.Plain? && item.basic == b then Got(VBasic(item.data)) else Throws
    case Vec(e) =>
      if !(item.Array? && item.elem == Signature(e)) then Throws
      else
        var vs :- DecodeAll(e, item.items);
        Got(VSeq(dest.elems + vs))
    case Fixed(e, _) =>
      if !(item.Array? && item.elem == Signature(e)) then Throws
      else
        var vs :- DecodeOver(e, dest.elems, item.items);
        Got(VSeq(vs))
    case Dict(k, e) =>
      if !(item.Array? && item.elem == EntrySignature(k, e)) then Throws
      else
        var es :- DecodeEntries(k, e, dest.entries, item.items);
        Got(VMap(es))
    case Struct(fs) =>
      if !(item.Tuple? && ItemSignatures(item.fields) == Signatures(fs)) then Throws
      else
        var vs :- DecodeFields(fs, dest.fields, item.fields);
        Got(VStruct(vs))
    case Variant => if dest.sealed then Throws else Got(VVariant([item], true))
    case StdVariant(alts) =>
      if item.Plain? then Crashes
      else
        match Pick(alts, Contents(item))
        case None => Throws
        case Some(i) =>
          var v :- DecodeBoxed(alts[i], item);
          Got(VAlt(i, v))
  }

  /** The contents of a variant item, into a fresh variable. */
  function DecodeBoxed(t: Type, item: Item): Res<Value>
    requires WfType(t)
    decreases t, 1
  {
    if item.Boxed? then Decode(t, Default(t), item.inner) else Throws
  }

  /** Elements into fresh variables, up to the end of the array. */
  function DecodeAll(e: Type, items: seq<Item>): Res<seq<Value>>
    requires WfType(e)
    decreases e, 1, |items|
  {
    if items == [] then (if e.StdVariant? then Crashes else Got([]))
    else
      var v :- Decode(e, Default(e), items[0]);
      Then([v], DecodeAll(e, items[1..]))
  }

  /** Elements over the variables of a fixed-size sequence. */
  function DecodeOver(e: Type, dests: seq<Value>, items: seq<Item>): Res<seq<Value>>
    requires WfType(e) && forall i | 0 <= i < |dests| :: Shape(e, dests[i])
    decreases e, 1, |dests|
  {
    if dests == [] then (if items == [] then Got([]) else Throws)
    else if items == [] then
      var v :- AtEnd(e, dests[0]);
      Got([v] + dests[1..])
    else
      var v :- Decode(e, dests[0], items[0]);
      Then([v], DecodeOver(e, dests[1..], items[1..]))
  }

  function DecodeEntry(k: Basic, e: Type, item: Item): Res<KeyValue>
    requires WfType(e)
    decreases e, 2
  {
    if item.Entry? && Contents(item) == [Code(k)] + Signature(e) then DecodePair(k, e, [item.key, item.val])
    else Throws
  }

  /** Key and value of a dictionary entry, into fresh variables. */
  function DecodePair(k: Basic, e: Type, items: seq<Item>): Res<KeyValue>
    requires WfType(e) && |items| == 2
    decreases e, 1
  {
    if !(items[0].Plain? && items[0].basic == k) then Throws
    else
      var v :- Decode(e, Default(e), items[1]);
      Got(KeyValue(items[0].data, v))
  }

  function DecodeEntries(k: Basic, e: Type, es: seq<KeyValue>, items: seq<Item>): Res<seq<KeyValue>>
    requires WfType(e)
    decreases e, 3, |items|
  {
    if items == [] then Got(es)
    else
      var kv :- DecodeEntry(k, e, items[0]);
      DecodeEntries(k, e, Insert(es, kv), items[1..])
  }

  function DecodeFields(fs: seq<Type>, dests: seq<Value>, items: seq<Item>): Res<seq<Value>>
    requires WfTypes(fs) && |dests| == |fs| && forall i | 0 <= i < |fs| :: Shape(fs[i], dests[i])
    decreases fs, 1
  {
    if fs == [] then (if items == [] then Got([]) else Throws)
    else if items == [] then Throws
    else
      var v :- Decode(fs[0], dests[0], items[0]);
      Then([v], DecodeFields(fs[1..], dests[1..], items[1..]))
  }
}
