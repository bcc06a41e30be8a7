/** What the serialisation operators promise together: the writer emits well-typed items, a read
    succeeds exactly on its own signature, and a value survives the round trip exactly when it is
    faithful. */
module Serialisation {
  import opened TypeTraits
  import opened SdBus
  import opened Values
  import opened Messages

  // ---------------------------------------------------------------------------------------
  // Writer type soundness

  /** Whatever is written, the item agrees with every contents signature declared on the way and
      has the signature of the C++ type. */
  lemma {:induction false} EncodeTyped(t: Type, v: Value)
    requires WfType(t) && Shape(t, v) && Sendable(t, v)
    ensures WfItem(Encode(t, v)) && !Encode(t, v).Entry?
    ensures ItemSignature(Encode(t, v)) == Signature(t)
    decreases t, 0
  {
    hide EncodeAll, EncodeEntries, EncodeFields, ItemSignatures, Signatures, EntrySignature;
    match t
    case Basic(b) =>
    case Variant =>
    case Vec(e) => EncodeAllTyped(e, v.elems);
    case Fixed(e, _) => EncodeAllTyped(e, v.elems);
    case Dict(k, e) => EncodeEntriesTyped(k, e, v.entries);
    case Struct(fs) => EncodeFieldsTyped(fs, v.fields);
    case StdVariant(alts) => EncodeTyped(alts[v.index], v.val);
  }

  lemma EncodeAllTyped(e: Type, vs: seq<Value>)
    requires WfType(e) && SendableAll(e, vs)
    ensures WfItem(Array(Signature(e), EncodeAll(e, vs)))
    decreases e, 1
  {
    hide Encode, Shape, Sendable, WfType, Signature, ItemSignature;
    ElementValid(e);
    forall i | 0 <= i < |vs|
      ensures WfItem(Encode(e, vs[i])) && ItemSignature(Encode(e, vs[i])) == Signature(e)
    {
      EncodeTyped(e, vs[i]);
    }
  }

  lemma EncodeEntriesTyped(k: Basic, e: Type, es: seq<KeyValue>)
    requires WfType(e) && SendableEntries(k, e, es)
    ensures WfItem(Array(EntrySignature(k, e), EncodeEntries(k, e, es)))
    decreases e, 2
  {
    hide EncodeEntry, Shape, Sendable, WfType, EntrySignature, ItemSignature, PayloadOk;
    EntryValid(k, e);
    forall i | 0 <= i < |es|
      ensures WfItem(EncodeEntry(k, e, es[i]))
      ensures ItemSignature(EncodeEntry(k, e, es[i])) == EntrySignature(k, e)
    {
      EncodeEntryTyped(k, e, es[i]);
    }
  }

  lemma EncodeEntryTyped(k: Basic, e: Type, kv: KeyValue)
    requires WfType(e) && PayloadOk(k, kv.key) && Shape(e, kv.val) && Sendable(e, kv.val)
    ensures WfItem(EncodeEntry(k, e, kv)) && ItemSignature(EncodeEntry(k, e, kv)) == EntrySignature(k, e)
    decreases e, 1
  {
    hide Encode, Shape, Sendable, WfType, Signature;
    EncodeTyped(e, kv.val);
    assert ItemSignature(Plain(k, Sent(kv.key))) == [Code(k)] && WfItem(Plain(k, Sent(kv.key)));
    assert EntrySignature(k, e) == "{" + ([Code(k)] + Signature(e)) + "}";
  }

  lemma EncodeFieldsTyped(fs: seq<Type>, vs: seq<Value>)
    requires WfTypes(fs) && SendableFields(fs, vs)
    ensures forall i | 0 <= i < |fs| :: WfItem(EncodeFields(fs, vs)[i]) && !EncodeFields(fs, vs)[i].Entry?
    ensures ItemSignatures(EncodeFields(fs, vs)) == Signatures(fs)
    decreases fs, 1
  {
    hide Encode, Shape, Sendable, WfType, Signature, ItemSignature, WfItem, Signatures, ItemSignatures;
    forall i | 0 <= i < |fs|
      ensures WfItem(Encode(fs[i], vs[i])) && !Encode(fs[i], vs[i]).Entry?
      ensures ItemSignature(Encode(fs[i], vs[i])) == Signature(fs[i])
    {
      EncodeTyped(fs[i], vs[i]);
    }
    SameSignatureLists(fs, EncodeFields(fs, vs));
  }

  lemma {:induction false} SameSignatureLists(fs: seq<Type>, items: seq<Item>)
    requires |fs| == |items| && forall i | 0 <= i < |fs| :: ItemSignature(items[i]) == Signature(fs[i])
    ensures ItemSignatures(items) == Signatures(fs)
  {
    if fs != [] {
      SameSignatureLists(fs[1..], items[1..]);
    }
  }

  // ---------------------------------------------------------------------------------------
  // Round trips

  predicate NoNul(p: Payload) {
    p.Text? ==> '\0' !in p.s
  }

  /** What a caller can check before sending: no text holds a NUL, no vector of std::variant is
      involved, and every std::variant holds the first alternative with its signature. */
  predicate Faithful(t: Type, v: Value)
    requires Shape(t, v)
    decreases t, 0
  {
    match t
    case Basic(_) => NoNul(v.data)
    case Vec(e) => !e.StdVariant? && FaithfulAll(e, v.elems)
    case Fixed(e, _) => FaithfulAll(e, v.elems)
    case Dict(k, e) => FaithfulEntries(k, e, v.entries)
    case Struct(fs) => FaithfulFields(fs, v.fields)
    case Variant => true
    case StdVariant(alts) =>
      && (forall j | 0 <= j < v.index :: Signature(alts[j]) != Signature(alts[v.index]))
      && Faithful(alts[v.index], v.val)
  }

  predicate FaithfulAll(e: Type, vs: seq<Value>)
    requires forall i | 0 <= i < |vs| :: Shape(e, vs[i])
    decreases e, 1
  {
    forall i | 0 <= i < |vs| :: Faithful(e, vs[i])
  }

  predicate FaithfulEntries(k: Basic, e: Type, es: seq<KeyValue>)
    requires ShapeEntries(k, e, es)
    decreases e, 1
  {
    forall i | 0 <= i < |es| :: NoNul(es[i].key) && Faithful(e, es[i].val)
  }

  predicate FaithfulFields(fs: seq<Type>, vs: seq<Value>)
    requires |fs| == |vs| && forall i | 0 <= i < |fs| :: Shape(fs[i], vs[i])
    decreases fs, 1
  {
    forall i | 0 <= i < |fs| :: Faithful(fs[i], vs[i])
  }

  lemma {:induction false} CStringKeeps(s: string)
    ensures CString(s) == s <==> '\0' !in s
    ensures |CString(s)| <= |s|
  {
    if s != "" {
      CStringKeeps(s[1..]);
      assert s == [s[0]] + s[1..];
    }
  }

  lemma SentKeeps(p: Payload)
    ensures Sent(p) == p <==> NoNul(p)
  {
    if p.Text? { CStringKeeps(p.s); }
  }

  /** Reading what was written into a fresh variable gives the value back if and only if it is
      faithful, for every type nested to any depth. */
  lemma {:induction false} RoundTrip(t: Type, v: Value)
    requires WfType(t) && Shape(t, v) && Sendable(t, v)
    ensures Decode(t, Default(t), Encode(t, v)) == Got(v) <==> Faithful(t, v)
    decreases t, 0
  {
    hide DecodeAll, DecodeOver, DecodeEntries, DecodeFields, FaithfulAll, FaithfulEntries, FaithfulFields, WfItem;
    match t
    case Basic(b) => SentKeeps(v.data);
    case Variant => assert v.items == [v.items[0]];
    case Vec(e) =>
      RoundTripAll(e, v.elems);
      PrependNothing(DecodeAll(e, EncodeAll(e, v.elems)));
    case Fixed(e, n) => RoundTripOver(e, Default(t).elems, v.elems);
    case Dict(k, e) =>
      RoundTripEntries(k, e, [], v.entries);
      assert [] + v.entries == v.entries;
    case Struct(fs) =>
      EncodeFieldsTyped(fs, v.fields);
      RoundTripFields(fs, Default(t).fields, v.fields);
    case StdVariant(alts) => RoundTripAlternative(alts, v);
  }

  lemma PrependNothing(r: Res<seq<Value>>)
    ensures r.Got? ==> [] + r.value == r.value
  {
  }

  /** A read of several items gives back `[v] + vs` just when its first and its other reads do. */
  lemma ThenGives(r: Res<Value>, rest: Res<seq<Value>>, v: Value, vs: seq<Value>)
    ensures (match r case Got(x) => Then([x], rest) case Throws => Throws case Crashes => Crashes) == Got([v] + vs)
            <==> r == Got(v) && rest == Got(vs)
  {
    if r.Got? && rest.Got? {
      assert ([r.value] + rest.value)[1..] == rest.value && ([v] + vs)[1..] == vs;
    }
  }

  lemma AllStep(e: Type, vs: seq<Value>)
    requires WfType(e) && SendableAll(e, vs) && vs != []
    ensures Shape(e, vs[0]) && Sendable(e, vs[0]) && SendableAll(e, vs[1..])
    ensures DecodeAll(e, EncodeAll(e, vs)) ==
            match Decode(e, Default(e), Encode(e, vs[0]))
            case Got(x) => Then([x], DecodeAll(e, EncodeAll(e, vs[1..])))
            case Throws => Throws
            case Crashes => Crashes
    ensures FaithfulAll(e, vs) <==> Faithful(e, vs[0]) && FaithfulAll(e, vs[1..])
  {
    hide Decode, Encode, Default, Shape, Sendable, Faithful, Then, WfType;
    assert EncodeAll(e, vs)[1..] == EncodeAll(e, vs[1..]);
    assert vs == [vs[0]] + vs[1..];
  }

  lemma {:induction false} RoundTripAll(e: Type, vs: seq<Value>)
    requires WfType(e) && SendableAll(e, vs)
    ensures DecodeAll(e, EncodeAll(e, vs)) == Got(vs) <==> !e.StdVariant? && FaithfulAll(e, vs)
    decreases e, 1, |vs|
  {
    hide Decode, Encode, Default, Shape, Sendable, Faithful, WfType;
    if vs != [] {
      AllStep(e, vs);
      hide DecodeAll, FaithfulAll, Then, EncodeAll, SendableAll;
      RoundTrip(e, vs[0]);
      RoundTripAll(e, vs[1..]);
      ThenGives(Decode(e, Default(e), Encode(e, vs[0])), DecodeAll(e, EncodeAll(e, vs[1..])), vs[0], vs[1..]);
      assert vs == [vs[0]] + vs[1..];
    }
  }

  predicate Fresh(e: Type, dests: seq<Value>)
    requires WfType(e)
  {
    forall i | 0 <= i < |dests| :: Shape(e, dests[i]) && dests[i] == Default(e)
  }

  lemma OverStep(e: Type, dests: seq<Value>, vs: seq<Value>)
    requires WfType(e) && SendableAll(e, vs) && vs != [] && |dests| == |vs| && Fresh(e, dests)
    ensures Shape(e, vs[0]) && Sendable(e, vs[0]) && SendableAll(e, vs[1..]) && Fresh(e, dests[1..])
    ensures DecodeOver(e, dests, EncodeAll(e, vs)) ==
            match Decode(e, Default(e), Encode(e, vs[0]))
            case Got(x) => Then([x], DecodeOver(e, dests[1..], EncodeAll(e, vs[1..])))
            case Throws => Throws
            case Crashes => Crashes
  {
    hide Decode, Encode, Default, Shape, Sendable, Then, WfType;
    assert EncodeAll(e, vs)[1..] == EncodeAll(e, vs[1..]);
  }

  lemma {:induction false} RoundTripOver(e: Type, dests: seq<Value>, vs: seq<Value>)
    requires WfType(e) && SendableAll(e, vs) && |dests| == |vs| && Fresh(e, dests)
    ensures DecodeOver(e, dests, EncodeAll(e, vs)) == Got(vs) <==> FaithfulAll(e, vs)
    decreases e, 1, |vs|
  {
    hide Decode, Encode, Default, Shape, Sendable, Faithful, WfType;
    if vs != [] {
      AllStep(e, vs);
      OverStep(e, dests, vs);
      hide DecodeAll, DecodeOver, FaithfulAll, Then, EncodeAll, SendableAll;
      RoundTrip(e, vs[0]);
      RoundTripOver(e, dests[1..], vs[1..]);
      ThenGives(Decode(e, Default(e), Encode(e, vs[0])),
                DecodeOver(e, dests[1..], EncodeAll(e, vs[1..])), vs[0], vs[1..]);
      assert vs == [vs[0]] + vs[1..];
    }
  }

  predicate FreshFields(fs: seq<Type>, dests: seq<Value>)
    requires WfTypes(fs)
  {
    |dests| == |fs| && forall i | 0 <= i < |fs| :: Shape(fs[i], dests[i]) && dests[i] == Default(fs[i])
  }

  lemma FieldsStep(fs: seq<Type>, dests: seq<Value>, vs: seq<Value>)
    requires WfTypes(fs) && SendableFields(fs, vs) && fs != [] && FreshFields(fs, dests)
    ensures Shape(fs[0], vs[0]) && Sendable(fs[0], vs[0])
    ensures SendableFields(fs[1..], vs[1..]) && FreshFields(fs[1..], dests[1..])
    ensures DecodeFields(fs, dests, EncodeFields(fs, vs)) ==
            match Decode(fs[0], Default(fs[0]), Encode(fs[0], vs[0]))
            case Got(x) => Then([x], DecodeFields(fs[1..], dests[1..], EncodeFields(fs[1..], vs[1..])))
            case Throws => Throws
            case Crashes => Crashes
  {
    hide Decode, Encode, Default, Shape, Sendable, Then, WfType;
    assert EncodeFields(fs, vs)[1..] == EncodeFields(fs[1..], vs[1..]);
  }

  lemma FaithfulFieldsStep(fs: seq<Type>, vs: seq<Value>)
    requires fs != [] && |fs| == |vs| && forall i | 0 <= i < |fs| :: Shape(fs[i], vs[i])
    ensures FaithfulFields(fs, vs) <==> Faithful(fs[0], vs[0]) && FaithfulFields(fs[1..], vs[1..])
  {
    hide Shape, Faithful;
    assert vs == [vs[0]] + vs[1..] && fs == [fs[0]] + fs[1..];
  }

  lemma {:induction false} RoundTripFields(fs: seq<Type>, dests: seq<Value>, vs: seq<Value>)
    requires WfTypes(fs) && SendableFields(fs, vs) && FreshFields(fs, dests)
    ensures DecodeFields(fs, dests, EncodeFields(fs, vs)) == Got(vs) <==> FaithfulFields(fs, vs)
    decreases fs, 1
  {
    hide Decode, Encode, Default, Shape, Sendable, Faithful, WfType;
    if fs != [] {
      FieldsStep(fs, dests, vs);
      FaithfulFieldsStep(fs, vs);
      RoundTrip(fs[0], vs[0]);
      RoundTripFields(fs[1..], dests[1..], vs[1..]);
      ThenGives(Decode(fs[0], Default(fs[0]), Encode(fs[0], vs[0])),
                DecodeFields(fs[1..], dests[1..], EncodeFields(fs[1..], vs[1..])), vs[0], vs[1..]);
      assert vs == [vs[0]] + vs[1..];
    }
  }

  /** Reading entries only ever appends to what the map holds. */
  lemma {:induction false} EntriesExtend(k: Basic, e: Type, es: seq<KeyValue>, items: seq<Item>)
    requires WfType(e)
    ensures DecodeEntries(k, e, es, items).Got? ==>
              var r := DecodeEntries(k, e, es, items).value;
              es <= r && |r| <= |es| + |items|
    decreases |items|
  {
    hide DecodeEntry, WfType;
    if items != [] && DecodeEntry(k, e, items[0]).Got? {
      EntriesExtend(k, e, Insert(es, DecodeEntry(k, e, items[0]).value), items[1..]);
    }
  }

  lemma SendableStep(k: Basic, e: Type, es: seq<KeyValue>)
    requires SendableEntries(k, e, es) && es != []
    ensures PayloadOk(k, es[0].key) && Shape(e, es[0].val) && Sendable(e, es[0].val)
    ensures ShapeEntries(k, e, es) && SendableEntries(k, e, es[1..]) && ShapeEntries(k, e, es[1..])
  {
    hide Shape, Sendable, PayloadOk;
    var rest := es[1..];
    forall i | 0 <= i < |rest|
      ensures PayloadOk(k, rest[i].key) && Shape(e, rest[i].val) && Sendable(e, rest[i].val)
    {
      assert rest[i] == es[i + 1];
    }
  }

  lemma FaithfulStep(k: Basic, e: Type, es: seq<KeyValue>)
    requires ShapeEntries(k, e, es) && es != [] && ShapeEntries(k, e, es[1..])
    ensures FaithfulEntries(k, e, es) <==>
            NoNul(es[0].key) && Faithful(e, es[0].val) && FaithfulEntries(k, e, es[1..])
  {
    hide Shape, Faithful, PayloadOk, NoNul;
    var rest := es[1..];
    assert forall i | 0 <= i < |rest| :: rest[i] == es[i + 1];
    if FaithfulEntries(k, e, rest) && NoNul(es[0].key) && Faithful(e, es[0].val) {
      forall i | 0 <= i < |es| ensures NoNul(es[i].key) && Faithful(e, es[i].val) {
        assert i > 0 ==> es[i] == rest[i - 1];
      }
    }
  }

  lemma EntriesStep(k: Basic, e: Type, done: seq<KeyValue>, es: seq<KeyValue>)
    requires WfType(e) && SendableEntries(k, e, es) && es != []
    requires Shape(e, es[0].val) && Sendable(e, es[0].val) && SendableEntries(k, e, es[1..])
    ensures DecodeEntries(k, e, done, EncodeEntries(k, e, es)) ==
            match DecodeEntry(k, e, EncodeEntry(k, e, es[0]))
            case Got(x) => DecodeEntries(k, e, Insert(done, x), EncodeEntries(k, e, es[1..]))
            case Throws => Throws
            case Crashes => Crashes
  {
    hide DecodeEntry, EncodeEntry, Shape, Sendable, WfType, PayloadOk, Insert;
    assert EncodeEntries(k, e, es)[1..] == EncodeEntries(k, e, es[1..]);
  }

  lemma NewKey(done: seq<KeyValue>, es: seq<KeyValue>)
    requires es != [] && DistinctKeys(done + es)
    ensures Insert(done, es[0]) == done + [es[0]]
    ensures done + es == done + [es[0]] + es[1..]
  {
    assert (done + es)[|done|] == es[0];
    assert forall i | 0 <= i < |done| :: (done + es)[i] == done[i];
  }

  lemma NoEntries(k: Basic, e: Type, done: seq<KeyValue>, es: seq<KeyValue>)
    requires WfType(e) && SendableEntries(k, e, es) && es == []
    ensures DecodeEntries(k, e, done, EncodeEntries(k, e, es)) == Got(done + es) && FaithfulEntries(k, e, es)
  {
    hide WfType;
    assert done + es == done;
  }

  lemma {:induction false} RoundTripEntries(k: Basic, e: Type, done: seq<KeyValue>, es: seq<KeyValue>)
    requires WfType(e) && SendableEntries(k, e, es) && DistinctKeys(done + es)
    ensures DecodeEntries(k, e, done, EncodeEntries(k, e, es)) == Got(done + es) <==> FaithfulEntries(k, e, es)
    decreases e, 2, |es|
  {
    hide DecodeEntry, EncodeEntry, Shape, Sendable, Faithful, WfType, PayloadOk, NoNul;
    hide DecodeEntries, EncodeEntries, SendableEntries, DistinctKeys, FaithfulEntries;
    if es == [] {
      NoEntries(k, e, done, es);
    } else {
      SendableStep(k, e, es);
      FaithfulStep(k, e, es);
      EntriesStep(k, e, done, es);
      NewKey(done, es);
      RoundTripEntry(k, e, es[0]);
      var r := DecodeEntry(k, e, EncodeEntry(k, e, es[0]));
      RoundTripEntries(k, e, done + [es[0]], es[1..]);
      if r.Got? && r.value != es[0] {
        EntriesExtend(k, e, Insert(done, r.value), EncodeEntries(k, e, es[1..]));
        assert (done + es)[|done|] == es[0];
      }
    }
  }

  lemma RoundTripEntry(k: Basic, e: Type, kv: KeyValue)
    requires WfType(e) && PayloadOk(k, kv.key) && Shape(e, kv.val) && Sendable(e, kv.val)
    ensures DecodeEntry(k, e, EncodeEntry(k, e, kv)) == Got(kv) <==> NoNul(kv.key) && Faithful(e, kv.val)
    decreases e, 1
  {
    EncodeTyped(e, kv.val);
    RoundTrip(e, kv.val);
    SentKeeps(kv.key);
    hide Decode, Encode, Default, Shape, Sendable, Faithful, WfItem, Signature, Sent, NoNul;
  }

  lemma RoundTripAlternative(alts: seq<Type>, v: Value)
    requires WfType(StdVariant(alts)) && Shape(StdVariant(alts), v) && Sendable(StdVariant(alts), v)
    ensures var t := StdVariant(alts);
            Decode(t, Default(t), Encode(t, v)) == Got(v) <==> Faithful(t, v)
    decreases alts, 1
  {
    var t := alts[v.index];
    EncodeTyped(t, v.val);
    RoundTrip(t, v.val);
    var i := Pick(alts, Signature(t)).value;
    assert i <= v.index;
    assert i == v.index <==> forall j | 0 <= j < v.index :: Signature(alts[j]) != Signature(t);
  }

  // ---------------------------------------------------------------------------------------
  // Whole messages

  lemma ArgumentsTyped(ts: seq<Type>, vs: seq<Value>)
    requires WfTypes(ts) && SendableFields(ts, vs)
    ensures WfCursor(Top(EncodeFields(ts, vs)))
  {
    EncodeFieldsTyped(ts, vs);
  }

  function Defaults(ts: seq<Type>): (vs: seq<Value>)
    requires WfTypes(ts)
    ensures FreshFields(ts, vs)
  {
    seq(|ts|, i requires 0 <= i < |ts| => Default(ts[i]))
  }

  /** Writes the arguments of a call one after the other. */
  method WriteArguments(m: Message, ts: seq<Type>, vs: seq<Value>)
    requires WfTypes(ts) && SendableFields(ts, vs) && m.state == Writing(Root("", []))
    modifies m`state
    ensures m.state == Writing(Root(Signatures(ts), EncodeFields(ts, vs)))
  {
    hide Signatures, Signature, Encode, Shape, Sendable, WfType;
    ghost var items := EncodeFields(ts, vs);
    assert Signatures(ts[..0]) == "" by { NoSignatures(ts); }
    for i := 0 to |ts|
      invariant m.state == Writing(Root(Signatures(ts[..i]), items[..i]))
    {
      SignaturesSplit(ts, i);
      assert items[..i] + [items[i]] == items[..i + 1];
      var threw := m.Write(ts[i], vs[i]);
    }
    assert ts[..|ts|] == ts && items[..|items|] == items;
  }

  lemma NoSignatures(ts: seq<Type>)
    ensures Signatures(ts[..0]) == ""
  {
  }

  /** Writes the arguments of a call, seals the message and reads them into fresh variables: the
      body has the signature of the argument types, and the receiver gets the very values sent if
      and only if they are faithful. */
  method Exchange(ts: seq<Type>, vs: seq<Value>)
    returns (r: Outcome, outs: seq<Value>, m: Message, signature: string)
    requires WfTypes(ts) && SendableFields(ts, vs)
    ensures signature == Signatures(ts)
    ensures r == Done && outs == vs <==> FaithfulFields(ts, vs)
    ensures r == Done ==> m.ok && m.state == Reading(Top([]))
  {
    ghost var items := EncodeFields(ts, vs);
    ArgumentsTyped(ts, vs);
    RoundTripFields(ts, Defaults(ts), vs);
    hide Signatures, Signature, Encode, EncodeFields, Shape, Sendable, WfType, WfItem;
    hide DecodeFields, FaithfulFields, Default;
    m := new Message();
    WriteArguments(m, ts, vs);
    signature := m.state.builder.signature;
    var threw := m.Seal();
    r, outs := m.ReadFields(ts, Defaults(ts));
  }
}
