/** What a read does to a variable that already holds something: for what was written by the library,
    the value the variable ends up with; for any well-formed item, every element by itself. */
module Destinations {
  import opened TypeTraits
  import opened SdBus
  import opened Values
  import opened Messages
  import opened Serialisation

  // ---------------------------------------------------------------------------------------
  // Values over values

  /** The entries with a key that the map does not have yet. */
  function NewEntries(held: seq<KeyValue>, es: seq<KeyValue>): seq<KeyValue> {
    if es == [] then []
    else (if HasKey(held, es[0].key) then [] else [es[0]]) + NewEntries(held, es[1..])
  }

  /** The variable that held `dest` once `v` has been read into it: a vector grows at its end, a map
      gets the new keys only, arrays and structs take over member by member, and everything else is
      replaced. */
  function Onto(t: Type, dest: Value, v: Value): Value
    requires Shape(t, dest) && Shape(t, v)
    decreases t
  {
    match t
    case Basic(_) => v
    case Variant => v
    case StdVariant(_) => v
    case Vec(_) => VSeq(dest.elems + v.elems)
    case Fixed(e, n) => VSeq(seq(n, i requires 0 <= i < n => Onto(e, dest.elems[i], v.elems[i])))
    case Dict(_, _) => VMap(dest.entries + NewEntries(dest.entries, v.entries))
    case Struct(fs) =>
      VStruct(seq(|fs|, i requires 0 <= i < |fs| => Onto(fs[i], dest.fields[i], v.fields[i])))
  }

  /** No Variant that would be read over has been used before. */
  predicate Unused(t: Type, dest: Value)
    requires Shape(t, dest)
    decreases t
  {
    match t
    case Variant => !dest.sealed
    case Fixed(e, n) => forall i | 0 <= i < n :: Unused(e, dest.elems[i])
    case Struct(fs) => forall i | 0 <= i < |fs| :: Unused(fs[i], dest.fields[i])
    case _ => true
  }

  /** For every type nested to any depth and whatever the variable held: a faithful value is read
      over it if no Variant in its place was used before, and else the read throws. */
  lemma {:induction false} RoundTripOnto(t: Type, dest: Value, v: Value)
    requires WfType(t) && Shape(t, dest) && Shape(t, v) && Sendable(t, v) && Faithful(t, v)
    ensures Decode(t, dest, Encode(t, v)) == if Unused(t, dest) then Got(Onto(t, dest, v)) else Throws
    decreases t, 0
  {
    hide DecodeAll, DecodeOver, DecodeEntries, DecodeFields, WfItem, NewEntries;
    match t
    case Basic(_) => SentKeeps(v.data);
    case Variant => assert v.items == [v.items[0]];
    case Vec(e) => RoundTripAll(e, v.elems);
    case Fixed(e, n) =>
      OverOnto(e, dest.elems, v.elems);
      assert Onto(t, dest, v).elems == OntoAll(e, dest.elems, v.elems);
    case Dict(k, e) =>
      EntriesOnto(k, e, dest.entries, v.entries);
      NewEntriesInserted(dest.entries, v.entries);
    case Struct(fs) =>
      EncodeFieldsTyped(fs, v.fields);
      FieldsOnto(fs, dest.fields, v.fields);
      assert Onto(t, dest, v).fields == OntoFields(fs, dest.fields, v.fields);
    case StdVariant(alts) => RoundTripAlternative(alts, v);
  }

  predicate Shapes(e: Type, vs: seq<Value>) {
    forall i | 0 <= i < |vs| :: Shape(e, vs[i])
  }

  function OntoAll(e: Type, dests: seq<Value>, vs: seq<Value>): (r: seq<Value>)
    requires |dests| == |vs| && Shapes(e, dests) && Shapes(e, vs)
  {
    seq(|vs|, i requires 0 <= i < |vs| => Onto(e, dests[i], vs[i]))
  }

  predicate UnusedAll(e: Type, dests: seq<Value>)
    requires Shapes(e, dests)
  {
    forall i | 0 <= i < |dests| :: Unused(e, dests[i])
  }

  lemma {:induction false} OverOnto(e: Type, dests: seq<Value>, vs: seq<Value>)
    requires WfType(e) && SendableAll(e, vs) && |dests| == |vs| && Shapes(e, dests) && FaithfulAll(e, vs)
    ensures DecodeOver(e, dests, EncodeAll(e, vs)) ==
            if UnusedAll(e, dests) then Got(OntoAll(e, dests, vs)) else Throws
    decreases e, 1, |vs|
  {
    hide Decode, Encode, Shape, Sendable, Faithful, WfType, Onto, Unused;
    if vs == [] {
      assert OntoAll(e, dests, vs) == [];
    } else {
      RoundTripOnto(e, dests[0], vs[0]);
      OverOnto(e, dests[1..], vs[1..]);
      assert EncodeAll(e, vs)[1..] == EncodeAll(e, vs[1..]);
      OntoAllStep(e, dests, vs);
    }
  }

  lemma OntoAllStep(e: Type, dests: seq<Value>, vs: seq<Value>)
    requires |dests| == |vs| && Shapes(e, dests) && Shapes(e, vs) && vs != []
    ensures OntoAll(e, dests, vs) == [Onto(e, dests[0], vs[0])] + OntoAll(e, dests[1..], vs[1..])
    ensures UnusedAll(e, dests) <==> Unused(e, dests[0]) && UnusedAll(e, dests[1..])
  {
    hide Shape, Onto, Unused;
    assert dests == [dests[0]] + dests[1..];
  }

  predicate FieldShapes(fs: seq<Type>, vs: seq<Value>) {
    |vs| == |fs| && forall i | 0 <= i < |fs| :: Shape(fs[i], vs[i])
  }

  function OntoFields(fs: seq<Type>, dests: seq<Value>, vs: seq<Value>): (r: seq<Value>)
    requires FieldShapes(fs, dests) && FieldShapes(fs, vs)
  {
    seq(|fs|, i requires 0 <= i < |fs| => Onto(fs[i], dests[i], vs[i]))
  }

  predicate UnusedFields(fs: seq<Type>, dests: seq<Value>)
    requires FieldShapes(fs, dests)
  {
    forall i | 0 <= i < |fs| :: Unused(fs[i], dests[i])
  }

  lemma {:induction false} FieldsOnto(fs: seq<Type>, dests: seq<Value>, vs: seq<Value>)
    requires WfTypes(fs) && SendableFields(fs, vs) && FieldShapes(fs, dests) && FaithfulFields(fs, vs)
    ensures DecodeFields(fs, dests, EncodeFields(fs, vs)) ==
            if UnusedFields(fs, dests) then Got(OntoFields(fs, dests, vs)) else Throws
    decreases fs, 1
  {
    hide Decode, Encode, Shape, Sendable, Faithful, WfType, Onto, Unused;
    if fs == [] {
      assert OntoFields(fs, dests, vs) == [];
    } else {
      RoundTripOnto(fs[0], dests[0], vs[0]);
      FieldsOnto(fs[1..], dests[1..], vs[1..]);
      assert EncodeFields(fs, vs)[1..] == EncodeFields(fs[1..], vs[1..]);
      OntoFieldsStep(fs, dests, vs);
    }
  }

  lemma OntoFieldsStep(fs: seq<Type>, dests: seq<Value>, vs: seq<Value>)
    requires FieldShapes(fs, dests) && FieldShapes(fs, vs) && fs != []
    ensures OntoFields(fs, dests, vs) == [Onto(fs[0], dests[0], vs[0])] + OntoFields(fs[1..], dests[1..], vs[1..])
    ensures UnusedFields(fs, dests) <==> Unused(fs[0], dests[0]) && UnusedFields(fs[1..], dests[1..])
  {
    hide Shape, Onto, Unused;
    assert dests == [dests[0]] + dests[1..] && fs == [fs[0]] + fs[1..];
  }

  function InsertAll(held: seq<KeyValue>, es: seq<KeyValue>): seq<KeyValue>
    decreases |es|
  {
    if es == [] then held else InsertAll(Insert(held, es[0]), es[1..])
  }

  lemma {:induction false} EntriesOnto(k: Basic, e: Type, held: seq<KeyValue>, es: seq<KeyValue>)
    requires WfType(e) && SendableEntries(k, e, es) && FaithfulEntries(k, e, es)
    ensures DecodeEntries(k, e, held, EncodeEntries(k, e, es)) == Got(InsertAll(held, es))
    decreases |es|
  {
    hide DecodeEntry, EncodeEntry, Shape, Sendable, Faithful, WfType, PayloadOk, NoNul, Insert;
    if es != [] {
      SendableStep(k, e, es);
      FaithfulStep(k, e, es);
      EntriesStep(k, e, held, es);
      RoundTripEntry(k, e, es[0]);
      EntriesOnto(k, e, Insert(held, es[0]), es[1..]);
    }
  }

  lemma {:induction false} NewEntriesInserted(held: seq<KeyValue>, es: seq<KeyValue>)
    requires DistinctKeys(es)
    ensures InsertAll(held, es) == held + NewEntries(held, es)
    decreases |es|
  {
    hide HasKey;
    if es == [] {
      assert held + NewEntries(held, es) == held;
    } else {
      var rest := es[1..];
      assert forall i | 0 <= i < |rest| :: rest[i] == es[i + 1] && es[i + 1].key != es[0].key;
      hide DistinctKeys;
      assert DistinctKeys(rest) by { DistinctTail(es); }
      NewEntriesInserted(Insert(held, es[0]), rest);
      OthersAreNew(held, es[0], rest);
      EntryInserted(held, es);
    }
  }

  lemma DistinctTail(es: seq<KeyValue>)
    requires es != [] && DistinctKeys(es)
    ensures DistinctKeys(es[1..])
  {
  }

  lemma EntryInserted(held: seq<KeyValue>, es: seq<KeyValue>)
    requires es != []
    ensures Insert(held, es[0]) + NewEntries(held, es[1..]) == held + NewEntries(held, es)
  {
    hide HasKey;
    var rest := NewEntries(held, es[1..]);
    assert held + [es[0]] + rest == held + ([es[0]] + rest);
    assert [] + rest == rest;
  }

  lemma {:induction false} OthersAreNew(held: seq<KeyValue>, kv: KeyValue, es: seq<KeyValue>)
    requires forall i | 0 <= i < |es| :: es[i].key != kv.key
    ensures NewEntries(Insert(held, kv), es) == NewEntries(held, es)
    decreases |es|
  {
    if es != [] {
      OthersAreNew(held, kv, es[1..]);
      assert HasKey(held + [kv], es[0].key) <==> HasKey(held, es[0].key) by {
        assert (held + [kv])[|held|] == kv;
        assert forall i | 0 <= i < |held| :: (held + [kv])[i] == held[i];
      }
    }
  }

  /** Writes the arguments of a call, seals the message and reads them over variables that may hold
      anything. */
  method ExchangeOnto(ts: seq<Type>, vs: seq<Value>, dests: seq<Value>) returns (r: Outcome, outs: seq<Value>)
    requires WfTypes(ts) && SendableFields(ts, vs) && FaithfulFields(ts, vs) && FieldShapes(ts, dests)
    ensures r == if UnusedFields(ts, dests) then Done else Threw
    ensures r == Done ==> |outs| == |ts| && forall i | 0 <= i < |ts| :: outs[i] == Onto(ts[i], dests[i], vs[i])
  {
    hide Signatures, Signature, Encode, EncodeFields, Shape, Sendable, WfType, WfItem;
    hide DecodeFields, FaithfulFields, Onto, Unused;
    ghost var items := EncodeFields(ts, vs);
    ArgumentsTyped(ts, vs);
    FieldsOnto(ts, dests, vs);
    var m := new Message();
    WriteArguments(m, ts, vs);
    var threw := m.Seal();
    r, outs := m.ReadFields(ts, dests);
  }

  // ---------------------------------------------------------------------------------------
  // Any items, one by one

  /** Reading a vector appends: what was there stays in front of what a fresh vector would get. */
  lemma VectorAppends(e: Type, dest: Value, item: Item)
    requires WfType(e) && Shape(Vec(e), dest)
    ensures Decode(Vec(e), dest, item) ==
            match Decode(Vec(e), VSeq([]), item)
            case Got(v) => Got(VSeq(dest.elems + v.elems))
            case Throws => Throws
            case Crashes => Crashes
  {
    hide DecodeAll, Shape;
    if item.Array? { PrependNothing(DecodeAll(e, item.items)); }
  }

  /** Each element of a vector is what its item gives in a fresh variable. */
  lemma {:induction false} AllElementwise(e: Type, items: seq<Item>)
    requires WfType(e)
    ensures DecodeAll(e, items).Got? <==>
            !e.StdVariant? && forall i | 0 <= i < |items| :: Decode(e, Default(e), items[i]).Got?
    ensures DecodeAll(e, items).Got? ==>
              && |DecodeAll(e, items).value| == |items|
              && forall i | 0 <= i < |items| ::
                   Decode(e, Default(e), items[i]) == Got(DecodeAll(e, items).value[i])
  {
    hide Decode, Default, WfType;
    if items != [] {
      AllElementwise(e, items[1..]);
      assert items == [items[0]] + items[1..];
    }
  }

  /** What reading past the end of the array leaves in a variable: the reads of bool and UnixFd have
      overwritten it, a Variant counts as used. */
  function PastEnd(e: Type, dest: Value): Value {
    match e
    case Basic(Boolean) => VBasic(Num(0))
    case Basic(Fd) => VBasic(Num(-1))
    case Variant => VVariant([], true)
    case _ => dest
  }

  /** There are no more items than elements, every item can be read over its element, and the element
      after the last item, if any, is neither a std::variant nor a used Variant. */
  predicate FitsOver(e: Type, dests: seq<Value>, items: seq<Item>)
    requires WfType(e) && Shapes(e, dests)
  {
    && |items| <= |dests|
    && (forall i | 0 <= i < |items| :: Decode(e, dests[i], items[i]).Got?)
    && (|items| < |dests| ==> !e.StdVariant? && (e.Variant? ==> !dests[|items|].sealed))
  }

  /** Each element is what its item gives over it, the next one is as it was but for bool, UnixFd and
      Variant, and the rest is as it was. */
  predicate GivesOver(e: Type, dests: seq<Value>, items: seq<Item>, vs: seq<Value>)
    requires WfType(e) && Shapes(e, dests) && |items| <= |dests|
  {
    && |vs| == |dests|
    && (forall i | 0 <= i < |items| :: Decode(e, dests[i], items[i]) == Got(vs[i]))
    && (|items| < |dests| ==> vs[|items|] == PastEnd(e, dests[|items|]))
    && (forall i | |items| < i < |dests| :: vs[i] == dests[i])
  }

  /** Reading over existing elements, for any items. */
  lemma {:induction false} OverElementwise(e: Type, dests: seq<Value>, items: seq<Item>)
    requires WfType(e) && Shapes(e, dests)
    ensures DecodeOver(e, dests, items).Got? <==> FitsOver(e, dests, items)
    ensures DecodeOver(e, dests, items).Got? ==> GivesOver(e, dests, items, DecodeOver(e, dests, items).value)
    decreases |dests|
  {
    hide Decode, Shape, WfType;
    if dests != [] && items != [] {
      hide FitsOver, GivesOver;
      OverElementwise(e, dests[1..], items[1..]);
      FitsOverStep(e, dests, items);
      if FitsOver(e, dests, items) {
        var v, vs := Decode(e, dests[0], items[0]).value, DecodeOver(e, dests[1..], items[1..]).value;
        GivesOverStep(e, dests, items, v, vs);
      }
    } else {
      OverEnds(e, dests, items);
    }
  }

  lemma OverEnds(e: Type, dests: seq<Value>, items: seq<Item>)
    requires WfType(e) && Shapes(e, dests) && (dests == [] || items == [])
    ensures DecodeOver(e, dests, items).Got? <==> FitsOver(e, dests, items)
    ensures DecodeOver(e, dests, items).Got? ==> GivesOver(e, dests, items, DecodeOver(e, dests, items).value)
  {
    hide Decode, Shape, WfType;
  }

  lemma FitsOverStep(e: Type, dests: seq<Value>, items: seq<Item>)
    requires WfType(e) && Shapes(e, dests) && dests != [] && items != []
    ensures FitsOver(e, dests, items) <==>
            Decode(e, dests[0], items[0]).Got? && FitsOver(e, dests[1..], items[1..])
    ensures FitsOver(e, dests, items) ==> |items| <= |dests|
  {
    hide Decode, Shape, WfType;
    assert items == [items[0]] + items[1..];
  }

  lemma GivesOverStep(e: Type, dests: seq<Value>, items: seq<Item>, v: Value, vs: seq<Value>)
    requires WfType(e) && Shapes(e, dests) && items != [] && |items| <= |dests|
    requires Decode(e, dests[0], items[0]) == Got(v) && GivesOver(e, dests[1..], items[1..], vs)
    ensures GivesOver(e, dests, items, [v] + vs)
  {
    hide Decode, Shape, WfType, PastEnd;
  }

  /** A fresh std::array that gets fewer items than it has elements ends in zeros, empty texts or no
      descriptors. */
  lemma ShortArrayEndsInZeros(b: Basic, n: nat, item: Item, i: nat)
    requires WfType(Fixed(Basic(b), n)) && item.Array? && |item.items| <= i < n
    requires Decode(Fixed(Basic(b), n), Default(Fixed(Basic(b), n)), item).Got?
    ensures var r := Decode(Fixed(Basic(b), n), Default(Fixed(Basic(b), n)), item).value;
            && r.VSeq? && |r.elems| == n
            && r.elems[i] == VBasic(match b
                                    case Str => Text("") case Path => Text("") case Sig => Text("")
                                    case Double => Real(0.0) case Fd => Num(-1) case _ => Num(0))
  {
    OverElementwise(Basic(b), Default(Fixed(Basic(b), n)).elems, item.items);
  }

  /** Each member of a struct is what its item gives over it. */
  lemma {:induction false} FieldsElementwise(fs: seq<Type>, dests: seq<Value>, items: seq<Item>)
    requires WfTypes(fs) && FieldShapes(fs, dests)
    ensures var r := DecodeFields(fs, dests, items);
            && (r.Got? <==> |items| == |fs| && forall i | 0 <= i < |fs| :: Decode(fs[i], dests[i], items[i]).Got?)
            && (r.Got? ==>
                  && |r.value| == |fs|
                  && forall i | 0 <= i < |fs| :: Decode(fs[i], dests[i], items[i]) == Got(r.value[i]))
            && (r.Crashes? ==>
                  exists i | 0 <= i < |fs| && i < |items| :: Decode(fs[i], dests[i], items[i]).Crashes?)
    decreases |fs|
  {
    hide Decode, Shape, WfType;
    if fs != [] && items != [] {
      FieldsElementwise(fs[1..], dests[1..], items[1..]);
      assert items == [items[0]] + items[1..] && dests == [dests[0]] + dests[1..] && fs == [fs[0]] + fs[1..];
    }
  }

  /** Reading a dictionary inserts what its entries give, in their order, if all of them can be read. */
  lemma {:induction false} EntriesElementwise(k: Basic, e: Type, held: seq<KeyValue>, items: seq<Item>)
    requires WfType(e)
    ensures var r := DecodeEntries(k, e, held, items);
            && (r.Got? <==> forall i | 0 <= i < |items| :: DecodeEntry(k, e, items[i]).Got?)
            && (r.Got? ==> r.value == InsertAll(held, EntriesIn(k, e, items)))
    decreases |items|
  {
    hide DecodeEntry, WfType, Insert;
    if items != [] {
      assert items == [items[0]] + items[1..];
      var kv := DecodeEntry(k, e, items[0]);
      if kv.Got? {
        EntriesElementwise(k, e, Insert(held, kv.value), items[1..]);
        if DecodeEntries(k, e, held, items).Got? {
          assert EntriesIn(k, e, items)[1..] == EntriesIn(k, e, items[1..]);
        }
      }
    }
  }

  function EntriesIn(k: Basic, e: Type, items: seq<Item>): (es: seq<KeyValue>)
    requires WfType(e) && forall i | 0 <= i < |items| :: DecodeEntry(k, e, items[i]).Got?
    ensures |es| == |items|
  {
    seq(|items|, i requires 0 <= i < |items| => DecodeEntry(k, e, items[i]).value)
  }

  /** Inserting keeps what the map holds, adds the first entry of each new key, and nothing else. */
  lemma {:induction false} FirstKeyStays(held: seq<KeyValue>, es: seq<KeyValue>)
    ensures held <= InsertAll(held, es)
    ensures forall i | 0 <= i < |es| && !HasKey(held, es[i].key) && !HasKey(es[..i], es[i].key) ::
              es[i] in InsertAll(held, es)
    ensures forall kv | kv in InsertAll(held, es) :: kv in held || kv in es
    ensures DistinctKeys(held) ==> DistinctKeys(InsertAll(held, es))
    decreases |es|
  {
    if es != [] {
      var more, rest := Insert(held, es[0]), es[1..];
      FirstKeyStays(more, rest);
      InsertsOne(held, es[0]);
      hide HasKey, DistinctKeys, Insert;
      forall i | 0 <= i < |es| && !HasKey(held, es[i].key) && !HasKey(es[..i], es[i].key)
        ensures es[i] in InsertAll(held, es)
      {
        if i > 0 {
          assert es[..i][1..] == rest[..i - 1] && es[..i][0] == es[0];
          KeysApart(held, es[0], es[..i], es[i].key);
        } else {
          assert more[|held|] in InsertAll(held, es);
        }
      }
    }
  }

  lemma InsertsOne(held: seq<KeyValue>, kv: KeyValue)
    ensures held <= Insert(held, kv) && (forall x | x in Insert(held, kv) :: x in held || x == kv)
    ensures !HasKey(held, kv.key) ==> |Insert(held, kv)| == |held| + 1 && Insert(held, kv)[|held|] == kv
    ensures DistinctKeys(held) ==> DistinctKeys(Insert(held, kv))
  {
  }

  lemma KeysApart(held: seq<KeyValue>, kv: KeyValue, es: seq<KeyValue>, key: Payload)
    requires es != [] && es[0] == kv && !HasKey(held, key) && !HasKey(es, key)
    ensures !HasKey(Insert(held, kv), key) && !HasKey(es[1..], key)
  {
    assert es[0].key != key;
    forall i | 0 <= i < |Insert(held, kv)| ensures Insert(held, kv)[i].key != key {
      assert i < |held| ==> held[i].key != key;
    }
  }
}
