/** What a read promises about items that need not come from the same library: which of them it
    accepts, that it never runs into undefined behaviour on its own signature, and that it leaves
    a value of the variable's type. */
module ReadGuarantees {
  import opened Options
  import opened TypeTraits
  import opened SdBus
  import opened Values
  import opened Messages
  import opened Serialisation

  /** Types whose signature alone decides a read: no fixed-size sequence, no std::variant. */
  predicate Readable(t: Type) {
    match t
    case Basic(_) => true
    case Variant => true
    case Vec(e) => Readable(e)
    case Dict(_, e) => Readable(e)
    case Struct(fs) => forall i | 0 <= i < |fs| :: Readable(fs[i])
    case Fixed(_, _) => false
    case StdVariant(_) => false
  }

  predicate WfItems(items: seq<Item>) {
    forall i | 0 <= i < |items| :: WfItem(items[i]) && !items[i].Entry?
  }

  lemma FirstChar(item: Item)
    ensures var s := ItemSignature(item);
            && s != ""
            && (item.Array? <==> s[0] == 'a')
            && (item.Tuple? <==> s[0] == '(')
            && (item.Entry? <==> s[0] == '{')
  {
  }

  lemma BracketsMatch(u: string, v: string, open: char, close: char)
    ensures [open] + u + [close] == [open] + v + [close] <==> u == v
  {
    assert ([open] + u + [close])[1..|u| + 1] == u && ([open] + v + [close])[1..|v| + 1] == v;
  }

  lemma ContainerSignatures(item: Item, s: string)
    ensures ItemSignature(item) == "a" + s <==> item.Array? && item.elem == s
    ensures ItemSignature(item) == "(" + s + ")" <==> item.Tuple? && ItemSignatures(item.fields) == s
  {
    FirstChar(item);
    if item.Array? { assert ("a" + item.elem)[1..] == item.elem && ("a" + s)[1..] == s; }
    if item.Tuple? { BracketsMatch(ItemSignatures(item.fields), s, '(', ')'); }
  }

  /** A read into a fresh variable succeeds exactly on an item of its own signature and throws on
      every other; a Variant takes any item. */
  lemma {:induction false} ReadsItsSignature(t: Type, item: Item)
    requires WfType(t) && Readable(t) && WfItem(item) && !item.Entry?
    ensures if t.Variant? || ItemSignature(item) == Signature(t)
            then Decode(t, Default(t), item).Got? else Decode(t, Default(t), item).Throws?
    decreases t, 0
  {
    hide DecodeAll, DecodeEntries, DecodeFields, ItemSignatures, Signatures, EntrySignature;
    match t
    case Basic(b) => if ItemSignature(item) == Signature(t) { PlainBySignature(item, b); }
    case Variant =>
    case Vec(e) =>
      ContainerSignatures(item, Signature(e));
      if item.Array? && item.elem == Signature(e) { ReadsAll(e, item.items); }
    case Dict(k, e) =>
      ContainerSignatures(item, EntrySignature(k, e));
      if item.Array? && item.elem == EntrySignature(k, e) { ReadsEntries(k, e, [], item.items); }
    case Struct(fs) =>
      ContainerSignatures(item, Signatures(fs));
      if item.Tuple? && ItemSignatures(item.fields) == Signatures(fs) {
        FieldSignatures(fs, item.fields);
        ReadsFields(fs, Default(t).fields, item.fields);
      }
  }

  lemma {:induction false} ReadsAll(e: Type, items: seq<Item>)
    requires WfType(e) && Readable(e)
    requires forall i | 0 <= i < |items| :: WfItem(items[i]) && ItemSignature(items[i]) == Signature(e)
    ensures DecodeAll(e, items).Got?
    decreases e, 1, |items|
  {
    if items != [] {
      SignatureFirst(e);
      ReadsItsSignature(e, items[0]);
      ReadsAll(e, items[1..]);
    }
  }

  lemma EntryBySignature(item: Item, k: Basic, e: Type)
    requires WfType(e) && WfItem(item) && ItemSignature(item) == EntrySignature(k, e)
    ensures item.Entry? && item.key.Plain? && item.key.basic == k
    ensures WfItem(item.val) && !item.val.Entry? && ItemSignature(item.val) == Signature(e)
    ensures Contents(item) == [Code(k)] + Signature(e)
  {
    hide Signature, Code;
    FirstChar(item);
    EntryShape(item);
    var key, val := [Code(item.key.basic)], ItemSignature(item.val);
    hide ItemSignature, WfItem;
    SameEntry(key, val, [Code(k)], Signature(e));
    BasicOfCode(k);
    BasicOfCode(item.key.basic);
  }

  lemma EntryShape(item: Item)
    requires item.Entry? && WfItem(item)
    ensures item.key.Plain? && WfItem(item.val) && !item.val.Entry?
    ensures Contents(item) == [Code(item.key.basic)] + ItemSignature(item.val)
    ensures ItemSignature(item) == "{" + ([Code(item.key.basic)] + ItemSignature(item.val)) + "}"
  {
    hide Code;
  }

  lemma SameEntry(key: string, val: string, key': string, val': string)
    requires |key| == 1 && |key'| == 1 && "{" + (key + val) + "}" == "{" + key' + val' + "}"
    ensures key == key' && val == val'
  {
    assert "{" + key' + val' + "}" == "{" + (key' + val') + "}";
    BracketsMatch(key + val, key' + val', '{', '}');
    assert (key + val)[0] == key[0] && (key' + val')[0] == key'[0];
    assert (key + val)[1..] == val && (key' + val')[1..] == val';
  }

  lemma {:induction false} ReadsEntries(k: Basic, e: Type, es: seq<KeyValue>, items: seq<Item>)
    requires WfType(e) && Readable(e)
    requires forall i | 0 <= i < |items| :: WfItem(items[i]) && ItemSignature(items[i]) == EntrySignature(k, e)
    ensures DecodeEntries(k, e, es, items).Got?
    decreases e, 1, |items|
  {
    if items != [] {
      EntryBySignature(items[0], k, e);
      ReadsItsSignature(e, items[0].val);
      PairCases(k, e, [items[0].key, items[0].val]);
      hide Decode, DecodePair, WfItem, EntrySignature, Signature;
      ReadsEntries(k, e, Insert(es, DecodeEntry(k, e, items[0]).value), items[1..]);
    }
  }

  lemma {:induction false} ReadsFields(fs: seq<Type>, dests: seq<Value>, items: seq<Item>)
    requires WfTypes(fs) && FreshFields(fs, dests) && (forall i | 0 <= i < |fs| :: Readable(fs[i]))
    requires |items| == |fs| && WfItems(items)
    requires forall i | 0 <= i < |fs| :: ItemSignature(items[i]) == Signature(fs[i])
    ensures DecodeFields(fs, dests, items).Got?
    decreases fs, 1
  {
    if fs != [] {
      ReadsItsSignature(fs[0], items[0]);
      ReadsFields(fs[1..], dests[1..], items[1..]);
    }
  }

  /** A vector of std::variant can be written but never read: its loop peeks at the end of the
      array, where there is no contents signature to compare with. */
  lemma {:induction false} VectorOfStdVariantNeverReads(alts: seq<Type>, dest: Value, item: Item)
    requires WfType(StdVariant(alts)) && Shape(Vec(StdVariant(alts)), dest)
    ensures !Decode(Vec(StdVariant(alts)), dest, item).Got?
    ensures item.Array? && item.elem == "v" && AllRead(alts, item.items) ==>
              Decode(Vec(StdVariant(alts)), dest, item).Crashes?
  {
    if item.Array? {
      AllOfStdVariantFails(alts, item.items);
    }
  }

  /** Every element could be read by itself. */
  predicate AllRead(alts: seq<Type>, items: seq<Item>)
    requires WfType(StdVariant(alts))
  {
    forall i | 0 <= i < |items| :: Decode(StdVariant(alts), Default(StdVariant(alts)), items[i]).Got?
  }

  /** Reading a std::variant from anything but a variant: a basic item has no contents signature to
      compare with; a container has one, but is no variant to enter. */
  lemma StdVariantFromOthers(alts: seq<Type>, dest: Value, item: Item)
    requires WfType(StdVariant(alts)) && Shape(StdVariant(alts), dest) && !item.Boxed?
    ensures Decode(StdVariant(alts), dest, item) == if item.Plain? then Crashes else Throws
  {
  }

  lemma {:induction false} AllOfStdVariantFails(alts: seq<Type>, items: seq<Item>)
    requires WfType(StdVariant(alts))
    ensures !DecodeAll(StdVariant(alts), items).Got?
    ensures AllRead(alts, items) ==> DecodeAll(StdVariant(alts), items).Crashes?
  {
    hide Decode, Default, WfType;
    if items != [] {
      AllOfStdVariantFails(alts, items[1..]);
      assert AllRead(alts, items) ==> AllRead(alts, items[1..]);
    }
  }

  /** Alternative `i` is the first with this signature. */
  predicate IsLeast(alts: seq<Type>, signature: string, i: nat) {
    && i < |alts| && Signature(alts[i]) == signature
    && forall j | 0 <= j < i :: Signature(alts[j]) != signature
  }

  /** Reading a variant item into a std::variant throws when no alternative has the stored signature;
      otherwise it reads the contents as the least one that has, and nothing else decides. So with
      alternatives whose signature alone decides a read, it throws exactly when there is none. */
  lemma StdVariantTakesLeast(alts: seq<Type>, dest: Value, inner: Item)
    requires WfType(StdVariant(alts)) && Shape(StdVariant(alts), dest) && WfItem(inner) && !inner.Entry?
    ensures var r := Decode(StdVariant(alts), dest, Boxed(inner));
            && ((forall i | 0 <= i < |alts| :: Signature(alts[i]) != ItemSignature(inner)) ==> r.Throws?)
            && (forall i: nat | IsLeast(alts, ItemSignature(inner), i) ::
                  r == match Decode(alts[i], Default(alts[i]), inner)
                       case Got(v) => Got(VAlt(i, v)) case Throws => Throws case Crashes => Crashes)
    ensures (forall i | 0 <= i < |alts| :: Readable(alts[i])) ==>
              (Decode(StdVariant(alts), dest, Boxed(inner)).Throws? <==>
                 forall i | 0 <= i < |alts| :: Signature(alts[i]) != ItemSignature(inner))
  {
    hide Signature, ItemSignature, WfItem, Shape, WfType, Decode, Pick, Readable, Default;
    var signature := ItemSignature(inner);
    var p := Pick(alts, signature);
    BoxedInto(alts, dest, inner);
    if p.Some? && Readable(alts[p.value]) {
      ReadsItsSignature(alts[p.value], inner);
    }
    forall i: nat | IsLeast(alts, signature, i) ensures p == Some(i) {
      assert p.Some?;
      assert !(p.value < i) && !(i < p.value);
    }
  }

  lemma BoxedInto(alts: seq<Type>, dest: Value, inner: Item)
    requires WfType(StdVariant(alts)) && Shape(StdVariant(alts), dest)
    ensures forall i | 0 <= i < |alts| :: WfType(alts[i])
    ensures Decode(StdVariant(alts), dest, Boxed(inner)) ==
            match Pick(alts, ItemSignature(inner))
            case None => Throws
            case Some(i) =>
              match Decode(alts[i], Default(alts[i]), inner)
              case Got(v) => Got(VAlt(i, v)) case Throws => Throws case Crashes => Crashes
  {
    hide ItemSignature, Pick, Default;
  }

  /** No sequence has std::variant elements. */
  predicate Safe(t: Type) {
    match t
    case Basic(_) => true
    case Variant => true
    case Vec(e) => !e.StdVariant? && Safe(e)
    case Fixed(e, _) => !e.StdVariant? && Safe(e)
    case Dict(_, e) => Safe(e)
    case Struct(fs) => forall i | 0 <= i < |fs| :: Safe(fs[i])
    case StdVariant(alts) => forall i | 0 <= i < |alts| :: Safe(alts[i])
  }

  /** On an item of its own signature a safe type is read or throws, but never runs into the null
      contents signature. */
  lemma {:induction false} NeverCrashes(t: Type, dest: Value, item: Item)
    requires WfType(t) && Safe(t) && Shape(t, dest)
    requires WfItem(item) && !item.Entry? && ItemSignature(item) == Signature(t)
    ensures !Decode(t, dest, item).Crashes?
    decreases t, 0
  {
    hide DecodeAll, DecodeOver, DecodeEntries, DecodeFields, ItemSignatures, Signatures, EntrySignature;
    match t
    case Basic(b) =>
    case Variant =>
    case Vec(e) =>
      ContainerSignatures(item, Signature(e));
      AllNeverCrash(e, item.items);
    case Fixed(e, _) =>
      ContainerSignatures(item, Signature(e));
      OverNeverCrashes(e, dest.elems, item.items);
    case Dict(k, e) =>
      ContainerSignatures(item, EntrySignature(k, e));
      EntriesNeverCrash(k, e, dest.entries, item.items);
    case Struct(fs) =>
      ContainerSignatures(item, Signatures(fs));
      FieldSignatures(fs, item.fields);
      FieldsNeverCrash(fs, dest.fields, item.fields);
    case StdVariant(alts) => AlternativeNeverCrashes(alts, dest, item);
  }

  lemma AlternativeNeverCrashes(alts: seq<Type>, dest: Value, item: Item)
    requires WfType(StdVariant(alts)) && Safe(StdVariant(alts)) && Shape(StdVariant(alts), dest)
    requires WfItem(item) && ItemSignature(item) == "v"
    ensures !Decode(StdVariant(alts), dest, item).Crashes?
    decreases alts, 1
  {
    FirstChar(item);
    if item.Boxed? {
      var i := Pick(alts, ItemSignature(item.inner));
      if i.Some? {
        NeverCrashes(alts[i.value], Default(alts[i.value]), item.inner);
      }
    }
  }

  lemma {:induction false} AllNeverCrash(e: Type, items: seq<Item>)
    requires WfType(e) && Safe(e) && !e.StdVariant?
    requires forall i | 0 <= i < |items| :: WfItem(items[i]) && ItemSignature(items[i]) == Signature(e)
    ensures !DecodeAll(e, items).Crashes?
    decreases e, 1, |items|
  {
    if items != [] {
      NotEntry(e, items[0]);
      NeverCrashes(e, Default(e), items[0]);
      hide Decode, WfItem, Signature, ItemSignature;
      AllNeverCrash(e, items[1..]);
    }
  }

  lemma {:induction false} OverNeverCrashes(e: Type, dests: seq<Value>, items: seq<Item>)
    requires WfType(e) && Safe(e) && !e.StdVariant? && forall i | 0 <= i < |dests| :: Shape(e, dests[i])
    requires forall i | 0 <= i < |items| :: WfItem(items[i]) && ItemSignature(items[i]) == Signature(e)
    ensures !DecodeOver(e, dests, items).Crashes?
    decreases e, 1, |items|
  {
    if items != [] && dests != [] {
      NotEntry(e, items[0]);
      NeverCrashes(e, dests[0], items[0]);
      hide Decode, WfItem, Signature, ItemSignature;
      OverNeverCrashes(e, dests[1..], items[1..]);
    }
  }

  lemma EntryNeverCrashes(k: Basic, e: Type, item: Item)
    requires WfType(e) && Safe(e) && WfItem(item) && ItemSignature(item) == EntrySignature(k, e)
    ensures !DecodeEntry(k, e, item).Crashes?
    decreases e, 1, 0
  {
    hide Decode, DecodePair, EntrySignature, Signature, ItemSignature, WfType, Safe, WfItem, Default;
    EntryBySignature(item, k, e);
    NeverCrashes(e, Default(e), item.val);
    PairCases(k, e, [item.key, item.val]);
  }

  lemma {:induction false} EntriesNeverCrash(k: Basic, e: Type, es: seq<KeyValue>, items: seq<Item>)
    requires WfType(e) && Safe(e)
    requires forall i | 0 <= i < |items| :: WfItem(items[i]) && ItemSignature(items[i]) == EntrySignature(k, e)
    ensures !DecodeEntries(k, e, es, items).Crashes?
    decreases e, 1, |items|
  {
    hide WfItem, EntrySignature, Signature, ItemSignature, WfType, Safe, Default, Insert;
    if items != [] {
      EntryNeverCrashes(k, e, items[0]);
      var kv := DecodeEntry(k, e, items[0]);
      hide DecodeEntry;
      if kv.Got? {
        EntriesNeverCrash(k, e, Insert(es, kv.value), items[1..]);
      }
    }
  }

  lemma {:induction false} FieldsNeverCrash(fs: seq<Type>, dests: seq<Value>, items: seq<Item>)
    requires WfTypes(fs) && |dests| == |fs| && forall i | 0 <= i < |fs| :: Shape(fs[i], dests[i]) && Safe(fs[i])
    requires |items| == |fs| && WfItems(items)
    requires forall i | 0 <= i < |fs| :: ItemSignature(items[i]) == Signature(fs[i])
    ensures !DecodeFields(fs, dests, items).Crashes?
    decreases fs, 1
  {
    if fs != [] {
      NeverCrashes(fs[0], dests[0], items[0]);
      hide Decode, WfItem, Signature, ItemSignature, Shape, Safe;
      FieldsNeverCrash(fs[1..], dests[1..], items[1..]);
    }
  }

  // ---------------------------------------------------------------------------------------
  // What is read is a value of the type

  predicate ShapeAll(e: Type, vs: seq<Value>) {
    forall i | 0 <= i < |vs| :: Shape(e, vs[i])
  }

  /** Whatever well-formed item is read, the variable still holds a value of its type: payloads in
      range, keys distinct, sizes kept. */
  lemma {:induction false} DecodeShape(t: Type, dest: Value, item: Item)
    requires WfType(t) && Shape(t, dest) && WfItem(item) && !item.Entry?
    ensures Decode(t, dest, item).Got? ==> Shape(t, Decode(t, dest, item).value)
    decreases t, 0
  {
    hide DecodeAll, DecodeOver, DecodeEntries, DecodeFields, ItemSignatures, Signatures, EntrySignature;
    if Decode(t, dest, item).Got? {
      match t
      case Basic(_) =>
      case Variant =>
      case Vec(e) => AllShaped(e, item.items);
      case Fixed(e, _) => OverShaped(e, dest.elems, item.items);
      case Dict(k, e) => EntriesShaped(k, e, dest.entries, item.items);
      case Struct(fs) =>
        FieldSignatures(fs, item.fields);
        FieldsShaped(fs, dest.fields, item.fields);
      case StdVariant(alts) => AlternativeShaped(alts, dest, item);
    }
  }

  lemma AlternativeShaped(alts: seq<Type>, dest: Value, item: Item)
    requires WfType(StdVariant(alts)) && Shape(StdVariant(alts), dest) && WfItem(item)
    ensures var r := Decode(StdVariant(alts), dest, item); r.Got? ==> Shape(StdVariant(alts), r.value)
    decreases alts, 1
  {
    if item.Boxed? {
      var i := Pick(alts, ItemSignature(item.inner));
      if i.Some? {
        DecodeShape(alts[i.value], Default(alts[i.value]), item.inner);
      }
    }
  }

  lemma {:induction false} AllShaped(e: Type, items: seq<Item>)
    requires WfType(e)
    requires forall i | 0 <= i < |items| :: WfItem(items[i]) && ItemSignature(items[i]) == Signature(e)
    ensures DecodeAll(e, items).Got? ==> ShapeAll(e, DecodeAll(e, items).value)
    decreases e, 1, |items|
  {
    hide Decode, WfItem, Signature, ItemSignature, Shape, WfType, Default;
    if items != [] {
      NotEntry(e, items[0]);
      DecodeShape(e, Default(e), items[0]);
      AllShaped(e, items[1..]);
    }
  }

  lemma {:induction false} OverShaped(e: Type, dests: seq<Value>, items: seq<Item>)
    requires WfType(e) && ShapeAll(e, dests)
    requires forall i | 0 <= i < |items| :: WfItem(items[i]) && ItemSignature(items[i]) == Signature(e)
    ensures var r := DecodeOver(e, dests, items); r.Got? ==> ShapeAll(e, r.value) && |r.value| == |dests|
    decreases e, 1, |items|
  {
    hide Decode, AtEnd, WfItem, Signature, ItemSignature, Shape, WfType;
    if dests == [] {
    } else if items == [] {
      AtEndShaped(e, dests[0]);
    } else {
      NotEntry(e, items[0]);
      DecodeShape(e, dests[0], items[0]);
      OverShaped(e, dests[1..], items[1..]);
      OverUnfold(e, dests, items);
      hide DecodeOver;
    }
  }

  lemma NotEntry(e: Type, item: Item)
    requires ItemSignature(item) == Signature(e)
    ensures !item.Entry?
  {
    SignatureFirst(e);
    FirstChar(item);
  }

  lemma AtEndShaped(t: Type, dest: Value)
    requires Shape(t, dest)
    ensures AtEnd(t, dest).Got? ==> Shape(t, AtEnd(t, dest).value)
  {
  }

  lemma OverUnfold(e: Type, dests: seq<Value>, items: seq<Item>)
    requires WfType(e) && ShapeAll(e, dests) && dests != [] && items != []
    ensures DecodeOver(e, dests, items).Got? ==>
              && Decode(e, dests[0], items[0]).Got?
              && DecodeOver(e, dests[1..], items[1..]).Got?
              && DecodeOver(e, dests, items).value ==
                 [Decode(e, dests[0], items[0]).value] + DecodeOver(e, dests[1..], items[1..]).value
  {
    hide Decode, Shape, WfType;
  }

  lemma EntryShaped(k: Basic, e: Type, item: Item)
    requires WfType(e) && WfItem(item) && ItemSignature(item) == EntrySignature(k, e)
    ensures var kv := DecodeEntry(k, e, item); kv.Got? ==> PayloadOk(k, kv.value.key) && Shape(e, kv.value.val)
    decreases e, 1, 0
  {
    hide Decode, DecodePair, EntrySignature, Signature, ItemSignature, Shape, WfType, Default;
    EntryBySignature(item, k, e);
    KeyCases(k, item.key);
    DecodeShape(e, Default(e), item.val);
    PairCases(k, e, [item.key, item.val]);
  }

  lemma InsertKeeps(k: Basic, e: Type, es: seq<KeyValue>, kv: KeyValue)
    requires ShapeEntries(k, e, es) && DistinctKeys(es) && PayloadOk(k, kv.key) && Shape(e, kv.val)
    ensures ShapeEntries(k, e, Insert(es, kv)) && DistinctKeys(Insert(es, kv))
  {
    hide PayloadOk, Shape;
  }

  lemma {:induction false} EntriesShaped(k: Basic, e: Type, es: seq<KeyValue>, items: seq<Item>)
    requires WfType(e) && ShapeEntries(k, e, es) && DistinctKeys(es)
    requires forall i | 0 <= i < |items| :: WfItem(items[i]) && ItemSignature(items[i]) == EntrySignature(k, e)
    ensures var r := DecodeEntries(k, e, es, items); r.Got? ==> ShapeEntries(k, e, r.value) && DistinctKeys(r.value)
    decreases e, 1, |items|
  {
    hide DecodeEntry, WfItem, EntrySignature, ItemSignature, PayloadOk, Shape, Insert, WfType;
    if items != [] {
      EntryShaped(k, e, items[0]);
      var kv := DecodeEntry(k, e, items[0]);
      if kv.Got? {
        InsertKeeps(k, e, es, kv.value);
        hide ShapeEntries, DistinctKeys;
        EntriesShaped(k, e, Insert(es, kv.value), items[1..]);
      }
    }
  }

  lemma {:induction false} FieldsShaped(fs: seq<Type>, dests: seq<Value>, items: seq<Item>)
    requires WfTypes(fs) && |dests| == |fs| && forall i | 0 <= i < |fs| :: Shape(fs[i], dests[i])
    requires |items| == |fs| && WfItems(items)
    ensures var r := DecodeFields(fs, dests, items);
            r.Got? ==> |r.value| == |fs| && forall i | 0 <= i < |fs| :: Shape(fs[i], r.value[i])
    decreases fs, 1
  {
    if fs != [] {
      DecodeShape(fs[0], dests[0], items[0]);
      hide Decode, WfItem, Signature, ItemSignature, Shape;
      FieldsShaped(fs[1..], dests[1..], items[1..]);
    }
  }
}
