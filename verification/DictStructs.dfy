/** Registered structs as dictionaries of strings to variants: what SDBUSCPP_REGISTER_STRUCT
    generates (include/sdbus-c++/Types.h), in the default single-level mode. A struct is given by
    the names and types of its members. */
module DictStructs {
  import opened Options
  import opened TypeTraits
  import opened SdBus
  import opened Values
  import opened Messages
  import opened Serialisation
  import opened ReadGuarantees
  import opened Variants

  /** Members of a C++ struct: distinct identifiers, one type each. */
  predicate Members(names: seq<string>, fs: seq<Type>) {
    && WfType(Struct(fs)) && |names| == |fs|
    && (forall i | 0 <= i < |names| :: NoNul(Text(names[i])))
    && (forall i, j | 0 <= i < j < |names| :: names[i] != names[j])
  }

  function MemberOf(names: seq<string>, name: string): (r: Option<nat>)
    ensures r.Some? ==> r.value < |names| && names[r.value] == name
    ensures r.None? ==> name !in names
  {
    if names == [] then None
    else if names[0] == name then Some(0)
    else match MemberOf(names[1..], name) case Some(i) => Some(i + 1) case None => None
  }

  // ---------------------------------------------------------------------------------------
  // Reference semantics

  predicate DictEntryItem(item: Item) {
    WfItem(item) && ItemSignature(item) == EntrySignature(Str, Variant)
  }

  predicate DictItems(items: seq<Item>) {
    forall i | 0 <= i < |items| :: DictEntryItem(items[i])
  }

  /** Name and value of an entry, as they are read into a DictEntry<string, Variant>. */
  function EntryOf(item: Item): (kv: KeyValue)
    requires DictEntryItem(item)
    ensures kv.key.Text? && Shape(Variant, kv.val)
  {
    EntryBySignature(item, Str, Variant);
    assert WfItem(item.key);
    KeyValue(item.key.data, VVariant([item.val], true))
  }

  /** What `value.get<decltype(member)>()` gives for the value of an entry. */
  function Held(t: Type, item: Item): Res<Value>
    requires DictEntryItem(item) && WfType(t)
  {
    GetResult(EntryOf(item).val, t)
  }

  /** One turn of the callback. */
  function AssignOne(names: seq<string>, fs: seq<Type>, strict: bool, vals: seq<Value>, item: Item)
    : (r: Res<seq<Value>>)
    requires Members(names, fs) && |vals| == |fs| && DictEntryItem(item)
    ensures r.Got? ==> |r.value| == |fs|
  {
    match MemberOf(names, EntryOf(item).key.s)
    case None => if strict then Throws else Got(vals)
    case Some(i) =>
      var v :- Held(fs[i], item);
      Got(vals[i := v])
  }

  function AssignAll(names: seq<string>, fs: seq<Type>, strict: bool, vals: seq<Value>, items: seq<Item>)
    : (r: Res<seq<Value>>)
    requires Members(names, fs) && |vals| == |fs| && DictItems(items)
    ensures r.Got? ==> |r.value| == |fs|
    decreases |items|
  {
    if items == [] then Got(vals)
    else
      var vals' :- AssignOne(names, fs, strict, vals, items[0]);
      AssignAll(names, fs, strict, vals', items[1..])
  }

  /** Reading a registered struct from an item: as a struct, or as a dictionary. */
  function Registered(names: seq<string>, fs: seq<Type>, strict: bool, dests: seq<Value>, item: Item): Res<seq<Value>>
    requires Members(names, fs) && Shape(Struct(fs), VStruct(dests)) && WfItem(item)
  {
    if item.Tuple? then
      if ItemSignatures(item.fields) == Signatures(fs) then DecodeFields(fs, dests, item.fields) else Throws
    else if item.Array? && item.elem == EntrySignature(Str, Variant) then
      AssignAll(names, fs, strict, dests, item.items)
    else Throws
  }

  // ---------------------------------------------------------------------------------------
  // The generated operators

  /** `operator>>` for the registered struct. */
  method ReadRegistered(m: Message, names: seq<string>, fs: seq<Type>, strict: bool, dests: seq<Value>)
    returns (r: Outcome, vals: seq<Value>)
    requires Members(names, fs) && Shape(Struct(fs), VStruct(dests))
    requires WfState(m.state) && m.state.Reading? && m.ok
    modifies m
    ensures var c := old(m.state).cursor;
            match Peek(c)
            case SignatureEnd => r == Threw
            case ArrayEnd => r == Done && !m.ok && m.state == old(m.state) && vals == dests
            case Next(item) =>
              && r == OutcomeOf(Registered(names, fs, strict, dests, item))
              && (r == Done ==> vals == Registered(names, fs, strict, dests, item).value
                                && m.ok && m.state == Reading(Advance(c)))
  {
    hide Signatures, EntrySignature, DecodeFields, AssignAll, WfItem;
    var peeked := Peek(m.state.cursor);
    if peeked.Next? && peeked.item.Tuple? {
      var out;
      r, out := m.ReadStruct(fs, VStruct(dests));
      vals := if out.VStruct? then out.fields else dests;
    } else {
      r, vals := ReadAsDictionary(m, names, fs, strict, dests);
    }
  }

  /** `deserializeDictionary` with the callback that assigns members. */
  method ReadAsDictionary(m: Message, names: seq<string>, fs: seq<Type>, strict: bool, dests: seq<Value>)
    returns (r: Outcome, vals: seq<Value>)
    requires Members(names, fs) && |dests| == |fs|
    requires WfState(m.state) && m.state.Reading? && m.ok
    modifies m
    ensures var c := old(m.state).cursor;
            match Peek(c)
            case SignatureEnd => r == Threw
            case ArrayEnd => r == Done && !m.ok && m.state == old(m.state) && vals == dests
            case Next(item) =>
              if item.Array? && item.elem == EntrySignature(Str, Variant) then
                && DictItems(item.items)
                && r == OutcomeOf(AssignAll(names, fs, strict, dests, item.items))
                && (r == Done ==> vals == AssignAll(names, fs, strict, dests, item.items).value
                                  && m.ok && m.state == Reading(Advance(c)))
              else r == Threw
  {
    vals := dests;
    var threw := m.EnterContainer(ArrayKind, EntrySignature(Str, Variant));
    if threw { return Threw, dests; }
    if !m.ok { return Done, dests; }
    r, vals := ReadMembers(m, names, fs, strict, dests);
    if r != Done { return; }
    m.ok := true;
    threw := m.ExitContainer();
  }

  /** The loop over the entries. */
  method ReadMembers(m: Message, names: seq<string>, fs: seq<Type>, strict: bool, dests: seq<Value>)
    returns (r: Outcome, vals: seq<Value>)
    requires Members(names, fs) && |dests| == |fs|
    requires WfState(m.state) && m.state.Reading? && m.ok
    requires m.state.cursor.In? && m.state.cursor.kind == ArrayKind && DictItems(m.state.cursor.rest)
    modifies m
    ensures var c := old(m.state).cursor;
            && r == OutcomeOf(AssignAll(names, fs, strict, dests, c.rest))
            && (r == Done ==> vals == AssignAll(names, fs, strict, dests, c.rest).value
                              && m.state == Reading(In(ArrayKind, [], c.outer)))
  {
    hide WfItem, Members, DictEntryItem, AssignOne, DecodeEntry;
    ghost var items, outer := m.state.cursor.rest, m.state.cursor.outer;
    vals := dests;
    while true
      invariant m.ok && m.state.Reading? && WfCursor(m.state.cursor) && |vals| == |fs|
      invariant m.state.cursor == In(ArrayKind, m.state.cursor.rest, outer) && DictItems(m.state.cursor.rest)
      invariant AssignAll(names, fs, strict, dests, items) == AssignAll(names, fs, strict, vals, m.state.cursor.rest)
      decreases |m.state.cursor.rest|
    {
      ghost var c := m.state.cursor;
      var entry;
      if c.rest != [] { EntryRead(c.rest[0]); }
      r, entry := m.ReadDictEntry(Str, Variant);
      if r != Done { return; }
      if !m.ok { break; }
      r, vals := AssignMember(names, fs, strict, vals, entry, c.rest[0]);
      if r != Done { return; }
    }
  }

  lemma EntryRead(item: Item)
    requires DictEntryItem(item)
    ensures DecodeEntry(Str, Variant, item) == Got(EntryOf(item))
  {
    EntryBySignature(item, Str, Variant);
    PairCases(Str, Variant, [item.key, item.val]);
  }

  /** The chain of comparisons with the member names. */
  method AssignMember(names: seq<string>, fs: seq<Type>, strict: bool, vals: seq<Value>, entry: KeyValue,
                      ghost item: Item)
    returns (r: Outcome, vals': seq<Value>)
    requires Members(names, fs) && |vals| == |fs| && DictEntryItem(item)
    requires entry == EntryOf(item)
    ensures r == OutcomeOf(AssignOne(names, fs, strict, vals, item))
    ensures r == Done ==> vals' == AssignOne(names, fs, strict, vals, item).value
  {
    vals' := vals;
    var i := MemberOf(names, entry.key.s);
    if i.None? {
      r := if strict then Threw else Done;
      return;
    }
    var v;
    r, v := Get(entry.val, fs[i.value]);
    if r == Done {
      vals' := vals[i.value := v];
    }
  }

  // ---------------------------------------------------------------------------------------
  // What a dictionary does to a struct

  /** `items[j]` is the last entry with this name. */
  predicate IsLast(name: string, items: seq<Item>, j: nat)
    requires DictItems(items)
  {
    && j < |items| && EntryOf(items[j]).key.s == name
    && forall i | j < i < |items| :: EntryOf(items[i]).key.s != name
  }

  predicate Named(name: string, items: seq<Item>)
    requires DictItems(items)
  {
    exists j | 0 <= j < |items| :: EntryOf(items[j]).key.s == name
  }

  /** The entry is no reason to throw. */
  predicate Fits(names: seq<string>, fs: seq<Type>, strict: bool, item: Item)
    requires Members(names, fs) && DictEntryItem(item)
  {
    match MemberOf(names, EntryOf(item).key.s)
    case None => !strict
    case Some(i) => Held(fs[i], item).Got?
  }

  lemma MemberAt(names: seq<string>, fs: seq<Type>, i: nat)
    requires Members(names, fs) && i < |names|
    ensures MemberOf(names, names[i]) == Some(i)
  {
    assert names[i] in names;
  }

  /** `out` is the value of the last entry with this name, or `old` where there is none. */
  ghost predicate Assigned(name: string, t: Type, before: Value, items: seq<Item>, after: Value)
    requires DictItems(items) && WfType(t)
  {
    && (!Named(name, items) ==> after == before)
    && (forall j: nat | IsLast(name, items, j) :: Held(t, items[j]) == Got(after))
  }

  lemma AssignedStep(name: string, t: Type, before: Value, items: seq<Item>, after: Value, mid: Value)
    requires DictItems(items) && WfType(t) && items != [] && Assigned(name, t, mid, items[1..], after)
    requires if EntryOf(items[0]).key.s == name then Held(t, items[0]) == Got(mid) else mid == before
    ensures Assigned(name, t, before, items, after)
  {
    hide DictEntryItem, EntryOf, Held, WfType;
    var rest := items[1..];
    assert forall i | 0 <= i < |rest| :: rest[i] == items[i + 1];
    forall j: nat | IsLast(name, items, j) ensures Held(t, items[j]) == Got(after) {
      if j > 0 {
        assert rest[j - 1] == items[j] && IsLast(name, rest, j - 1);
      } else {
        LastIsFirst(name, items);
      }
    }
    if !Named(name, items) {
      assert EntryOf(items[0]).key.s != name;
      forall i | 0 <= i < |rest| ensures EntryOf(rest[i]).key.s != name {
        assert EntryOf(items[i + 1]).key.s != name;
      }
    }
  }

  lemma LastIsFirst(name: string, items: seq<Item>)
    requires DictItems(items) && IsLast(name, items, 0)
    ensures !Named(name, items[1..])
  {
    hide DictEntryItem, EntryOf;
    var rest := items[1..];
    forall i | 0 <= i < |rest| ensures EntryOf(rest[i]).key.s != name {
      assert rest[i] == items[i + 1];
    }
  }

  lemma AssignOneMember(names: seq<string>, fs: seq<Type>, strict: bool, vals: seq<Value>, item: Item)
    requires Members(names, fs) && |vals| == |fs| && DictEntryItem(item)
    ensures var r := AssignOne(names, fs, strict, vals, item);
            && (r.Got? <==> Fits(names, fs, strict, item))
            && (r.Got? ==> forall i | 0 <= i < |fs| ::
                  if EntryOf(item).key.s == names[i] then Held(fs[i], item) == Got(r.value[i])
                  else r.value[i] == vals[i])
  {
    hide DictEntryItem, EntryOf, Held;
    forall i | 0 <= i < |fs| ensures MemberOf(names, names[i]) == Some(i) {
      MemberAt(names, fs, i);
    }
  }

  /** For any dictionary in any order: the read succeeds exactly if every entry fits, and then each
      member holds the value of the last entry with its name, or what it held before. */
  lemma {:induction false} LastEntryWins(names: seq<string>, fs: seq<Type>, strict: bool, vals: seq<Value>,
                                         items: seq<Item>)
    requires Members(names, fs) && |vals| == |fs| && DictItems(items)
    ensures var r := AssignAll(names, fs, strict, vals, items);
            && (r.Got? <==> forall j | 0 <= j < |items| :: Fits(names, fs, strict, items[j]))
            && (r.Got? ==> forall i | 0 <= i < |fs| :: Assigned(names[i], fs[i], vals[i], items, r.value[i]))
    decreases |items|
  {
    if items != [] {
      AssignOneMember(names, fs, strict, vals, items[0]);
      hide DictEntryItem, EntryOf, Held, Assigned, AssignOne, Fits;
      assert items == [items[0]] + items[1..];
      var first := AssignOne(names, fs, strict, vals, items[0]);
      if first.Got? {
        LastEntryWins(names, fs, strict, first.value, items[1..]);
        var r := AssignAll(names, fs, strict, vals, items);
        if r.Got? {
          forall i | 0 <= i < |fs| ensures Assigned(names[i], fs[i], vals[i], items, r.value[i]) {
            AssignedStep(names[i], fs[i], vals[i], items, r.value[i], first.value[i]);
          }
        }
      }
    }
  }

  /** When every entry for a member holds a value of the member's type, strict mode throws exactly
      if some key is not a member, and relaxed mode never does. */
  lemma StrictThrows(names: seq<string>, fs: seq<Type>, strict: bool, vals: seq<Value>, items: seq<Item>)
    requires Members(names, fs) && |vals| == |fs| && DictItems(items)
    requires forall j | 0 <= j < |items| :: EntryOf(items[j]).key.s in names ==> Fits(names, fs, strict, items[j])
    ensures AssignAll(names, fs, strict, vals, items).Throws? <==>
            strict && exists j | 0 <= j < |items| :: EntryOf(items[j]).key.s !in names
    ensures !AssignAll(names, fs, strict, vals, items).Crashes?
  {
    LastEntryWins(names, fs, strict, vals, items);
    OnlyThrows(names, fs, strict, vals, items);
  }

  lemma {:induction false} OnlyThrows(names: seq<string>, fs: seq<Type>, strict: bool, vals: seq<Value>,
                                      items: seq<Item>)
    requires Members(names, fs) && |vals| == |fs| && DictItems(items)
    requires forall j | 0 <= j < |items| :: EntryOf(items[j]).key.s in names ==> Fits(names, fs, strict, items[j])
    ensures !AssignAll(names, fs, strict, vals, items).Crashes?
    decreases |items|
  {
    hide DictEntryItem, EntryOf, Held, Members;
    if items != [] {
      var first := AssignOne(names, fs, strict, vals, items[0]);
      if first.Got? {
        OnlyThrows(names, fs, strict, first.value, items[1..]);
      }
    }
  }

  /** The same for the operator itself, whatever the struct held: from a dictionary, the last entry of
      each name wins, an unknown key is a reason to throw in strict mode only; from a struct, it reads
      as the plain struct does; from anything else it throws. */
  lemma RegisteredFromDictionary(names: seq<string>, fs: seq<Type>, strict: bool, dests: seq<Value>, items: seq<Item>)
    requires Members(names, fs) && Shape(Struct(fs), VStruct(dests)) && DictItems(items)
    requires WfItem(Array(EntrySignature(Str, Variant), items))
    ensures var r := Registered(names, fs, strict, dests, Array(EntrySignature(Str, Variant), items));
            && (r.Got? <==> forall j | 0 <= j < |items| ::
                  match MemberOf(names, EntryOf(items[j]).key.s)
                  case None => !strict
                  case Some(i) => Held(fs[i], items[j]).Got?)
            && (r.Got? ==>
                  && |r.value| == |fs|
                  && forall i | 0 <= i < |fs| :: Assigned(names[i], fs[i], dests[i], items, r.value[i]))
  {
    hide DictEntryItem, EntryOf, Held, Assigned, WfItem, Shape, EntrySignature, AssignAll;
    assert Members(names, fs) && |dests| == |fs| by { FieldCount(fs, dests); }
    LastEntryWins(names, fs, strict, dests, items);
  }

  lemma FieldCount(fs: seq<Type>, dests: seq<Value>)
    requires Shape(Struct(fs), VStruct(dests))
    ensures |dests| == |fs|
  {
  }

  lemma RegisteredFromOthers(names: seq<string>, fs: seq<Type>, strict: bool, dests: seq<Value>, item: Item)
    requires Members(names, fs) && Shape(Struct(fs), VStruct(dests)) && WfItem(item)
    ensures item.Tuple? ==>
              Registered(names, fs, strict, dests, item) ==
              match Decode(Struct(fs), VStruct(dests), item)
              case Got(v) => Got(v.fields)
              case Throws => Throws
              case Crashes => Crashes
    ensures !item.Tuple? && ItemSignature(item) != "a{sv}" ==> Registered(names, fs, strict, dests, item).Throws?
  {
    VariantSignature();
    hide DecodeFields, AssignAll, WfItem, Signature, Signatures, ItemSignatures;
  }

  // ---------------------------------------------------------------------------------------
  // Round trip

  function EntryFor(name: string, t: Type, v: Value): Item
    requires Shape(t, v) && Sendable(t, v)
  {
    Entry(Plain(Str, Sent(Text(name))), VariantOf(t, v))
  }

  function EntriesFor(names: seq<string>, fs: seq<Type>, vals: seq<Value>): (items: seq<Item>)
    requires |names| == |fs| && SendableFields(fs, vals)
    ensures |items| == |fs|
  {
    seq(|fs|, i requires 0 <= i < |fs| => EntryFor(names[i], fs[i], vals[i]))
  }

  lemma VariantOfTyped(t: Type, v: Value)
    requires WfType(t) && Shape(t, v) && Sendable(t, v)
    ensures WfItem(VariantOf(t, v)) && ItemSignature(VariantOf(t, v)) == "v"
  {
    EncodeTyped(t, v);
  }

  /** A member that survives on its own: faithful, and neither a Variant nor a std::variant. */
  predicate Survives(t: Type, v: Value)
    requires Shape(t, v)
  {
    Faithful(t, v) && !t.Variant? && !t.StdVariant?
  }

  /** The entry of a member is well-typed, and holds the member for `get` if and only if it
      survives. */
  lemma EntryForTyped(name: string, t: Type, v: Value)
    requires WfType(t) && Shape(t, v) && Sendable(t, v) && NoNul(Text(name))
    ensures DictEntryItem(EntryFor(name, t, v))
    ensures EntryOf(EntryFor(name, t, v)) == KeyValue(Text(name), VVariant([VariantOf(t, v)], true))
    ensures Held(t, EntryFor(name, t, v)) == Got(v) <==> Survives(t, v)
  {
    hide Encode, Decode, Shape, Sendable, Faithful, WfType, Signature, VariantOf, GetResult;
    VariantOfTyped(t, v);
    SentKeeps(Text(name));
    StringToVariant(Sent(Text(name)), VariantOf(t, v));
    GetRoundTrip(t, v);
  }

  lemma StringToVariant(key: Payload, val: Item)
    requires key.Text? && WfItem(val) && ItemSignature(val) == "v"
    ensures DictEntryItem(Entry(Plain(Str, key), val))
    ensures EntryOf(Entry(Plain(Str, key), val)) == KeyValue(key, VVariant([val], true))
  {
    hide Signature;
    VariantSignature();
    assert ItemSignature(Plain(Str, key)) == [Code(Str)];
    assert "{" + ([Code(Str)] + "v") + "}" == "{sv}";
    assert WfItem(Plain(Str, key));
  }

  lemma VariantSignature()
    ensures EntrySignature(Str, Variant) == "{sv}"
  {
  }

  lemma EntriesForTyped(names: seq<string>, fs: seq<Type>, vals: seq<Value>)
    requires Members(names, fs) && SendableFields(fs, vals)
    ensures DictItems(EntriesFor(names, fs, vals))
    ensures forall i | 0 <= i < |fs| ::
              && EntryOf(EntriesFor(names, fs, vals)[i]).key.s == names[i]
              && (Held(fs[i], EntriesFor(names, fs, vals)[i]) == Got(vals[i]) <==> Survives(fs[i], vals[i]))
  {
    var items := EntriesFor(names, fs, vals);
    forall i | 0 <= i < |fs|
      ensures DictEntryItem(items[i]) && EntryOf(items[i]).key.s == names[i]
      ensures Held(fs[i], items[i]) == Got(vals[i]) <==> Survives(fs[i], vals[i])
    {
      EntryForTyped(names[i], fs[i], vals[i]);
    }
  }

  /** Writing a struct as a dictionary and reading it back over any previous value gives the struct
      if and only if every member is faithful and none is a Variant or a std::variant. */
  lemma DictionaryRoundTrip(names: seq<string>, fs: seq<Type>, strict: bool, vals: seq<Value>, dests: seq<Value>)
    requires Members(names, fs) && SendableFields(fs, vals) && |dests| == |fs|
    ensures DictItems(EntriesFor(names, fs, vals))
    ensures AssignAll(names, fs, strict, dests, EntriesFor(names, fs, vals)) == Got(vals) <==>
            forall i | 0 <= i < |fs| :: Survives(fs[i], vals[i])
  {
    hide AssignAll, EntryOf, Held, DictEntryItem, Shape, Sendable, Survives, EntriesFor, WfType, Assigned;
    EntriesForTyped(names, fs, vals);
    AssignsEach(names, fs, strict, vals, dests, EntriesFor(names, fs, vals));
  }

  /** With one entry per member in their order, each member is what its entry holds. */
  lemma AssignsEach(names: seq<string>, fs: seq<Type>, strict: bool, vals: seq<Value>, dests: seq<Value>,
                    items: seq<Item>)
    requires Members(names, fs) && |vals| == |fs| == |dests| == |items| && DictItems(items)
    requires forall i | 0 <= i < |fs| :: EntryOf(items[i]).key.s == names[i]
    ensures AssignAll(names, fs, strict, dests, items) == Got(vals) <==>
            forall i | 0 <= i < |fs| :: Held(fs[i], items[i]) == Got(vals[i])
  {
    hide AssignAll, EntryOf, Held, DictEntryItem, WfType, Assigned, MemberOf, Fits;
    MembersAreTypes(names, fs);
    forall j | 0 <= j < |items| ensures Fits(names, fs, strict, items[j]) <==> Held(fs[j], items[j]).Got? {
      FitsMember(names, fs, strict, items[j], j);
    }
    LastEntryWins(names, fs, strict, dests, items);
    var r := AssignAll(names, fs, strict, dests, items);
    if r.Got? {
      forall i | 0 <= i < |fs| ensures Held(fs[i], items[i]) == Got(r.value[i]) {
        AssignedHere(names, fs, dests[i], items, r.value[i], i);
      }
      assert r.value == vals <==> forall i | 0 <= i < |fs| :: r.value[i] == vals[i];
    } else {
      var j :| 0 <= j < |items| && !Fits(names, fs, strict, items[j]);
      assert Held(fs[j], items[j]) != Got(vals[j]);
    }
  }

  lemma MembersAreTypes(names: seq<string>, fs: seq<Type>)
    requires Members(names, fs)
    ensures forall i | 0 <= i < |fs| :: WfType(fs[i])
  {
  }

  lemma FitsMember(names: seq<string>, fs: seq<Type>, strict: bool, item: Item, i: nat)
    requires Members(names, fs) && DictEntryItem(item) && i < |fs| && EntryOf(item).key.s == names[i]
    ensures Fits(names, fs, strict, item) <==> Held(fs[i], item).Got?
  {
    hide EntryOf, Held, DictEntryItem;
    MemberAt(names, fs, i);
  }

  lemma AssignedHere(names: seq<string>, fs: seq<Type>, before: Value, items: seq<Item>, after: Value, i: nat)
    requires Members(names, fs) && |items| == |fs| && DictItems(items) && i < |fs|
    requires forall j | 0 <= j < |fs| :: EntryOf(items[j]).key.s == names[j]
    requires Assigned(names[i], fs[i], before, items, after)
    ensures Held(fs[i], items[i]) == Got(after)
  {
    hide EntryOf, Held, DictEntryItem, WfType;
    assert IsLast(names[i], items, i);
  }

  /** `operator<<` for as_dictionary: an entry per member, in their order. */
  method WriteAsDictionary(m: Message, names: seq<string>, fs: seq<Type>, vals: seq<Value>) returns (threw: bool)
    requires Members(names, fs) && Shape(Struct(fs), VStruct(vals))
    modifies m`state
    ensures !threw <==> Takes(old(m.state), "a{sv}") && SendableFields(fs, vals)
    ensures !threw ==> m.state == Put(old(m.state), "a{sv}", Array("{sv}", EntriesFor(names, fs, vals)))
  {
    VariantSignature();
    var entries;
    threw, entries := MakeEntries(names, fs, vals);
    if threw { return; }
    assert "a" + EntrySignature(Str, Variant) == "a{sv}";
    if SendableFields(fs, vals) { EntriesEncode(names, fs, vals, entries); }
    hide EncodeEntries, EntriesFor, EntrySignature;
    threw := m.SerializeDictionary(Str, Variant, entries);
  }

  predicate EntriesHold(names: seq<string>, fs: seq<Type>, vals: seq<Value>, entries: seq<KeyValue>)
    requires |names| == |fs| && SendableFields(fs, vals)
  {
    && |entries| == |fs|
    && forall i | 0 <= i < |fs| :: entries[i] == KeyValue(Text(names[i]), VVariant([VariantOf(fs[i], vals[i])], true))
  }

  lemma EntriesEncode(names: seq<string>, fs: seq<Type>, vals: seq<Value>, entries: seq<KeyValue>)
    requires |names| == |fs| && SendableFields(fs, vals) && EntriesHold(names, fs, vals, entries)
    requires ShapeEntries(Str, Variant, entries)
    ensures SendableEntries(Str, Variant, entries)
    ensures EncodeEntries(Str, Variant, entries) == EntriesFor(names, fs, vals)
  {
    hide VariantOf;
    var es, items := EncodeEntries(Str, Variant, entries), EntriesFor(names, fs, vals);
    forall i | 0 <= i < |fs| ensures es[i] == items[i] {
      assert es[i] == EncodeEntry(Str, Variant, entries[i]);
    }
  }

  /** What has become of the members so far: each is in a Variant of its own, or is a Variant that
      cannot be sent and will make the dictionary throw. */
  predicate MadeFrom(names: seq<string>, fs: seq<Type>, vals: seq<Value>, entries: seq<KeyValue>)
    requires |names| == |fs| == |vals| && |entries| <= |fs|
    requires forall i | 0 <= i < |fs| :: Shape(fs[i], vals[i])
  {
    && ShapeEntries(Str, Variant, entries)
    && forall j | 0 <= j < |entries| ::
         if Sendable(fs[j], vals[j])
         then entries[j] == KeyValue(Text(names[j]), VVariant([VariantOf(fs[j], vals[j])], true))
         else !Sendable(Variant, entries[j].val)
  }

  /** The initializer list: every member goes into a Variant of its own. */
  method MakeEntries(names: seq<string>, fs: seq<Type>, vals: seq<Value>) returns (threw: bool, entries: seq<KeyValue>)
    requires Members(names, fs) && |vals| == |fs| && forall i | 0 <= i < |fs| :: Shape(fs[i], vals[i])
    ensures SendableFields(fs, vals) ==> !threw && EntriesHold(names, fs, vals, entries)
    ensures !threw ==> ShapeEntries(Str, Variant, entries)
    ensures !threw && !SendableFields(fs, vals) ==> !SendableEntries(Str, Variant, entries)
  {
    hide Encode, WfItem, VariantOf;
    threw, entries := false, [];
    for i := 0 to |fs|
      invariant |entries| == i && MadeFrom(names, fs, vals, entries)
    {
      var variant;
      threw, variant := FromValue(fs[i], vals[i]);
      if threw { return; }
      if fs[i].Variant? && Sendable(fs[i], vals[i]) { CopyIsVariantOf(vals[i]); }
      entries := entries + [KeyValue(Text(names[i]), variant)];
    }
  }

  lemma CopyIsVariantOf(v: Value)
    requires Shape(Variant, v) && Sendable(Variant, v)
    ensures v == VVariant([VariantOf(Variant, v)], true)
  {
    assert v.items == [v.items[0]];
  }
}
