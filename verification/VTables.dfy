/** The vtable of a D-Bus object: the index the dispatch callbacks search and the table handed to
    sd-bus (src/Object.cpp, src/Object.h). Callbacks are numbers; None is an empty one. */
module VTables {
  import opened Options

  datatype VTableItem =
    | FlagsItem(interfaceFlags: int)
    | MethodItem(name: string, signatures: (string, string), callback: Option<int>)
    | SignalItem(name: string, signature: string)
    | PropertyItem(name: string, signature: string, getter: Option<int>, setter: Option<int>)

  datatype VTable = VTable(
    interfaceFlags: int,
    methods: seq<VTableItem>,
    signals: seq<VTableItem>,
    properties: seq<VTableItem>)

  datatype Entry =
    | StartEntry(interfaceFlags: int)
    | MethodEntry(name: string, signatures: (string, string))
    | SignalEntry(name: string, signature: string)
    | ReadOnlyProperty(name: string, signature: string)
    | WritableProperty(name: string, signature: string)
    | EndEntry

  // ---------------------------------------------------------------------------------------
  // The order of names

  /** `std::string::operator<`. */
  predicate Less(a: string, b: string) {
    b != "" && (a == "" || a[0] < b[0] || (a[0] == b[0] && Less(a[1..], b[1..])))
  }

  lemma {:induction false} LessIsTotal(a: string, b: string)
    ensures Less(a, b) || Less(b, a) || a == b
    ensures !(Less(a, b) && Less(b, a)) && !Less(a, a)
  {
    if a != "" && b != "" {
      LessIsTotal(a[1..], b[1..]);
      assert a == [a[0]] + a[1..] && b == [b[0]] + b[1..];
    }
    if a != "" { LessIsTotal(a[1..], a[1..]); }
  }

  lemma {:induction false} LessIsTransitive(a: string, b: string, c: string)
    requires !Less(b, a) && !Less(c, b)
    ensures !Less(c, a)
  {
    if a != "" && b != "" && c != "" && a[0] == b[0] == c[0] {
      LessIsTransitive(a[1..], b[1..], c[1..]);
    }
  }

  predicate IsNamed(item: VTableItem) {
    !item.FlagsItem?
  }

  predicate AllNamed(items: seq<VTableItem>) {
    forall i | 0 <= i < |items| :: IsNamed(items[i])
  }

  predicate Sorted(items: seq<VTableItem>) {
    AllNamed(items) && forall i, j | 0 <= i < j < |items| :: !Less(items[j].name, items[i].name)
  }

  // ---------------------------------------------------------------------------------------
  // Registration

  /** `sd_bus_member_name_is_valid`. */
  predicate ValidMember(name: string) {
    && 0 < |name| <= 255
    && !('0' <= name[0] <= '9')
    && forall i | 0 <= i < |name| ::
         'a' <= name[i] <= 'z' || 'A' <= name[i] <= 'Z' || '0' <= name[i] <= '9' || name[i] == '_'
  }

  predicate Accepted(item: VTableItem) {
    match item
    case FlagsItem(_) => true
    case MethodItem(name, _, callback) => ValidMember(name) && callback.Some?
    case SignalItem(name, _) => ValidMember(name)
    case PropertyItem(name, _, getter, setter) => ValidMember(name) && (getter.Some? || setter.Some?)
  }

  datatype Kind = MethodKind | SignalKind | PropertyKind

  function KindOf(item: VTableItem): Option<Kind> {
    match item
    case FlagsItem(_) => None
    case MethodItem(_, _, _) => Some(MethodKind)
    case SignalItem(_, _) => Some(SignalKind)
    case PropertyItem(_, _, _, _) => Some(PropertyKind)
  }

  /** The registered items of one kind, in order. */
  function OfKind(kind: Kind, items: seq<VTableItem>): (r: seq<VTableItem>)
    ensures forall i | 0 <= i < |r| :: KindOf(r[i]) == Some(kind) && r[i] in items
    ensures forall i | 0 <= i < |items| && KindOf(items[i]) == Some(kind) :: items[i] in r
  {
    if items == [] then []
    else
      var n := |items| - 1;
      OfKind(kind, items[..n]) + if KindOf(items[n]) == Some(kind) then [items[n]] else []
  }

  /** Each item is among those of its kind as often as it was registered. */
  lemma {:induction false} OfKindCounts(kind: Kind, items: seq<VTableItem>, item: VTableItem)
    ensures multiset(OfKind(kind, items))[item] == if KindOf(item) == Some(kind) then multiset(items)[item] else 0
  {
    if items != [] {
      var n := |items| - 1;
      OfKindCounts(kind, items[..n], item);
      assert items == items[..n] + [items[n]];
    }
  }

  /** The last interface flags registered, or those of a fresh vtable. */
  function FlagsOf(items: seq<VTableItem>): int {
    if items == [] then 0
    else
      var n := |items| - 1;
      if items[n].FlagsItem? then items[n].interfaceFlags else FlagsOf(items[..n])
  }

  lemma {:induction false} FlagsAsRegistered(items: seq<VTableItem>)
    ensures (forall i | 0 <= i < |items| :: !items[i].FlagsItem?) ==> FlagsOf(items) == 0
    ensures forall i |
              0 <= i < |items| && items[i].FlagsItem? && (forall j | i < j < |items| :: !items[j].FlagsItem?) ::
              FlagsOf(items) == items[i].interfaceFlags
  {
    if items != [] && !items[|items| - 1].FlagsItem? {
      FlagsAsRegistered(items[..|items| - 1]);
    }
  }

  /** The index holds the registered items of each kind, sorted. */
  predicate IsIndex(v: VTable, items: seq<VTableItem>) {
    && v.interfaceFlags == FlagsOf(items)
    && Sorted(v.methods) && multiset(v.methods) == multiset(OfKind(MethodKind, items))
    && Sorted(v.signals) && multiset(v.signals) == multiset(OfKind(SignalKind, items))
    && Sorted(v.properties) && multiset(v.properties) == multiset(OfKind(PropertyKind, items))
  }

  function Unsorted(items: seq<VTableItem>): VTable {
    VTable(FlagsOf(items), OfKind(MethodKind, items), OfKind(SignalKind, items), OfKind(PropertyKind, items))
  }

  /** `createInternalVTable`. */
  method CreateInternalVTable(items: seq<VTableItem>) returns (threw: bool, v: VTable)
    ensures !threw <==> forall i | 0 <= i < |items| ::
              && (IsNamed(items[i]) ==> ValidMember(items[i].name))
              && (items[i].MethodItem? ==> items[i].callback.Some?)
              && (items[i].PropertyItem? ==> items[i].getter.Some? || items[i].setter.Some?)
    ensures !threw ==> IsIndex(v, items)
  {
    hide ValidMember, OfKind, FlagsOf;
    threw, v := WriteItems(items);
    assert forall i | 0 <= i < |items| :: Accepted(items[i]) <==>
              && (IsNamed(items[i]) ==> ValidMember(items[i].name))
              && (items[i].MethodItem? ==> items[i].callback.Some?)
              && (items[i].PropertyItem? ==> items[i].getter.Some? || items[i].setter.Some?);
    if threw { return; }
    var methods := SortByName(v.methods);
    var signals := SortByName(v.signals);
    var properties := SortByName(v.properties);
    v := v.(methods := methods, signals := signals, properties := properties);
  }

  lemma UnsortedStep(items: seq<VTableItem>, k: nat)
    requires k < |items|
    ensures var u, v, item := Unsorted(items[..k]), Unsorted(items[..k + 1]), items[k];
            match item
            case FlagsItem(flags) => v == u.(interfaceFlags := flags)
            case MethodItem(_, _, _) => v == u.(methods := u.methods + [item])
            case SignalItem(_, _) => v == u.(signals := u.signals + [item])
            case PropertyItem(_, _, _, _) => v == u.(properties := u.properties + [item])
  {
    assert items[..k + 1][..k] == items[..k];
  }

  /** The loop of `createInternalVTable`. */
  method WriteItems(items: seq<VTableItem>) returns (threw: bool, v: VTable)
    ensures threw <==> exists i | 0 <= i < |items| :: !Accepted(items[i])
    ensures !threw ==> v == Unsorted(items)
  {
    hide Accepted, OfKind, FlagsOf;
    threw, v := false, VTable(0, [], [], []);
    assert v == Unsorted(items[..0]) by { NothingWritten(items); }
    for k := 0 to |items|
      invariant forall i | 0 <= i < k :: Accepted(items[i])
      invariant v == Unsorted(items[..k])
    {
      UnsortedStep(items, k);
      if !Accepted(items[k]) { return true, v; }
      match items[k]
      case FlagsItem(flags) => v := v.(interfaceFlags := flags);
      case MethodItem(_, _, _) => v := v.(methods := v.methods + [items[k]]);
      case SignalItem(_, _) => v := v.(signals := v.signals + [items[k]]);
      case PropertyItem(_, _, _, _) => v := v.(properties := v.properties + [items[k]]);
    }
    assert items[..|items|] == items;
  }

  lemma NothingWritten(items: seq<VTableItem>)
    ensures Unsorted(items[..0]) == VTable(0, [], [], [])
  {
  }

  /** Stands for std::sort: some sorted permutation, with items of equal name in any order. */
  method SortByName(items: seq<VTableItem>) returns (r: seq<VTableItem>)
    requires AllNamed(items)
    ensures Sorted(r) && multiset(r) == multiset(items)
  {
    r := [];
    for k := 0 to |items|
      invariant Sorted(r) && multiset(r) == multiset(items[..k])
    {
      var p := PlaceOf(r, items[k]);
      InsertSorted(r, p, items[k]);
      hide Sorted, AllNamed;
      Inserted(items, k, r, p);
      r := r[..p] + [items[k]] + r[p..];
    }
    assert items[..|items|] == items;
  }

  lemma Inserted(items: seq<VTableItem>, k: nat, r: seq<VTableItem>, p: nat)
    requires k < |items| && p <= |r| && multiset(r) == multiset(items[..k])
    ensures multiset(r[..p] + [items[k]] + r[p..]) == multiset(items[..k + 1])
  {
    assert r == r[..p] + r[p..] && items[..k + 1] == items[..k] + [items[k]];
  }

  method PlaceOf(r: seq<VTableItem>, item: VTableItem) returns (p: nat)
    requires AllNamed(r) && IsNamed(item)
    ensures p <= |r| && forall i | 0 <= i < p :: Less(r[i].name, item.name)
    ensures p < |r| ==> !Less(r[p].name, item.name)
  {
    hide Less;
    p := 0;
    while p < |r| && Less(r[p].name, item.name)
      invariant p <= |r|
      invariant forall i | 0 <= i < p :: Less(r[i].name, item.name)
    {
      p := p + 1;
    }
  }

  lemma InsertSorted(r: seq<VTableItem>, p: nat, item: VTableItem)
    requires Sorted(r) && p <= |r| && IsNamed(item)
    requires forall i | 0 <= i < p :: Less(r[i].name, item.name)
    requires p < |r| ==> !Less(r[p].name, item.name)
    ensures Sorted(r[..p] + [item] + r[p..])
  {
    hide Less;
    forall i | 0 <= i < p ensures !Less(item.name, r[i].name) {
      LessIsTotal(item.name, r[i].name);
    }
    forall i | p <= i < |r| ensures !Less(r[i].name, item.name) {
      if i > p { LessIsTransitive(item.name, r[p].name, r[i].name); }
    }
  }

  // ---------------------------------------------------------------------------------------
  // Search

  /** `std::lower_bound` by name, and the comparison that follows it. */
  method Find(items: seq<VTableItem>, name: string) returns (r: Option<nat>)
    requires Sorted(items)
    ensures r.Some? <==> exists i | 0 <= i < |items| :: items[i].name == name
    ensures r.Some? ==> r.value < |items| && items[r.value].name == name
    ensures r.Some? ==> forall i | 0 <= i < r.value :: items[i].name != name
  {
    hide Less;
    var first: nat, count: nat := 0, |items|;
    while count > 0
      invariant first + count <= |items|
      invariant forall i | 0 <= i < first :: Less(items[i].name, name)
      invariant forall i | first + count <= i < |items| :: !Less(items[i].name, name)
    {
      var half := count / 2;
      var mid := first + half;
      Around(items, mid, name);
      if Less(items[mid].name, name) {
        first, count := mid + 1, count - half - 1;
      } else {
        count := half;
      }
    }
    forall i | 0 <= i < first ensures items[i].name != name {
      LessIsTotal(items[i].name, name);
    }
    if first < |items| && items[first].name == name {
      return Some(first);
    }
    forall i | first <= i < |items| ensures items[i].name != name {
      LessIsTotal(items[first].name, name);
      if i > first { assert !Less(items[i].name, items[first].name); }
    }
    r := None;
  }

  lemma Around(items: seq<VTableItem>, mid: nat, name: string)
    requires Sorted(items) && mid < |items|
    ensures Less(items[mid].name, name) ==> forall i | 0 <= i <= mid :: Less(items[i].name, name)
    ensures !Less(items[mid].name, name) ==> forall i | mid <= i < |items| :: !Less(items[i].name, name)
  {
    hide Less;
    forall i | 0 <= i <= mid && !Less(items[i].name, name) ensures !Less(items[mid].name, name) {
      if i < mid { LessIsTransitive(name, items[i].name, items[mid].name); }
    }
    forall i | mid <= i < |items| && !Less(items[mid].name, name) ensures !Less(items[i].name, name) {
      if i > mid { LessIsTransitive(name, items[mid].name, items[i].name); }
    }
  }

  /** The search over an index finds a name exactly if an item of the kind was registered with it. */
  lemma IndexedIffRegistered(items: seq<VTableItem>, index: seq<VTableItem>, kind: Kind, name: string)
    requires AllNamed(index) && multiset(index) == multiset(OfKind(kind, items))
    ensures (exists i | 0 <= i < |index| :: index[i].name == name) <==>
            exists j | 0 <= j < |items| :: KindOf(items[j]) == Some(kind) && items[j].name == name
  {
    var ofKind := OfKind(kind, items);
    hide OfKind;
    if i :| 0 <= i < |index| && index[i].name == name {
      assert index[i] in multiset(ofKind);
    }
    if j :| 0 <= j < |items| && KindOf(items[j]) == Some(kind) && items[j].name == name {
      assert items[j] in ofKind && items[j] in multiset(index);
    }
  }

  // ---------------------------------------------------------------------------------------
  // The sd-bus table and the dispatch callbacks

  function EntryOf(item: VTableItem): Entry
    requires IsNamed(item)
  {
    match item
    case MethodItem(name, signatures, _) => MethodEntry(name, signatures)
    case SignalItem(name, signature) => SignalEntry(name, signature)
    case PropertyItem(name, signature, _, setter) =>
      if setter.Some? then WritableProperty(name, signature) else ReadOnlyProperty(name, signature)
  }

  function EntriesOf(items: seq<VTableItem>): (r: seq<Entry>)
    requires AllNamed(items)
    ensures |r| == |items| && forall i | 0 <= i < |items| :: r[i] == EntryOf(items[i])
  {
    seq(|items|, i requires 0 <= i < |items| => EntryOf(items[i]))
  }

  /** `createInternalSdBusVTable`. */
  method CreateSdBusVTable(v: VTable) returns (entries: seq<Entry>)
    requires AllNamed(v.methods) && AllNamed(v.signals) && AllNamed(v.properties)
    ensures entries == [StartEntry(v.interfaceFlags)] + EntriesOf(v.methods) + EntriesOf(v.signals)
                       + EntriesOf(v.properties) + [EndEntry]
  {
    entries := [StartEntry(v.interfaceFlags)];
    entries := WriteRecords(entries, v.methods);
    entries := WriteRecords(entries, v.signals);
    entries := WriteRecords(entries, v.properties);
    entries := entries + [EndEntry];
  }

  /** One of the loops of `createInternalSdBusVTable`. */
  method WriteRecords(before: seq<Entry>, items: seq<VTableItem>) returns (entries: seq<Entry>)
    requires AllNamed(items)
    ensures entries == before + EntriesOf(items)
  {
    entries := before;
    for i := 0 to |items|
      invariant entries == before + EntriesOf(items)[..i]
    {
      entries := entries + [EntryOf(items[i])];
    }
  }

  /** What sd-bus was given for an object, with what it was made from. */
  predicate Emitted(items: seq<VTableItem>, v: VTable, entries: seq<Entry>) {
    && (forall i | 0 <= i < |items| :: Accepted(items[i]))
    && IsIndex(v, items)
    && entries == [StartEntry(v.interfaceFlags)] + EntriesOf(v.methods) + EntriesOf(v.signals)
                  + EntriesOf(v.properties) + [EndEntry]
  }

  /** sd-bus does not take two properties with the same name. */
  predicate DistinctProperties(v: VTable)
    requires AllNamed(v.properties)
  {
    forall i, j | 0 <= i < j < |v.properties| :: v.properties[i].name != v.properties[j].name
  }

  lemma EntryIsSomewhere(v: VTable, entries: seq<Entry>, e: Entry)
    requires AllNamed(v.methods) && AllNamed(v.signals) && AllNamed(v.properties)
    requires entries == [StartEntry(v.interfaceFlags)] + EntriesOf(v.methods) + EntriesOf(v.signals)
                        + EntriesOf(v.properties) + [EndEntry]
    requires e in entries
    ensures || e.StartEntry? || e.EndEntry?
            || e in EntriesOf(v.methods) || e in EntriesOf(v.signals) || e in EntriesOf(v.properties)
  {
  }

  lemma EntryIsAmong(items: seq<VTableItem>, v: VTable, entries: seq<Entry>, e: Entry)
    requires Emitted(items, v, entries) && e in entries
    ensures forall i | 0 <= i < |v.methods| :: v.methods[i].MethodItem?
    ensures forall i | 0 <= i < |v.signals| :: v.signals[i].SignalItem?
    ensures forall i | 0 <= i < |v.properties| :: v.properties[i].PropertyItem?
    ensures || e.StartEntry? || e.EndEntry?
            || e in EntriesOf(v.methods) || e in EntriesOf(v.signals) || e in EntriesOf(v.properties)
  {
    assert AllNamed(v.methods) && AllNamed(v.signals) && AllNamed(v.properties);
    hide Accepted, Sorted, EntriesOf, AllNamed;
    Kinds(items, v);
    EntryIsSomewhere(v, entries, e);
  }

  lemma MethodEntryHasItem(items: seq<VTableItem>, v: VTable, entries: seq<Entry>, e: Entry)
    requires Emitted(items, v, entries) && e in entries && e.MethodEntry?
    ensures exists i | 0 <= i < |v.methods| ::
              v.methods[i].MethodItem? && v.methods[i].name == e.name && v.methods[i].signatures == e.signatures
  {
    hide Emitted;
    EntryIsAmong(items, v, entries, e);
    NotAmong(v.signals, e);
    NotAmong(v.properties, e);
    var i := ItemOfEntry(v.methods, e);
    assert v.methods[i].MethodItem? && v.methods[i].name == e.name && v.methods[i].signatures == e.signatures;
  }

  lemma SignalEntryHasItem(items: seq<VTableItem>, v: VTable, entries: seq<Entry>, e: Entry)
    requires Emitted(items, v, entries) && e in entries && e.SignalEntry?
    ensures exists i | 0 <= i < |v.signals| ::
              v.signals[i].SignalItem? && v.signals[i].name == e.name && v.signals[i].signature == e.signature
  {
    hide Emitted;
    EntryIsAmong(items, v, entries, e);
    NotAmong(v.methods, e);
    NotAmong(v.properties, e);
    var i := ItemOfEntry(v.signals, e);
    assert v.signals[i].SignalItem? && v.signals[i].name == e.name && v.signals[i].signature == e.signature;
  }

  /** Set callbacks are emitted exactly for properties with a setter. */
  lemma PropertyEntryHasItem(items: seq<VTableItem>, v: VTable, entries: seq<Entry>, e: Entry)
    requires Emitted(items, v, entries) && e in entries && (e.ReadOnlyProperty? || e.WritableProperty?)
    ensures exists i | 0 <= i < |v.properties| ::
              v.properties[i].PropertyItem? && v.properties[i].name == e.name
              && v.properties[i].signature == e.signature && (v.properties[i].setter.Some? <==> e.WritableProperty?)
  {
    hide Emitted;
    EntryIsAmong(items, v, entries, e);
    NotAmong(v.methods, e);
    NotAmong(v.signals, e);
    var i := ItemOfEntry(v.properties, e);
    assert v.properties[i].PropertyItem? && v.properties[i].name == e.name && v.properties[i].signature == e.signature;
  }

  /** Conversely every item that was registered has its entry, with its own name and signatures, and
      sd-bus gets no more entries than that, between the interface flags and the end. */
  lemma ItemHasEntry(items: seq<VTableItem>, v: VTable, entries: seq<Entry>, item: VTableItem)
    requires Emitted(items, v, entries) && item in items
    ensures match item
            case FlagsItem(_) => true
            case MethodItem(name, signatures, _) => MethodEntry(name, signatures) in entries
            case SignalItem(name, signature) => SignalEntry(name, signature) in entries
            case PropertyItem(name, signature, _, None) => ReadOnlyProperty(name, signature) in entries
            case PropertyItem(name, signature, _, Some(_)) => WritableProperty(name, signature) in entries
  {
    hide Accepted, OfKind, FlagsOf;
    match item
    case FlagsItem(_) =>
    case MethodItem(_, _, _) => HasEntry(items, MethodKind, v.methods, item);
    case SignalItem(_, _) => HasEntry(items, SignalKind, v.signals, item);
    case PropertyItem(_, _, _, _) => HasEntry(items, PropertyKind, v.properties, item);
  }

  lemma HasEntry(items: seq<VTableItem>, kind: Kind, index: seq<VTableItem>, item: VTableItem)
    requires AllNamed(index) && multiset(index) == multiset(OfKind(kind, items))
    requires item in items && KindOf(item) == Some(kind)
    ensures EntryOf(item) in EntriesOf(index)
  {
    OfKindCounts(kind, items, item);
    assert item in multiset(index);
    var i :| 0 <= i < |index| && index[i] == item;
    assert EntriesOf(index)[i] == EntryOf(item);
  }

  function FlagsItems(items: seq<VTableItem>): nat {
    if items == [] then 0
    else FlagsItems(items[..|items| - 1]) + if items[|items| - 1].FlagsItem? then 1 else 0
  }

  lemma {:induction false} KindsAddUp(items: seq<VTableItem>)
    ensures |OfKind(MethodKind, items)| + |OfKind(SignalKind, items)| + |OfKind(PropertyKind, items)|
            == |items| - FlagsItems(items)
  {
    if items != [] {
      KindsAddUp(items[..|items| - 1]);
    }
  }

  lemma EntriesAddUp(items: seq<VTableItem>, v: VTable, entries: seq<Entry>)
    requires Emitted(items, v, entries)
    ensures |entries| == |items| - FlagsItems(items) + 2
    ensures entries[0] == StartEntry(FlagsOf(items)) && entries[|entries| - 1] == EndEntry
  {
    assert |v.methods| == |multiset(v.methods)| == |multiset(OfKind(MethodKind, items))|;
    assert |v.signals| == |multiset(v.signals)| == |multiset(OfKind(SignalKind, items))|;
    assert |v.properties| == |multiset(v.properties)| == |multiset(OfKind(PropertyKind, items))|;
    hide Accepted, OfKind, Sorted, FlagsOf;
    KindsAddUp(items);
  }

  /** An entry among those of some items belongs to one of them. */
  lemma ItemOfEntry(items: seq<VTableItem>, e: Entry) returns (i: nat)
    requires AllNamed(items) && e in EntriesOf(items)
    ensures i < |items| && e == EntryOf(items[i])
  {
    i :| 0 <= i < |items| && EntriesOf(items)[i] == e;
  }

  lemma NotAmong(items: seq<VTableItem>, e: Entry)
    requires AllNamed(items) && forall i | 0 <= i < |items| :: e != EntryOf(items[i])
    ensures e !in EntriesOf(items)
  {
  }

  lemma Kinds(items: seq<VTableItem>, v: VTable)
    requires IsIndex(v, items)
    ensures forall i | 0 <= i < |v.methods| :: v.methods[i].MethodItem? && v.methods[i] in items
    ensures forall i | 0 <= i < |v.signals| :: v.signals[i].SignalItem? && v.signals[i] in items
    ensures forall i | 0 <= i < |v.properties| :: v.properties[i].PropertyItem? && v.properties[i] in items
  {
    forall i | 0 <= i < |v.methods| ensures v.methods[i].MethodItem? && v.methods[i] in items {
      assert v.methods[i] in multiset(OfKind(MethodKind, items));
    }
    forall i | 0 <= i < |v.signals| ensures v.signals[i].SignalItem? && v.signals[i] in items {
      assert v.signals[i] in multiset(OfKind(SignalKind, items));
    }
    forall i | 0 <= i < |v.properties| ensures v.properties[i].PropertyItem? && v.properties[i] in items {
      assert v.properties[i] in multiset(OfKind(PropertyKind, items));
    }
  }

  /** `sdbus_method_callback` for a member sd-bus has an entry for: its assertions hold. */
  method MethodCallback(ghost items: seq<VTableItem>, v: VTable, ghost entries: seq<Entry>, member: string)
    returns (callback: int)
    requires Emitted(items, v, entries) && exists s :: MethodEntry(member, s) in entries
    ensures exists s :: MethodItem(member, s, Some(callback)) in items
  {
    Kinds(items, v);
    ghost var s :| MethodEntry(member, s) in entries;
    MethodEntryHasItem(items, v, entries, MethodEntry(member, s));
    var r := Find(v.methods, member);
    assert r.Some?;
    assert v.methods[r.value] in items;
    assert v.methods[r.value].callback.Some?;
    callback := v.methods[r.value].callback.value;
  }

  /** `sdbus_property_get_callback`; None is the error for a write-only property. */
  method PropertyGetCallback(ghost items: seq<VTableItem>, v: VTable, ghost entries: seq<Entry>, property: string)
    returns (getter: Option<int>)
    requires Emitted(items, v, entries)
    requires exists s :: ReadOnlyProperty(property, s) in entries || WritableProperty(property, s) in entries
    ensures exists s, setter :: PropertyItem(property, s, getter, setter) in items
  {
    Kinds(items, v);
    ghost var s :| ReadOnlyProperty(property, s) in entries || WritableProperty(property, s) in entries;
    if ReadOnlyProperty(property, s) in entries {
      PropertyEntryHasItem(items, v, entries, ReadOnlyProperty(property, s));
    } else {
      PropertyEntryHasItem(items, v, entries, WritableProperty(property, s));
    }
    var r := Find(v.properties, property);
    assert r.Some?;
    var item := v.properties[r.value];
    assert item == PropertyItem(property, item.signature, item.getter, item.setter);
    getter := item.getter;
  }

  /** `sdbus_property_set_callback`, which sd-bus calls for writable entries only. */
  method PropertySetCallback(ghost items: seq<VTableItem>, v: VTable, ghost entries: seq<Entry>, property: string)
    returns (setter: int)
    requires Emitted(items, v, entries) && DistinctProperties(v)
    requires exists s :: WritableProperty(property, s) in entries
    ensures exists s, getter :: PropertyItem(property, s, getter, Some(setter)) in items
  {
    Kinds(items, v);
    ghost var s :| WritableProperty(property, s) in entries;
    PropertyEntryHasItem(items, v, entries, WritableProperty(property, s));
    var r := Find(v.properties, property);
    assert r.Some?;
    var item := v.properties[r.value];
    assert item.setter.Some?;
    setter := item.setter.value;
    assert item == PropertyItem(property, item.signature, item.getter, Some(setter));
  }
}
