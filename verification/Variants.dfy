/** sdbus::Variant: a message of its own that holds one variant item (include/sdbus-c++/Types.h,
    src/Types.cpp). Its value form is `VVariant`; the methods here run on the message inside. */
module Variants {
  import opened TypeTraits
  import opened SdBus
  import opened Values
  import opened Messages
  import opened Serialisation
  import opened ReadGuarantees

  // ---------------------------------------------------------------------------------------
  // Construction

  /** The item that `Variant{value}` holds. For a Variant that expression is a copy, for a
      std::variant its own constructor writes the one variant that this is anyway; any other value
      goes into a variant opened for it. */
  function VariantOf(t: Type, v: Value): (item: Item)
    requires Shape(t, v) && Sendable(t, v)
    ensures item.Boxed?
  {
    if t.Variant? || t.StdVariant? then Encode(t, v) else Boxed(Encode(t, v))
  }

  /** Opens a variant for a value of type `t`, writes the value, closes and seals. With a Variant
      as the value this is the constructor that embeds it. */
  method Embed(t: Type, v: Value) returns (threw: bool, variant: Value)
    requires WfType(t) && Shape(t, v)
    ensures threw <==> !Sendable(t, v)
    ensures !threw ==> variant == VVariant([Boxed(Encode(t, v))], true) && Shape(Variant, variant)
  {
    hide Parse, ValidContents, Signature, Encode, Sendable, WfType;
    variant := VVariant([], false);
    if Sendable(t, v) { EncodeTyped(t, v); }
    VariantValid(t);
    var m := new Message();
    threw := m.WriteStdVariant(t, v);
    if threw { return; }
    threw := m.Seal();
    if threw { return; }
    variant := VVariant(m.state.cursor.rest, true);
  }

  /** The constructor from std::variant: what its `operator<<` writes, sealed. */
  method FromStdVariant(alts: seq<Type>, v: Value) returns (threw: bool, variant: Value)
    requires WfType(StdVariant(alts)) && Shape(StdVariant(alts), v)
    ensures threw <==> !Sendable(StdVariant(alts), v)
    ensures !threw ==> variant == VVariant([Encode(StdVariant(alts), v)], true) && Shape(Variant, variant)
  {
    hide Parse, ValidContents, Encode, Sendable, WfType;
    variant := VVariant([], false);
    if Sendable(StdVariant(alts), v) { EncodeTyped(StdVariant(alts), v); }
    var m := new Message();
    threw := m.Write(StdVariant(alts), v);
    if threw { return; }
    threw := m.Seal();
    if threw { return; }
    variant := VVariant(m.state.cursor.rest, true);
  }

  /** `Variant{value}`, by the constructor that overload resolution picks. */
  method FromValue(t: Type, v: Value) returns (threw: bool, variant: Value)
    requires WfType(t) && Shape(t, v)
    ensures !t.Variant? ==> (threw <==> !Sendable(t, v))
    ensures !t.Variant? && !threw ==> variant == VVariant([VariantOf(t, v)], true)
    ensures t.Variant? ==> !threw && variant == v
    ensures !threw ==> Shape(Variant, variant)
  {
    if t.Variant? {
      threw, variant := false, v;
    } else if t.StdVariant? {
      threw, variant := FromStdVariant(t.alts, v);
    } else {
      threw, variant := Embed(t, v);
    }
  }

  // ---------------------------------------------------------------------------------------
  // Access

  /** The message inside, rewound. sd-bus does not rewind a message that was never sealed. */
  method Rewound(variant: Value) returns (threw: bool, m: Message)
    requires Shape(Variant, variant)
    ensures threw <==> !variant.sealed
    ensures m.ok && m.state == Reading(Top(variant.items)) && WfState(m.state) && fresh(m)
  {
    threw := !variant.sealed;
    m := new Message();
    m.state := Reading(Top(variant.items));
  }

  /** What `get<T>()` comes to. */
  function GetResult(variant: Value, t: Type): Res<Value>
    requires Shape(Variant, variant) && WfType(t)
  {
    if variant.items != [] && variant.items[0].Boxed? && ItemSignature(variant.items[0].inner) == Signature(t)
    then Decode(t, Default(t), variant.items[0].inner)
    else Throws
  }

  /** `get<T>()`. */
  method Get(variant: Value, t: Type) returns (r: Outcome, out: Value)
    requires Shape(Variant, variant) && WfType(t)
    ensures r == OutcomeOf(GetResult(variant, t))
    ensures r == Done ==> out == GetResult(variant, t).value && Shape(t, out)
  {
    hide Signature, Decode, Default, WfType, ItemSignature;
    out := Default(t);
    if GetResult(variant, t).Got? { DecodeShape(t, out, variant.items[0].inner); }
    var threw, m := Rewound(variant);
    if threw { return Threw, out; }
    threw := m.EnterContainer(VariantKind, Signature(t));
    if threw { return Threw, out; }
    r, out := m.Read(t, out);
    if r != Done { return; }
    threw := m.ExitContainer();
    if threw { return Threw, out; }
  }

  /** The conversion to std::variant: what was made from one comes back if and only if that is
      faithful. */
  method ToStdVariant(variant: Value, alts: seq<Type>, ghost v: Value) returns (r: Outcome, out: Value)
    requires Shape(Variant, variant) && WfType(StdVariant(alts))
    ensures !variant.sealed ==> r == Threw
    ensures Shape(StdVariant(alts), v) && Sendable(StdVariant(alts), v)
            && variant == VVariant([VariantOf(StdVariant(alts), v)], true) ==>
              (r == Done && out == v <==> Faithful(StdVariant(alts), v))
  {
    out := Default(StdVariant(alts));
    if Shape(StdVariant(alts), v) && Sendable(StdVariant(alts), v) {
      RoundTrip(StdVariant(alts), v);
    }
    hide Signature, Decode, Encode, Sendable, Faithful, WfItem, DecodeBoxed;
    var threw, m := Rewound(variant);
    if threw { return Threw, out; }
    r, out := m.Read(StdVariant(alts), out);
  }

  /** `containsValueOfType<T>()`: throws on a Variant that was never given a value, and compares
      with a null contents signature where there are no contents. */
  method ContainsValueOfType(variant: Value, t: Type) returns (r: Res<bool>)
    requires Shape(Variant, variant) && WfType(t)
    ensures r.Throws? <==> !variant.sealed
    ensures r.Got? <==> variant.items != [] && !variant.items[0].Plain?
    ensures r.Got? && Readable(t) ==> (r.value && variant.items[0].Boxed? <==> GetResult(variant, t).Got?)
  {
    var threw, m := Rewound(variant);
    if threw { return Throws; }
    var contents := PeekContents(m.state.cursor);
    if contents.None? { return Crashes; }
    if variant.items[0].Boxed? && ItemSignature(variant.items[0].inner) == Signature(t) && Readable(t) {
      ReadsItsSignature(t, variant.items[0].inner);
    }
    r := Got(contents.value == Signature(t));
  }

  // ---------------------------------------------------------------------------------------
  // Round trips

  /** The contents of the variant that a value became are never read back as that value. */
  lemma {:induction false} NeverUnwraps(t: Type, v: Value)
    requires WfType(t) && Shape(t, v) && Sendable(t, v) && Encode(t, v).Boxed?
    ensures Decode(t, Default(t), Encode(t, v).inner) != Got(v)
    decreases t
  {
    var inner := Encode(t, v).inner;
    match t
    case Variant => assert v.items[0] == Boxed(inner) != inner;
    case StdVariant(alts) =>
      if inner.Boxed? {
        NeverUnwraps(alts[v.index], v.val);
      }
  }

  /** `get<T>()` gives back the value `Variant{value}` was made from if and only if it is faithful
      and neither a Variant nor a std::variant: those lose the level that get enters. */
  lemma GetRoundTrip(t: Type, v: Value)
    requires WfType(t) && Shape(t, v) && Sendable(t, v) && Shape(Variant, VVariant([VariantOf(t, v)], true))
    ensures GetResult(VVariant([VariantOf(t, v)], true), t) == Got(v) <==>
            Faithful(t, v) && !t.Variant? && !t.StdVariant?
  {
    if t.Variant? || t.StdVariant? {
      NeverUnwraps(t, v);
    } else {
      EncodeTyped(t, v);
      RoundTrip(t, v);
    }
    hide Encode, Decode, Default, Shape, Sendable, Faithful, WfType, WfItem, Signature, ItemSignature;
  }

  /** From an embedding Variant every faithful value comes back, Variants included, and every type
      with another D-Bus type throws. */
  lemma EmbedRoundTrip(t: Type, v: Value, u: Type)
    requires WfType(t) && WfType(u) && Shape(t, v) && Sendable(t, v)
    requires Shape(Variant, VVariant([Boxed(Encode(t, v))], true))
    ensures var variant := VVariant([Boxed(Encode(t, v))], true);
            && (GetResult(variant, t) == Got(v) <==> Faithful(t, v))
            && (Canon(u) != Canon(t) ==> GetResult(variant, u).Throws?)
  {
    EncodeTyped(t, v);
    RoundTrip(t, v);
    SameSignature(t, u);
    hide Encode, Decode, Default, Shape, Sendable, Faithful, WfType, WfItem, Signature, ItemSignature, Canon;
  }
}
