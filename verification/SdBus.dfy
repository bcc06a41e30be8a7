/** The assumed contract of an sd-bus message: a tree of typed items, a builder that appends to
    it and a cursor that walks it. src/Message.cpp only forwards to these operations; their
    results stand for the sign of the C return value. */
module SdBus {
  import opened Options
  import opened TypeTraits

  datatype Payload = Num(n: int) | Real(r: real) | Text(s: string)

  datatype Item =
    | Plain(basic: Basic, data: Payload)
    | Array(elem: string, items: seq<Item>)
    | Entry(key: Item, val: Item)     // dictionary entry, only inside an array
    | Tuple(fields: seq<Item>)        // struct
    | Boxed(inner: Item)              // variant

  datatype Kind = ArrayKind | EntryKind | StructKind | VariantKind

  /** The values a basic D-Bus type has. A file descriptor number stands for what it refers to. */
  predicate PayloadOk(b: Basic, p: Payload) {
    match b
    case Str => p.Text? case Path => p.Text? case Sig => p.Text? case Double => p.Real?
    case Boolean => p.Num? && 0 <= p.n <= 1
    case Byte => p.Num? && 0 <= p.n < 0x100
    case Int16 => p.Num? && -0x8000 <= p.n < 0x8000
    case Uint16 => p.Num? && 0 <= p.n < 0x1_0000
    case Int32 => p.Num? && -0x8000_0000 <= p.n < 0x8000_0000
    case Fd => p.Num? && -0x8000_0000 <= p.n < 0x8000_0000
    case Uint32 => p.Num? && 0 <= p.n < 0x1_0000_0000
    case Int64 => p.Num? && -0x8000_0000_0000_0000 <= p.n < 0x8000_0000_0000_0000
    case Uint64 => p.Num? && 0 <= p.n < 0x1_0000_0000_0000_0000
  }

  function ItemSignature(item: Item): string
    decreases item, 0
  {
    match item
    case Plain(b, _) => [Code(b)]
    case Array(elem, _) => "a" + elem
    case Entry(k, v) => "{" + (ItemSignature(k) + ItemSignature(v)) + "}"
    case Tuple(fs) => "(" + ItemSignatures(fs) + ")"
    case Boxed(_) => "v"
  }

  function ItemSignatures(items: seq<Item>): string
    decreases items, 1
  {
    if items == [] then "" else ItemSignature(items[0]) + ItemSignatures(items[1..])
  }

  /** The contents signature of a container. */
  function Contents(item: Item): string {
    match item
    case Plain(_, _) => ""
    case Array(elem, _) => elem
    case Entry(k, v) => ItemSignature(k) + ItemSignature(v)
    case Tuple(fs) => ItemSignatures(fs)
    case Boxed(inner) => ItemSignature(inner)
  }

  predicate ValidElement(elem: string) {
    match Parse("a" + elem) case Some((_, rest)) => rest == "" case None => false
  }

  /** What sd-bus guarantees of every message: contents agree with the declared signatures. */
  predicate WfItem(item: Item) {
    match item
    case Plain(b, p) => PayloadOk(b, p)
    case Array(elem, items) =>
      && ValidElement(elem)
      && forall i | 0 <= i < |items| :: WfItem(items[i]) && ItemSignature(items[i]) == elem
    case Entry(k, v) => k.Plain? && WfItem(k) && WfItem(v) && !v.Entry?
    case Tuple(fs) => fs != [] && forall i | 0 <= i < |fs| :: WfItem(fs[i]) && !fs[i].Entry?
    case Boxed(inner) => WfItem(inner) && !inner.Entry?
  }

  // ---------------------------------------------------------------------------------------
  // Reading

  /** The rest of the innermost container, and where the reader continues after leaving it. */
  datatype Cursor =
    | Top(rest: seq<Item>)
    | In(kind: Kind, rest: seq<Item>, outer: Cursor)

  predicate WfCursor(c: Cursor) {
    && (forall i | 0 <= i < |c.rest| :: WfItem(c.rest[i]))
    && (c.In? ==> WfCursor(c.outer))
  }

  datatype Peeked = ArrayEnd | SignatureEnd | Next(item: Item)

  function Peek(c: Cursor): Peeked {
    if c.rest != [] then Next(c.rest[0])
    else if c.In? && c.kind == ArrayKind then ArrayEnd
    else SignatureEnd
  }

  function Advance(c: Cursor): Cursor
    requires c.rest != []
  {
    c.(rest := c.rest[1..])
  }

  /** r < 0, r == 0 (end of the enclosing array, nothing moved) and r > 0. */
  datatype Step<T> = Fail | End | Ok(value: T)

  function ReadBasic(c: Cursor, b: Basic): Step<(Payload, Cursor)> {
    match Peek(c)
    case SignatureEnd => Fail
    case ArrayEnd => End
    case Next(item) =>
      if item.Plain? && item.basic == b then Ok((item.data, Advance(c))) else Fail
  }

  function Enter(c: Cursor, kind: Kind, contents: string): Step<Cursor> {
    match Peek(c)
    case SignatureEnd => Fail
    case ArrayEnd => End
    case Next(item) =>
      if KindOf(item) == Some(kind) && Contents(item) == contents
      then Ok(In(kind, Inside(item), Advance(c))) else Fail
  }

  function KindOf(item: Item): Option<Kind> {
    match item
    case Plain(_, _) => None
    case Array(_, _) => Some(ArrayKind)
    case Entry(_, _) => Some(EntryKind)
    case Tuple(_) => Some(StructKind)
    case Boxed(_) => Some(VariantKind)
  }

  function Inside(item: Item): seq<Item> {
    match item
    case Plain(_, _) => []
    case Array(_, items) => items
    case Entry(k, v) => [k, v]
    case Tuple(fs) => fs
    case Boxed(inner) => [inner]
  }

  function Exit(c: Cursor): Option<Cursor> {
    if c.In? && c.rest == [] then Some(c.outer) else None
  }

  /** The one-step read of an array of a trivial type. */
  function ReadArray(c: Cursor, b: Basic): Step<(seq<Payload>, Cursor)> {
    match Enter(c, ArrayKind, [Code(b)])
    case Fail => Fail
    case End => End
    case Ok(inner) => Ok((Payloads(inner.rest), Advance(c)))
  }

  function Payloads(items: seq<Item>): (r: seq<Payload>)
    ensures |r| == |items|
  {
    seq(|items|, i requires 0 <= i < |items| => if items[i].Plain? then items[i].data else Num(0))
  }

  /** The contents part of `sd_bus_message_peek_type`; None is the null pointer. */
  function PeekContents(c: Cursor): Option<string> {
    match Peek(c)
    case Next(item) => if item.Plain? then None else Some(Contents(item))
    case _ => None
  }

  // ---------------------------------------------------------------------------------------
  // Writing

  /** A message under construction. In a container, `index` is the position in the declared
      contents signature; an array stays at 0, the root extends its own signature. */
  datatype Builder =
    | Root(signature: string, items: seq<Item>)
    | Open(kind: Kind, signature: string, index: nat, items: seq<Item>, outer: Builder)

  predicate Prefix(u: string, s: string) {
    |u| <= |s| && s[..|u|] == u
  }

  /** Checks `sig` against the declared contents and moves past it. */
  function Accept(b: Builder, sig: string): Option<Builder> {
    match b
    case Root(s, items) => Some(Root(s + sig, items))
    case Open(kind, s, index, items, outer) =>
      if index <= |s| && Prefix(sig, s[index..])
      then Some(Open(kind, s, if kind == ArrayKind then index else index + |sig|, items, outer))
      else None
  }

  function Add(b: Builder, item: Item): Builder {
    b.(items := b.items + [item])
  }

  function Append(b: Builder, item: Item): Option<Builder> {
    match Accept(b, ItemSignature(item))
    case Some(b') => Some(Add(b', item))
    case None => None
  }

  function Bracketed(kind: Kind, contents: string): string {
    match kind
    case ArrayKind => "a" + contents
    case EntryKind => "{" + contents + "}"
    case StructKind => "(" + contents + ")"
    case VariantKind => "v"
  }

  /** Whether sd-bus takes `contents` for a container of this kind. */
  predicate ValidContents(kind: Kind, contents: string) {
    match kind
    case ArrayKind => ValidElement(contents)
    case EntryKind => ValidElement("{" + contents + "}")
    case StructKind => (match Parse("(" + contents + ")") case Some((_, rest)) => rest == "" case None => false)
    case VariantKind => (match Parse(contents) case Some((_, rest)) => rest == "" case None => false)
  }

  predicate InArray(b: Builder) {
    b.Open? && b.kind == ArrayKind
  }

  function OpenContainer(b: Builder, kind: Kind, contents: string): Option<Builder> {
    if !ValidContents(kind, contents) || (kind == EntryKind && !InArray(b))
    then None
    else
      match Accept(b, Bracketed(kind, contents))
      case Some(b') => Some(Open(kind, contents, 0, [], b'))
      case None => None
  }

  function CloseContainer(b: Builder): Option<Builder> {
    if b.Root? || (b.kind != ArrayKind && b.index != |b.signature|) then None
    else
      match Pack(b.kind, b.signature, b.items)
      case Some(item) => Some(Add(b.outer, item))
      case None => None
  }

  function Pack(kind: Kind, signature: string, items: seq<Item>): Option<Item> {
    match kind
    case ArrayKind => Some(Array(signature, items))
    case StructKind => Some(Tuple(items))
    case EntryKind => if |items| == 2 then Some(Entry(items[0], items[1])) else None
    case VariantKind => if |items| == 1 then Some(Boxed(items[0])) else None
  }
}
