/** The code generator's translation of D-Bus signatures into C++ type names
    (tools/xml2cpp-codegen/generator_utils.cpp). */
module SignatureCompiler {
  import opened Options
  import opened TypeTraits

  /** `atomic_type_to_string`; None is the null pointer. */
  function Atom(c: char): Option<string> {
    match c
    case 'y' => Some("uint8_t") case 'b' => Some("bool") case 'n' => Some("int16_t")
    case 'q' => Some("uint16_t") case 'i' => Some("int32_t") case 'u' => Some("uint32_t")
    case 'x' => Some("int64_t") case 't' => Some("uint64_t") case 'd' => Some("double")
    case 's' => Some("std::string") case 'o' => Some("sdbus::ObjectPath")
    case 'g' => Some("sdbus::Signature") case 'v' => Some("sdbus::Variant")
    case 'h' => Some("sdbus::UnixFd") case '\0' => Some("")
    case _ => None
  }

  /** `std::string::operator[]`: reading at the length gives the terminator. */
  function CharAt(s: string, i: nat): char
    requires i <= |s|
  {
    if i < |s| then s[i] else '\0'
  }

  predicate Closer(c: char) {
    c == ')' || c == '}'
  }

  function Separator(s: string, i: nat): string {
    if i + 1 < |s| && !Closer(s[i + 1]) then ", " else ""
  }

  /** The text that `_parse_signature` appends when started at `i`, and the index it stops at;
      None when it ends the process. */
  function Translate(s: string, i: nat, once: bool): (r: Option<(string, nat)>)
    ensures r.Some? ==> i <= r.value.1
    decreases if i < |s| then |s| - i else 0, 1
  {
    if i >= |s| || Closer(s[i]) then Some(("", i))
    else
      match TranslateOne(s, i)
      case None => None
      case Some((text, j)) =>
        if once then Some((text, j))
        else Prepend(text + Separator(s, j), Translate(s, j + 1, false))
  }

  /** One pass through the switch: one type, and the index of its last character. */
  function TranslateOne(s: string, i: nat): (r: Option<(string, nat)>)
    requires i < |s|
    ensures r.Some? ==> i <= r.value.1
    decreases |s| - i, 0
  {
    if s[i] == 'a' then
      var c := CharAt(s, i + 1);
      if c == '{' then Wrap("std::map<", Translate(s, i + 2, false), ">")
      else if c == '(' then Wrap("std::vector<sdbus::Struct<", Translate(s, i + 2, false), ">>")
      else if c == '\0' then None
      else Wrap("std::vector<", Translate(s, i + 1, true), ">")
    else if s[i] == '(' then Wrap("sdbus::Struct<", Translate(s, i + 1, false), ">")
    else
      match Atom(s[i])
      case Some(a) => Some((a, i))
      case None => None
  }

  function Prepend(text: string, r: Option<(string, nat)>): (q: Option<(string, nat)>)
    ensures q.Some? <==> r.Some?
    ensures q.Some? ==> q.value == (text + r.value.0, r.value.1)
  {
    match r
    case None => None
    case Some((more, i)) => Some((text + more, i))
  }

  function Wrap(before: string, r: Option<(string, nat)>, after: string): (q: Option<(string, nat)>)
    ensures q.Some? <==> r.Some?
    ensures q.Some? ==> q.value == (before + r.value.0 + after, r.value.1)
  {
    match r
    case None => None
    case Some((text, i)) => Some((before + text + after, i))
  }

  /** `_parse_signature`. The reference parameters `type` and `i` come back as results;
      `exited` stands for the call of `exit(-1)`. */
  method ParseSignature(signature: string, type0: string, i0: nat, onlyOnce: bool)
    returns (exited: bool, type': string, i: nat)
    ensures exited <==> Translate(signature, i0, onlyOnce).None?
    ensures !exited ==> (type', i) == Prepend(type0, Translate(signature, i0, onlyOnce)).value
    decreases if i0 < |signature| then |signature| - i0 else 0, 1
  {
    hide TranslateOne, Separator;
    exited, type', i := false, type0, i0;
    while i < |signature|
      invariant !exited && i0 <= i && (onlyOnce ==> i == i0)
      invariant Prepend(type0, Translate(signature, i0, onlyOnce)) ==
                Prepend(type', Translate(signature, i, onlyOnce))
    {
      if Closer(signature[i]) {
        assert type' + "" == type';
        return;
      }
      ghost var before, first := type', i;
      exited, type', i := ParseOne(signature, type', i);
      if exited || onlyOnce {
        return;
      }
      type' := type' + Separator(signature, i);
      i := i + 1;
      assert type' == before + (TranslateOne(signature, first).value.0 + Separator(signature, i - 1));
      assert Prepend(before, Translate(signature, first, onlyOnce)) ==
             Prepend(type', Translate(signature, i, onlyOnce)) by {
        PrependTwice(before, TranslateOne(signature, first).value.0 + Separator(signature, i - 1),
                     Translate(signature, i, false));
      }
    }
    assert type' + "" == type';
  }

  lemma PrependTwice(a: string, b: string, r: Option<(string, nat)>)
    ensures Prepend(a, Prepend(b, r)) == Prepend(a + b, r)
  {
    if r.Some? {
      assert a + (b + r.value.0) == a + b + r.value.0;
    }
  }

  lemma WrapTwice(a: string, before: string, r: Option<(string, nat)>, after: string)
    ensures Prepend(a, Wrap(before, r, after)) == Wrap(a + before, r, after)
  {
    if r.Some? {
      assert a + (before + r.value.0 + after) == a + before + r.value.0 + after;
    }
  }

  /** The switch in the loop of `_parse_signature`, on a character that is not a closer. */
  method ParseOne(signature: string, type0: string, i0: nat)
    returns (exited: bool, type': string, i: nat)
    requires i0 < |signature| && !Closer(signature[i0])
    ensures exited <==> TranslateOne(signature, i0).None?
    ensures !exited ==> (type', i) == Prepend(type0, TranslateOne(signature, i0)).value
    decreases |signature| - i0, 0
  {
    exited, type', i := false, type0, i0;
    if signature[i] == 'a' {
      i := i + 1;
      var c := CharAt(signature, i);
      if c == '{' {
        exited, type', i := ParseSignature(signature, type' + "std::map<", i + 1, false);
        WrapTwice(type0, "std::map<", Translate(signature, i0 + 2, false), ">");
        type' := type' + ">";
      } else if c == '(' {
        exited, type', i := ParseSignature(signature, type' + "std::vector<sdbus::Struct<", i + 1, false);
        WrapTwice(type0, "std::vector<sdbus::Struct<", Translate(signature, i0 + 2, false), ">>");
        type' := type' + ">>";
      } else if c == '\0' {
        exited := true;
      } else {
        exited, type', i := ParseSignature(signature, type' + "std::vector<", i, true);
        WrapTwice(type0, "std::vector<", Translate(signature, i0 + 1, true), ">");
        type' := type' + ">";
      }
    } else if signature[i] == '(' {
      exited, type', i := ParseSignature(signature, type' + "sdbus::Struct<", i + 1, false);
      WrapTwice(type0, "sdbus::Struct<", Translate(signature, i0 + 1, false), ">");
      type' := type' + ">";
    } else {
      var atom := Atom(signature[i]);
      exited := atom.None?;
      type' := type' + if exited then "" else atom.value;
    }
  }

  // ---------------------------------------------------------------------------------------
  // The C++ names the generator is meant to produce

  /** The C++ type for each basic D-Bus type. */
  function BasicName(b: Basic): string {
    match b
    case Boolean => "bool" case Byte => "uint8_t" case Int16 => "int16_t" case Uint16 => "uint16_t"
    case Int32 => "int32_t" case Uint32 => "uint32_t" case Int64 => "int64_t" case Uint64 => "uint64_t"
    case Double => "double" case Str => "std::string" case Path => "sdbus::ObjectPath"
    case Sig => "sdbus::Signature" case Fd => "sdbus::UnixFd"
  }

  /** The table of the generator has the C++ type of every basic type at the code of that type. */
  lemma AtomIsName(b: Basic)
    ensures Atom(Code(b)) == Some(BasicName(b))
  {
  }

  function CppName(t: Type): string
    decreases t, 0
  {
    match t
    case Basic(b) => BasicName(b)
    case Variant => "sdbus::Variant"
    case StdVariant(_) => "sdbus::Variant"
    case Vec(e) => "std::vector<" + CppName(e) + ">"
    case Fixed(e, _) => "std::vector<" + CppName(e) + ">"
    case Dict(k, v) => "std::map<" + BasicName(k) + ", " + CppName(v) + ">"
    case Struct(fs) => "sdbus::Struct<" + CppNames(fs) + ">"
  }

  function CppNames(ts: seq<Type>): string
    decreases ts, 1
  {
    if ts == [] then ""
    else CppName(ts[0]) + (if |ts| > 1 then ", " else "") + CppNames(ts[1..])
  }

  // ---------------------------------------------------------------------------------------
  // The translator undoes signature_of

  /** `w` stands in `s` at position `i`. */
  predicate At(s: string, i: nat, w: string) {
    i + |w| <= |s| && s[i..i + |w|] == w
  }

  /** What may follow a list of types: nothing, or the bracket that closes it. */
  predicate EndsAt(s: string, i: nat) {
    i == |s| || (i < |s| && Closer(s[i]))
  }

  lemma AtSplit(s: string, i: nat, u: string, w: string)
    requires At(s, i, u + w)
    ensures At(s, i, u) && At(s, i + |u|, w)
  {
    assert s[i..i + |u|] == (u + w)[..|u|];
    assert s[i + |u|..i + |u| + |w|] == (u + w)[|u|..];
  }

  lemma AtFirst(s: string, i: nat, w: string)
    requires At(s, i, w) && w != ""
    ensures i < |s| && s[i] == w[0]
  {
    assert s[i] == s[i..i + |w|][0];
  }

  lemma AtBrackets(s: string, i: nat, open: char, mid: string, close: char)
    requires At(s, i, [open] + mid + [close])
    ensures i + 1 + |mid| < |s| && s[i] == open && s[i + 1 + |mid|] == close && At(s, i + 1, mid)
  {
    AtSplit(s, i, [open] + mid, [close]);
    AtSplit(s, i, [open], mid);
    AtFirst(s, i, [open]);
    AtFirst(s, i + 1 + |mid|, [close]);
  }

  lemma SignatureShape(t: Type)
    requires WfType(t)
    ensures Signature(t) != "" && !Closer(Signature(t)[0]) && Signature(t)[0] !in {'{', '\0'}
    ensures Signature(t)[0] == '(' <==> t.Struct?
  {
  }

  lemma AtomStep(s: string, i: nat)
    requires i < |s| && s[i] != 'a' && s[i] != '(' && Atom(s[i]).Some?
    ensures TranslateOne(s, i) == Some((Atom(s[i]).value, i))
  {
  }

  lemma EndStep(s: string, i: nat, once: bool)
    requires EndsAt(s, i)
    ensures Translate(s, i, once) == Some(("", i))
  {
  }

  lemma StructStep(s: string, i: nat)
    requires i < |s| && s[i] == '('
    ensures TranslateOne(s, i) == Wrap("sdbus::Struct<", Translate(s, i + 1, false), ">")
  {
  }

  lemma ArrayStep(s: string, i: nat)
    requires i + 1 < |s| && s[i] == 'a' && s[i + 1] != '\0'
    ensures TranslateOne(s, i) ==
            if s[i + 1] == '{' then Wrap("std::map<", Translate(s, i + 2, false), ">")
            else if s[i + 1] == '(' then Wrap("std::vector<sdbus::Struct<", Translate(s, i + 2, false), ">>")
            else Wrap("std::vector<", Translate(s, i + 1, true), ">")
  {
  }

  lemma ListStep(s: string, i: nat)
    requires i < |s| && !Closer(s[i]) && TranslateOne(s, i).Some?
    ensures var (name, j) := TranslateOne(s, i).value;
            && Translate(s, i, true) == Some((name, j))
            && Translate(s, i, false) == Prepend(name + Separator(s, j), Translate(s, j + 1, false))
  {
  }

  /** Wherever a signature stands in a text, the switch emits the C++ name of its type and stops
      on its last character. */
  lemma {:induction false} OneIsName(s: string, i: nat, t: Type)
    requires WfType(t) && At(s, i, Signature(t))
    ensures i < |s| && !Closer(s[i])
    ensures TranslateOne(s, i) == Some((CppName(t), i + |Signature(t)| - 1))
    decreases t, 0
  {
    hide Translate, TranslateOne, At;
    SignatureShape(t);
    AtFirst(s, i, Signature(t));
    match t
    case Basic(b) =>
      AtomIsName(b);
      AtomStep(s, i);
    case Variant => AtomStep(s, i);
    case StdVariant(_) => AtomStep(s, i);
    case Vec(e) => ArrayIsName(s, i, e);
    case Fixed(e, _) => ArrayIsName(s, i, e);
    case Dict(k, v) => DictIsName(s, i, k, v);
    case Struct(fs) =>
      AtBrackets(s, i, '(', Signatures(fs), ')');
      ListIsNames(s, i + 1, fs);
      StructStep(s, i);
  }

  /** The array cases, including the one where the element is a struct. */
  lemma {:induction false} ArrayIsName(s: string, i: nat, e: Type)
    requires WfType(e) && At(s, i, "a" + Signature(e))
    ensures TranslateOne(s, i) == Some(("std::vector<" + CppName(e) + ">", i + |Signature(e)|))
    decreases e, 2
  {
    SignatureShape(e);
    hide Translate, TranslateOne, At, Signature;
    AtSplit(s, i, "a", Signature(e));
    AtFirst(s, i, "a");
    AtFirst(s, i + 1, Signature(e));
    ArrayStep(s, i);
    if e.Struct? {
      StructArrayIsName(s, i, e.fields);
    } else {
      OneIsName(s, i + 1, e);
      ListStep(s, i + 1);
    }
  }

  lemma {:induction false} StructArrayIsName(s: string, i: nat, fs: seq<Type>)
    requires WfTypes(fs) && i + 1 < |s| && s[i] == 'a' && At(s, i + 1, Signature(Struct(fs)))
    ensures TranslateOne(s, i) ==
            Some(("std::vector<" + CppName(Struct(fs)) + ">", i + |Signature(Struct(fs))|))
    decreases fs, 2
  {
    hide Translate, TranslateOne, At;
    AtBrackets(s, i + 1, '(', Signatures(fs), ')');
    hide Signatures;
    ListIsNames(s, i + 2, fs);
    ArrayStep(s, i);
    NestedName(CppNames(fs));
  }

  lemma NestedName(names: string)
    ensures "std::vector<" + ("sdbus::Struct<" + names + ">") + ">" ==
            "std::vector<sdbus::Struct<" + names + ">>"
  {
  }

  lemma EntryNames(key: string, val: string)
    ensures "std::map<" + (key + ", " + (val + "" + "")) + ">" == "std::map<" + key + ", " + val + ">"
  {
  }

  lemma {:induction false} DictIsName(s: string, i: nat, k: Basic, v: Type)
    requires WfType(v) && At(s, i, "a" + EntrySignature(k, v))
    ensures TranslateOne(s, i) == Some((CppName(Dict(k, v)), i + |Signature(v)| + 3))
    decreases v, 2
  {
    hide Translate, TranslateOne, At, Signature;
    assert EntrySignature(k, v) == ['{'] + ([Code(k)] + Signature(v)) + ['}'];
    assert CppName(Dict(k, v)) == "std::map<" + BasicName(k) + ", " + CppName(v) + ">";
    hide CppName, WfType, EntrySignature, Code, Atom, Prepend, Wrap;
    AtSplit(s, i, "a", EntrySignature(k, v));
    AtFirst(s, i, "a");
    AtBrackets(s, i + 1, '{', [Code(k)] + Signature(v), '}');
    AtSplit(s, i + 2, [Code(k)], Signature(v));
    AtFirst(s, i + 2, [Code(k)]);
    ArrayStep(s, i);
    OneIsName(s, i + 3, v);
    KeyIsName(s, i + 2, k);
    ListStep(s, i + 3);
    EndStep(s, i + 3 + |Signature(v)|, false);
    EntryNames(BasicName(k), CppName(v));
  }

  lemma KeyIsName(s: string, i: nat, k: Basic)
    requires i + 1 < |s| && s[i] == Code(k) && !Closer(s[i + 1])
    ensures Translate(s, i, false) == Prepend(BasicName(k) + ", ", Translate(s, i + 1, false))
  {
    AtomIsName(k);
    AtomStep(s, i);
    ListStep(s, i);
  }

  lemma SignaturesGoOn(ts: seq<Type>)
    requires WfTypes(ts) && ts != []
    ensures WfType(ts[0]) && WfTypes(ts[1..])
    ensures Signatures(ts) == Signature(ts[0]) + Signatures(ts[1..])
  {
    hide WfType, Signature;
  }

  /** A list of types up to its end: the comma-joined names. */
  lemma {:induction false} ListIsNames(s: string, i: nat, ts: seq<Type>)
    requires WfTypes(ts) && At(s, i, Signatures(ts)) && EndsAt(s, i + |Signatures(ts)|)
    ensures Translate(s, i, false) == Some((CppNames(ts), i + |Signatures(ts)|))
    decreases ts, 1
  {
    hide Translate, TranslateOne, At;
    if ts == [] {
      EndStep(s, i, false);
      return;
    }
    SignaturesGoOn(ts);
    hide WfType, WfTypes, Signature, Signatures, CppName, CppNames, Separator, EndsAt;
    AtSplit(s, i, Signature(ts[0]), Signatures(ts[1..]));
    OneIsName(s, i, ts[0]);
    ListIsNames(s, i + |Signature(ts[0])|, ts[1..]);
    ListGoesOn(s, i, ts);
  }

  lemma ListGoesOn(s: string, i: nat, ts: seq<Type>)
    requires WfTypes(ts) && ts != [] && At(s, i, Signatures(ts)) && EndsAt(s, i + |Signatures(ts)|)
    requires i < |s| && !Closer(s[i])
    requires |Signature(ts[0])| > 0 && At(s, i + |Signature(ts[0])|, Signatures(ts[1..]))
    requires |Signatures(ts)| == |Signature(ts[0])| + |Signatures(ts[1..])|
    requires TranslateOne(s, i) == Some((CppName(ts[0]), i + |Signature(ts[0])| - 1))
    requires Translate(s, i + |Signature(ts[0])|, false) == Some((CppNames(ts[1..]), i + |Signatures(ts)|))
    ensures Translate(s, i, false) == Some((CppNames(ts), i + |Signatures(ts)|))
  {
    hide Translate, TranslateOne, At, EndsAt, Signature, Signatures, WfType, CppName, Separator;
    ListStep(s, i);
    SeparatorBefore(s, i + |Signature(ts[0])| - 1, ts[1..]);
    NamesGoOn(ts);
    hide CppNames, WfTypes;
  }

  lemma NamesGoOn(ts: seq<Type>)
    requires ts != []
    ensures CppNames(ts) == CppName(ts[0]) + (if ts[1..] == [] then "" else ", ") + CppNames(ts[1..])
  {
    hide CppName;
  }

  lemma SeparatorBefore(s: string, i: nat, ts: seq<Type>)
    requires WfTypes(ts) && At(s, i + 1, Signatures(ts)) && EndsAt(s, i + 1 + |Signatures(ts)|)
    ensures Separator(s, i) == if ts == [] then "" else ", "
  {
    hide At;
    if ts != [] {
      SignatureShape(ts[0]);
      AtFirst(s, i + 1, Signatures(ts));
    }
  }

  /** For every list of D-Bus types, translating the concatenated signatures succeeds and gives
      the comma-joined C++ names. */
  lemma SignaturesTranslate(ts: seq<Type>)
    requires WfTypes(ts)
    ensures Translate(Signatures(ts), 0, false) == Some((CppNames(ts), |Signatures(ts)|))
  {
    ListIsNames(Signatures(ts), 0, ts);
  }

  /** `signature_to_type`: the comma-joined C++ names for the signatures of any list of types. */
  method SignatureToType(signature: string) returns (exited: bool, type': string)
    ensures exited <==> Translate(signature, 0, false).None?
    ensures !exited ==> type' == Translate(signature, 0, false).value.0
    ensures forall ts | WfTypes(ts) && Signatures(ts) == signature :: !exited && type' == CppNames(ts)
  {
    var i;
    exited, type', i := ParseSignature(signature, "", 0, false);
    hide WfTypes, Signatures, Translate, CppNames;
    forall ts | WfTypes(ts) && Signatures(ts) == signature ensures !exited && type' == CppNames(ts) {
      SignaturesTranslate(ts);
    }
  }

  // ---------------------------------------------------------------------------------------
  // Arbitrary strings

  /** The running index never exceeds twice the length, whatever the string, so that the 32-bit
      index of the source cannot wrap for texts under 2^31 characters. */
  lemma {:induction false} IndexBound(s: string, i: nat, once: bool)
    requires i <= |s|
    ensures Translate(s, i, once).Some? ==> Translate(s, i, once).value.1 <= 2 * |s| - i
    decreases |s| - i, 1
  {
    if i < |s| && !Closer(s[i]) && TranslateOne(s, i).Some? {
      OneIndexBound(s, i);
      var j := TranslateOne(s, i).value.1;
      if !once && j + 1 <= |s| {
        IndexBound(s, j + 1, false);
      }
    }
  }

  lemma {:induction false} OneIndexBound(s: string, i: nat)
    requires i < |s|
    ensures TranslateOne(s, i).Some? ==> TranslateOne(s, i).value.1 <= 2 * |s| - i - 1
    decreases |s| - i, 0
  {
    if s[i] == '(' {
      IndexBound(s, i + 1, false);
    } else if s[i] == 'a' && i + 1 < |s| {
      IndexBound(s, i + 1, true);
      if s[i + 1] in {'{', '('} {
        IndexBound(s, i + 2, false);
      }
    }
  }

  /** The texts the generator accepts, as one scan from left to right that keeps nothing but the
      number of open brackets: where it stops and with how many brackets open, or None where it
      ends the process. Brackets need not match in kind, hold anything or be closed; an array takes
      a closing bracket for its element; NUL is an atom. */
  function Scan(s: string, i: nat, depth: nat): (r: Option<(nat, nat)>)
    requires i <= |s|
    ensures r.Some? ==> i <= r.value.0 <= |s|
    decreases |s| - i
  {
    if i == |s| then Some((i, depth))
    else if Closer(s[i]) then (if depth == 0 then Some((i, 0)) else Scan(s, i + 1, depth - 1))
    else if s[i] == 'a' then
      if i + 1 == |s| || s[i + 1] == '\0' then None
      else if s[i + 1] == '{' || s[i + 1] == '(' then Scan(s, i + 2, depth + 1)
      else if Closer(s[i + 1]) then Scan(s, i + 2, depth)
      else Scan(s, i + 1, depth)
    else if s[i] == '(' then Scan(s, i + 1, depth + 1)
    else if Atom(s[i]).Some? then Scan(s, i + 1, depth)
    else None
  }

  /** The scan against the index at which a list of types stops: at the closing bracket the scan
      goes on from there; otherwise the text was used up. */
  predicate Agrees(s: string, i: nat, depth: nat, r: Option<(string, nat)>, past: bool)
    requires i <= |s|
  {
    match r
    case None => Scan(s, i, depth).None?
    case Some((_, j)) =>
      if j < |s| then Scan(s, i, depth) == Scan(s, if past then j + 1 else j, depth)
      else Scan(s, i, depth).Some? && Scan(s, i, depth).value.0 == |s|
  }

  lemma {:induction false} ListScans(s: string, i: nat, depth: nat)
    requires i <= |s|
    ensures var r := Translate(s, i, false);
            Agrees(s, i, depth, r, false) && (r.Some? && r.value.1 < |s| ==> Closer(s[r.value.1]))
    decreases |s| - i, 1
  {
    if i < |s| && !Closer(s[i]) {
      OneScans(s, i, depth);
      var r := TranslateOne(s, i);
      if r.Some? && r.value.1 < |s| {
        ListScans(s, r.value.1 + 1, depth);
      } else if r.Some? {
        PastTheEnd(s, r.value.1 + 1, false);
      }
    }
  }

  lemma PastTheEnd(s: string, i: nat, once: bool)
    requires i >= |s|
    ensures Translate(s, i, once) == Some(("", i))
  {
  }

  /** A bracket that is opened before `k`, up to where the list inside it stops. */
  lemma {:induction false} BracketScans(s: string, i: nat, k: nat, depth: nat)
    requires i < k <= |s| && Scan(s, i, depth) == Scan(s, k, depth + 1)
    ensures Agrees(s, i, depth, Translate(s, k, false), true)
    decreases |s| - k, 2
  {
    hide Translate;
    ListScans(s, k, depth + 1);
  }

  lemma {:induction false} OneScans(s: string, i: nat, depth: nat)
    requires i < |s| && !Closer(s[i])
    ensures Agrees(s, i, depth, TranslateOne(s, i), true)
    decreases |s| - i, 0
  {
    hide Atom, Wrap, Prepend, Translate;
    if s[i] == '(' {
      BracketScans(s, i, i + 1, depth);
    } else if s[i] == 'a' && i + 1 < |s| && s[i + 1] != '\0' {
      if s[i + 1] == '{' || s[i + 1] == '(' {
        BracketScans(s, i, i + 2, depth);
      } else if !Closer(s[i + 1]) {
        OneScans(s, i + 1, depth);
        OnceStep(s, i + 1);
      } else {
        EndStep(s, i + 1, true);
      }
    }
  }

  lemma OnceStep(s: string, i: nat)
    requires i < |s| && !Closer(s[i])
    ensures Translate(s, i, true) == TranslateOne(s, i)
  {
    hide TranslateOne;
  }

  /** For every string whatever: the generator accepts it if and only if the scan does. */
  lemma AcceptsWhatScans(s: string)
    ensures Translate(s, 0, false).Some? <==> Scan(s, 0, 0).Some?
  {
    ListScans(s, 0, 0);
  }

  /** The text is a concatenation of signatures, of no other type and nothing else. */
  ghost predicate IsSignatures(s: string) {
    exists ts: seq<Type> :: WfTypes(ts) && Signatures(ts) == s
  }

  /** That can be decided: the decoder of `TypeTraits` reads the text as the fields of a struct. */
  lemma SignaturesDecided(s: string)
    ensures IsSignatures(s) <==> ParseFields(s + ")").Some? && ParseFields(s + ")").value.1 == ""
  {
    if ts: seq<Type> :| WfTypes(ts) && Signatures(ts) == s {
      ParseFieldsSignatures(ts, "");
      assert s + ")" + "" == s + ")";
    }
    ParseFieldsSound(s + ")");
    var r := ParseFields(s + ")");
    if r.Some? && r.value.1 == "" {
      var w := Signatures(r.value.0);
      assert s + ")" == w + ")" + "";
      assert w == (w + ")")[..|w|] == (s + ")")[..|s|] == s;
    }
  }

  /** The scan takes a type in its stride. */
  lemma {:induction false} ScanPasses(s: string, i: nat, depth: nat, ts: seq<Type>)
    requires WfTypes(ts) && At(s, i, Signatures(ts))
    ensures Scan(s, i, depth) == Scan(s, i + |Signatures(ts)|, depth)
    decreases |ts|
  {
    hide Translate, TranslateOne, Scan, WfType, WfTypes, Signature, CppName, At;
    if ts != [] {
      SignaturesGoOn(ts);
      hide Signatures;
      AtSplit(s, i, Signature(ts[0]), Signatures(ts[1..]));
      OnePasses(s, i, depth, ts[0]);
      ScanPasses(s, i + |Signature(ts[0])|, depth, ts[1..]);
    }
  }

  lemma OnePasses(s: string, i: nat, depth: nat, t: Type)
    requires WfType(t) && At(s, i, Signature(t))
    ensures i + |Signature(t)| <= |s| && Scan(s, i, depth) == Scan(s, i + |Signature(t)|, depth)
  {
    hide Translate, TranslateOne, Scan, WfType, CppName;
    SignatureShape(t);
    hide Signature;
    OneIsName(s, i, t);
    OneScans(s, i, depth);
  }

  lemma ScanEnds(s: string)
    ensures Scan(s, |s|, 0) == Some((|s|, 0))
  {
  }

  /** Signatures are scanned to their end with every bracket closed. So the generator goes wrong
      without notice on every text it accepts and stops early in, at a bracket that closes nothing,
      and on every one it accepts with brackets left open. */
  lemma SignaturesScanToTheEnd(s: string)
    ensures IsSignatures(s) ==> Scan(s, 0, 0) == Some((|s|, 0))
  {
    hide Signatures, Scan;
    if ts: seq<Type> :| WfTypes(ts) && Signatures(ts) == s {
      ScanPasses(s, 0, 0, ts);
      assert Scan(s, |s|, 0) == Some((|s|, 0)) by { ScanEnds(s); }
    }
  }

  /** The texts that are accepted although they are no signatures, all of them: those the scan takes
      and the decoder does not. */
  lemma AcceptsTooMuch(s: string)
    ensures Translate(s, 0, false).Some? && !IsSignatures(s) <==>
            Scan(s, 0, 0).Some? && (ParseFields(s + ")").None? || ParseFields(s + ")").value.1 != "")
    ensures IsSignatures(s) ==> Translate(s, 0, false).Some?
  {
    AcceptsWhatScans(s);
    SignaturesDecided(s);
    SignaturesScanToTheEnd(s);
  }

  lemma {:induction false} ScanGoesOn(s: string, rest: string, i: nat, depth: nat)
    requires i <= |s| && Scan(s, i, depth).Some? && Scan(s, i, depth).value.0 == |s|
    ensures Scan(s + rest, i, depth) == Scan(s + rest, |s|, Scan(s, i, depth).value.1)
    decreases |s| - i
  {
    if i < |s| {
      assert (s + rest)[i] == s[i] && (i + 1 < |s| ==> (s + rest)[i + 1] == s[i + 1]);
      if Closer(s[i]) {
        if depth > 0 { ScanGoesOn(s, rest, i + 1, depth - 1); }
      } else if s[i] == 'a' && (s[i + 1] == '{' || s[i + 1] == '(') {
        ScanGoesOn(s, rest, i + 2, depth + 1);
      } else if s[i] == 'a' && Closer(s[i + 1]) {
        ScanGoesOn(s, rest, i + 2, depth);
      } else {
        ScanGoesOn(s, rest, i + 1, if s[i] == '(' then depth + 1 else depth);
      }
    }
  }

  /** After any accepted text, in particular after signatures: a bracket that closes nothing ends the
      translation, whatever follows, and one that is opened need not be closed. */
  lemma StopsEarlyOrLeavesOpen(s: string, c: char, rest: string)
    requires Closer(c) && Scan(s, 0, 0) == Some((|s|, 0))
    ensures Translate(s + ([c] + rest), 0, false).Some? && !IsSignatures(s + ([c] + rest))
    ensures Translate(s + "(", 0, false).Some? && !IsSignatures(s + "(")
  {
    var early, open := s + ([c] + rest), s + "(";
    ScanGoesOn(s, [c] + rest, 0, 0);
    ScanGoesOn(s, "(", 0, 0);
    assert early[|s|] == c && open[|s|] == '(';
    assert Scan(open, |s| + 1, 1) == Some((|open|, 1));
    hide Scan, Translate;
    AcceptsWhatScans(early);
    AcceptsWhatScans(open);
    SignaturesScanToTheEnd(early);
    SignaturesScanToTheEnd(open);
  }

  /** Balanced brackets are no better: an empty struct, */
  lemma EmptyStructPasses()
    ensures Translate("()", 0, false).Some? && !IsSignatures("()")
  {
    AcceptsWhatScans("()");
    SignaturesDecided("()");
    assert Scan("()", 2, 0).Some? && Scan("()", 1, 1).Some?;
    var t := "()" + ")";
    assert t[1..] == "))" && ParseFields("))").value.0 == [];
    assert Parse(t).None?;
  }

  /** an empty dictionary entry */
  lemma EmptyEntryPasses()
    ensures Translate("a{}", 0, false).Some? && !IsSignatures("a{}")
  {
    AcceptsWhatScans("a{}");
    SignaturesDecided("a{}");
    assert Scan("a{}", 3, 0).Some? && Scan("a{}", 2, 1).Some?;
    var t := "a{}" + ")";
    assert t[3..] == ")" && BasicOf('}').None?;
    assert Parse(t).None?;
  }

  /** and brackets of two kinds pass. */
  lemma MixedBracketsPass()
    ensures Translate("(i}", 0, false).Some? && !IsSignatures("(i}")
  {
    MixedNotDecoded();
    MixedScanned();
    hide Scan, Translate, Parse, ParseFields;
    AcceptsWhatScans("(i}");
    SignaturesDecided("(i}");
  }

  lemma MixedScanned()
    ensures Scan("(i}", 0, 0).Some?
  {
    assert Scan("(i}", 3, 0).Some? && Scan("(i}", 2, 1).Some? && Scan("(i}", 1, 1).Some?;
  }

  lemma MixedNotDecoded()
    ensures ParseFields("(i}" + ")").None?
  {
    var t := "(i}" + ")";
    assert t[1..] == "i})" && t[1..][1..] == "})";
    assert ParseFields("})").None?;
    assert Parse("i})") == Some((Basic(Int32), "})"));
    assert ParseFields("i})").None?;
    assert Parse(t).None?;
  }

  /** The generator is not a validator: at a bracket that closes nothing it stops and reports success
      with no name, whatever follows; and after an `a` it takes the bracket for an element type
      without a name. No signature looks like that. */
  lemma StopsAtUnmatchedCloser(c: char, rest: string)
    requires Closer(c)
    ensures Translate([c] + rest, 0, false) == Some(("", 0)) && !IsSignatures([c] + rest)
    ensures Translate("a" + [c], 0, false) == Some(("std::vector<>", 2)) && !IsSignatures("a" + [c])
    ensures Parse([c] + rest).None? && Parse("a" + [c]).None?
  {
    NoneStartsWithCloser(c, rest);
    ArrayOfCloser(c);
    var s := "a" + [c];
    EndStep(s, 1, true);
    ArrayStep(s, 0);
    ListStep(s, 0);
    EndStep(s, 2, false);
    assert "std::vector<" + "" + ">" + "" == "std::vector<>";
    assert "std::vector<>" + "" == "std::vector<>";
  }

  lemma NoneStartsWithCloser(c: char, rest: string)
    requires Closer(c)
    ensures Parse([c] + rest).None? && !IsSignatures([c] + rest)
  {
    var t := [c] + rest + ")";
    SignaturesDecided([c] + rest);
    assert t[0] == c && t[1..] == rest + ")";
  }

  lemma ArrayOfCloser(c: char)
    requires Closer(c)
    ensures Parse("a" + [c]).None? && !IsSignatures("a" + [c])
  {
    var s, t := "a" + [c], "a" + [c] + ")";
    SignaturesDecided(s);
    assert s[1..] == [c] && t[1..] == [c] + ")";
    assert t[0] == 'a' && t[1] == c && Parse(t).None?;
  }
}
