/** The C++ types that sdbus-c++ can put into a message and their D-Bus signatures
    (include/sdbus-c++/TypeTraits.h).

    `Type` keeps apart the C++ types that share a signature (vector and array, Variant and
    std::variant); `Canon` forgets the difference, and `Parse` reads a signature back. */
module TypeTraits {
  import opened Options

  datatype Basic =
    | Boolean | Byte | Int16 | Uint16 | Int32 | Uint32 | Int64 | Uint64 | Double
    | Str | Path | Sig | Fd

  datatype Type =
    | Basic(basic: Basic)
    | Vec(elem: Type)                 // std::vector
    | Fixed(elem: Type, size: nat)    // std::array, std::span
    | Dict(key: Basic, val: Type)     // std::map, std::unordered_map
    | Struct(fields: seq<Type>)
    | Variant
    | StdVariant(alts: seq<Type>)     // std::variant

  /** What the C++ compiler enforces: neither Struct nor std::variant has an empty list. */
  predicate WfType(t: Type) {
    match t
    case Basic(_) => true
    case Variant => true
    case Vec(e) => WfType(e)
    case Fixed(e, _) => WfType(e)
    case Dict(_, v) => WfType(v)
    case Struct(fs) => fs != [] && forall i | 0 <= i < |fs| :: WfType(fs[i])
    case StdVariant(alts) => alts != [] && forall i | 0 <= i < |alts| :: WfType(alts[i])
  }

  predicate WfTypes(ts: seq<Type>) {
    forall i | 0 <= i < |ts| :: WfType(ts[i])
  }

  function Code(b: Basic): char {
    match b
    case Boolean => 'b' case Byte => 'y' case Int16 => 'n' case Uint16 => 'q'
    case Int32 => 'i' case Uint32 => 'u' case Int64 => 'x' case Uint64 => 't'
    case Double => 'd' case Str => 's' case Path => 'o' case Sig => 'g' case Fd => 'h'
  }

  function BasicOf(c: char): Option<Basic> {
    match c
    case 'b' => Some(Boolean) case 'y' => Some(Byte) case 'n' => Some(Int16)
    case 'q' => Some(Uint16) case 'i' => Some(Int32) case 'u' => Some(Uint32)
    case 'x' => Some(Int64) case 't' => Some(Uint64) case 'd' => Some(Double)
    case 's' => Some(Str) case 'o' => Some(Path) case 'g' => Some(Sig) case 'h' => Some(Fd)
    case _ => None
  }

  /** `is_trivial_dbus_type && !is_same<bool>`: the element types of the one-step array path. */
  predicate OneStep(t: Type) {
    t.Basic? && t.basic !in {Boolean, Str, Path, Sig, Fd}
  }

  /** `signature_of<T>::value`. */
  function Signature(t: Type): string
    decreases t, 0
  {
    match t
    case Basic(b) => [Code(b)]
    case Variant => "v"
    case StdVariant(_) => "v"
    case Vec(e) => "a" + Signature(e)
    case Fixed(e, _) => "a" + Signature(e)
    case Dict(k, v) => "a" + EntrySignature(k, v)
    case Struct(fs) => "(" + Signatures(fs) + ")"
  }

  /** `signature_of<DictEntry<Key, Value>>::value`. */
  function EntrySignature(k: Basic, v: Type): string
    decreases v, 1
  {
    "{" + [Code(k)] + Signature(v) + "}"
  }

  /** `signature_of<std::tuple<...>>::value`: plain concatenation. */
  function Signatures(ts: seq<Type>): string
    decreases ts, 1
  {
    if ts == [] then "" else Signature(ts[0]) + Signatures(ts[1..])
  }

  /** The D-Bus type behind a C++ type. */
  function Canon(t: Type): Type {
    match t
    case Basic(_) => t
    case Variant => t
    case StdVariant(_) => Variant
    case Vec(e) => Vec(Canon(e))
    case Fixed(e, _) => Vec(Canon(e))
    case Dict(k, v) => Dict(k, Canon(v))
    case Struct(fs) => Struct(Canons(fs))
  }

  function Canons(ts: seq<Type>): (r: seq<Type>)
    ensures |r| == |ts|
  {
    if ts == [] then [] else [Canon(ts[0])] + Canons(ts[1..])
  }

  /** The end of a dictionary entry: key and value are read, the closing brace is due. */
  function CloseEntry(key: Option<Basic>, val: Option<(Type, string)>): (r: Option<(Type, string)>)
    ensures r.Some? ==> val.Some? && |r.value.1| < |val.value.1|
  {
    match (key, val)
    case (Some(k), Some((v, rest))) =>
      if rest != "" && rest[0] == '}' then Some((Dict(k, v), rest[1..])) else None
    case _ => None
  }

  /** Reads one complete type off the front of a signature. */
  function Parse(s: string): (r: Option<(Type, string)>)
    ensures r.Some? ==> |r.value.1| < |s|
    decreases |s|, 0
  {
    if s == "" then None
    else if BasicOf(s[0]).Some? then Some((Basic(BasicOf(s[0]).value), s[1..]))
    else if s[0] == 'v' then Some((Variant, s[1..]))
    else if s[0] == 'a' && |s| > 2 && s[1] == '{' then
      CloseEntry(BasicOf(s[2]), Parse(s[3..]))
    else if s[0] == 'a' then
      match Parse(s[1..])
      case Some((e, rest)) => Some((Vec(e), rest))
      case None => None
    else if s[0] == '(' then
      match ParseFields(s[1..])
      case Some((fs, rest)) => if fs != [] then Some((Struct(fs), rest)) else None
      case None => None
    else None
  }

  /** Reads complete types up to the closing parenthesis of a struct, and past it. */
  function ParseFields(s: string): (r: Option<(seq<Type>, string)>)
    ensures r.Some? ==> |r.value.1| < |s|
    decreases |s|, 1
  {
    if s == "" then None
    else if s[0] == ')' then Some(([], s[1..]))
    else
      match Parse(s)
      case None => None
      case Some((t, rest)) =>
        match ParseFields(rest)
        case Some((ts, rest')) => Some(([t] + ts, rest'))
        case None => None
  }

  lemma BasicOfCode(b: Basic)
    ensures BasicOf(Code(b)) == Some(b)
  {
  }

  lemma SignatureFirst(t: Type)
    ensures |Signature(t)| > 0
    ensures Signature(t)[0] !in {')', '}', '{'}
  {
  }

  /** A signature never depends on which of the C++ representations was used. */
  lemma {:induction false} SignatureCanon(t: Type)
    ensures Signature(t) == Signature(Canon(t))
    decreases t, 0
  {
    match t
    case Basic(_) =>
    case Variant =>
    case StdVariant(_) =>
    case Vec(e) => SignatureCanon(e);
    case Fixed(e, _) => SignatureCanon(e);
    case Dict(_, v) => SignatureCanon(v);
    case Struct(fs) => SignaturesCanon(fs);
  }

  lemma {:induction false} SignaturesCanon(ts: seq<Type>)
    ensures Signatures(ts) == Signatures(Canons(ts))
    decreases ts, 1
  {
    if ts != [] {
      SignatureCanon(ts[0]);
      SignaturesCanon(ts[1..]);
      assert Canons(ts)[1..] == Canons(ts[1..]);
    }
  }

  lemma ParseArray(e: string, rest: string)
    requires e != "" && e[0] != '{'
    ensures Parse("a" + e + rest) ==
            match Parse(e + rest) case Some((t, r)) => Some((Vec(t), r)) case None => None
  {
    var s := "a" + e + rest;
    assert s[1..] == e + rest;
  }

  lemma ParseDict(k: Basic, v: string, t: Type, rest: string)
    requires Parse(v + ("}" + rest)) == Some((t, "}" + rest))
    ensures Parse("a{" + [Code(k)] + v + "}" + rest) == Some((Dict(k, t), rest))
  {
    var s := "a{" + [Code(k)] + v + "}" + rest;
    BasicOfCode(k);
    assert s[3..] == v + ("}" + rest);
    assert ("}" + rest)[1..] == rest;
  }

  lemma ParseStruct(contents: string, fs: seq<Type>, rest: string)
    requires fs != [] && ParseFields(contents + ")" + rest) == Some((fs, rest))
    ensures Parse("(" + contents + ")" + rest) == Some((Struct(fs), rest))
  {
    var s := "(" + contents + ")" + rest;
    assert s[1..] == contents + ")" + rest;
  }

  /** Decoding a signature yields the D-Bus type it was made from and leaves what follows it. */
  lemma {:induction false} ParseSignature(t: Type, rest: string)
    requires WfType(t)
    ensures Parse(Signature(t) + rest) == Some((Canon(t), rest))
    decreases t, 0
  {
    match t
    case Basic(b) =>
      BasicOfCode(b);
      assert (Signature(t) + rest)[1..] == rest;
    case Variant => assert (Signature(t) + rest)[1..] == rest;
    case StdVariant(_) => assert (Signature(t) + rest)[1..] == rest;
    case Vec(e) =>
      SignatureFirst(e);
      ParseSignature(e, rest);
      ParseArray(Signature(e), rest);
    case Fixed(e, _) =>
      SignatureFirst(e);
      ParseSignature(e, rest);
      ParseArray(Signature(e), rest);
    case Dict(k, v) =>
      ParseSignature(v, "}" + rest);
      ParseDict(k, Signature(v), Canon(v), rest);
      assert Signature(t) == "a{" + [Code(k)] + Signature(v) + "}";
    case Struct(fs) =>
      ParseFieldsSignatures(fs, rest);
      ParseStruct(Signatures(fs), Canons(fs), rest);
      assert Signature(t) + rest == "(" + Signatures(fs) + ")" + rest;
  }

  lemma {:induction false} ParseFieldsSignatures(ts: seq<Type>, rest: string)
    requires WfTypes(ts)
    ensures ParseFields(Signatures(ts) + ")" + rest) == Some((Canons(ts), rest))
    decreases ts, 1
  {
    var s := Signatures(ts) + ")" + rest;
    if ts == [] {
      assert s[1..] == rest;
    } else {
      var after := Signatures(ts[1..]) + ")" + rest;
      assert s == Signature(ts[0]) + after;
      SignatureFirst(ts[0]);
      ParseSignature(ts[0], after);
      ParseFieldsSignatures(ts[1..], rest);
    }
  }

  /** Conversely, the decoder accepts nothing but a signature of the type it returns. */
  lemma {:induction false} ParseSound(s: string)
    ensures Parse(s).Some? ==>
              var (t, rest) := Parse(s).value;
              WfType(t) && Canon(t) == t && s == Signature(t) + rest
    decreases |s|, 0
  {
    if s == "" || Parse(s).None? {
    } else if BasicOf(s[0]).Some? {
      BasicSound(s);
    } else if s[0] == 'v' {
      assert s == [s[0]] + s[1..];
    } else if s[0] == 'a' && |s| > 2 && s[1] == '{' {
      ParseSound(s[3..]);
      DictSound(s);
    } else if s[0] == 'a' {
      ParseSound(s[1..]);
      assert s == "a" + s[1..];
    } else {
      ParseFieldsSound(s[1..]);
      assert s == "(" + s[1..];
    }
  }

  lemma CodeOfBasic(c: char)
    requires BasicOf(c).Some?
    ensures Code(BasicOf(c).value) == c
  {
  }

  lemma BasicSound(s: string)
    requires s != "" && BasicOf(s[0]).Some?
    ensures s == Signature(Basic(BasicOf(s[0]).value)) + s[1..]
  {
    assert s == [s[0]] + s[1..];
  }

  lemma EntrySound(key: char, val: Option<(Type, string)>, s: string)
    requires CloseEntry(BasicOf(key), val).Some?
    requires s == Signature(val.value.0) + val.value.1
    ensures var (t, rest) := CloseEntry(BasicOf(key), val).value;
            t.Dict? && t.val == val.value.0 && "a{" + [key] + s == Signature(t) + rest
  {
    var (v, rest) := val.value;
    CodeOfBasic(key);
    assert rest == "}" + rest[1..];
  }

  lemma DictSound(s: string)
    requires |s| > 2 && s[0] == 'a' && s[1] == '{' && Parse(s).Some?
    requires Parse(s[3..]).Some? ==>
               var (v, rest) := Parse(s[3..]).value;
               WfType(v) && Canon(v) == v && s[3..] == Signature(v) + rest
    ensures var (t, rest) := Parse(s).value;
            WfType(t) && Canon(t) == t && s == Signature(t) + rest
  {
    EntrySound(s[2], Parse(s[3..]), s[3..]);
    assert s == "a{" + [s[2]] + s[3..];
  }

  lemma {:induction false} ParseFieldsSound(s: string)
    ensures ParseFields(s).Some? ==>
              var (ts, rest) := ParseFields(s).value;
              WfTypes(ts) && Canons(ts) == ts && s == Signatures(ts) + ")" + rest
    decreases |s|, 1
  {
    if s == "" || ParseFields(s).None? {
    } else if s[0] == ')' {
      assert s == ")" + s[1..];
    } else {
      ParseSound(s);
      var (t, rest) := Parse(s).value;
      ParseFieldsSound(rest);
      var (ts, rest') := ParseFields(rest).value;
      assert ParseFields(s) == Some(([t] + ts, rest'));
      hide Parse, ParseFields, Signature, Signatures, WfTypes, Canons;
      FieldsCons(t, ts, s, rest, rest');
    }
  }

  lemma FieldsCons(t: Type, ts: seq<Type>, s: string, rest: string, rest': string)
    requires WfType(t) && Canon(t) == t && s == Signature(t) + rest
    requires WfTypes(ts) && Canons(ts) == ts && rest == Signatures(ts) + ")" + rest'
    ensures WfTypes([t] + ts) && Canons([t] + ts) == [t] + ts && s == Signatures([t] + ts) + ")" + rest'
  {
    assert ([t] + ts)[1..] == ts;
    assert Signatures([t] + ts) == Signature(t) + Signatures(ts);
    hide Signature, Signatures, Canon, WfType;
    assert Signature(t) + (Signatures(ts) + ")" + rest') == Signature(t) + Signatures(ts) + ")" + rest';
  }

  /** Unique decodability: two signatures at the front of the same text belong to the same
      D-Bus type and end at the same place. With both rests empty this is injectivity; with one
      empty it says that no complete type's signature is a proper prefix of another's. */
  lemma UniqueDecoding(t1: Type, r1: string, t2: Type, r2: string)
    requires WfType(t1) && WfType(t2)
    ensures Signature(t1) + r1 == Signature(t2) + r2 <==> Canon(t1) == Canon(t2) && r1 == r2
  {
    ParseSignature(t1, r1);
    ParseSignature(t2, r2);
    SignatureCanon(t1);
    SignatureCanon(t2);
  }

  lemma SameSignature(t1: Type, t2: Type)
    requires WfType(t1) && WfType(t2)
    ensures Signature(t1) == Signature(t2) <==> Canon(t1) == Canon(t2)
  {
    UniqueDecoding(t1, "", t2, "");
    assert Signature(t1) + "" == Signature(t1) && Signature(t2) + "" == Signature(t2);
  }

  /** A list of types is recovered from the concatenation of their signatures. */
  lemma {:induction false} SameSignatures(ts1: seq<Type>, ts2: seq<Type>)
    requires WfTypes(ts1) && WfTypes(ts2)
    ensures Signatures(ts1) == Signatures(ts2) <==> Canons(ts1) == Canons(ts2)
  {
    ParseFieldsSignatures(ts1, "");
    ParseFieldsSignatures(ts2, "");
    SignaturesCanon(ts1);
    SignaturesCanon(ts2);
  }
}
