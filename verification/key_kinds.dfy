/** The static description of a map's key type, and the classification both
    directions of the map codec switch on (feature_reflect_map.go, the
    `switch` in the decode callback and the `if` chain of `encodeMapKey`). */
module KeyKinds {
  import opened Widths

  /** The `reflect.Kind`s the codec distinguishes; every other kind a map key
      can have (bool, float, complex, array, struct, interface, chan) is `Other`. */
  datatype Kind =
    | String
    | Int | Int8 | Int16 | Int32 | Int64
    | Uint | Uint8 | Uint16 | Uint32 | Uint64 | Uintptr
    | Ptr
    | Other

  /** The pointer width of the platform: the width of `int`, `uint` and `uintptr`. */
  datatype WordSize = Word32 | Word64 {
    function Width(): Width {
      match this
      case Word32 => W32
      case Word64 => W64
    }
  }

  /** A key type's metadata: its kind, whether it is a defined (named) type
      other than the predeclared one of its kind, whether it implements
      `encoding.TextUnmarshaler` / `encoding.TextMarshaler`, its printed name,
      and the platform word size it was laid out for. */
  datatype KeyType = KeyType(
    kind: Kind,
    defined: bool,
    textUnmarshaler: bool,
    textMarshaler: bool,
    name: string,
    word: WordSize)

  predicate IsSignedKind(k: Kind) {
    k.Int? || k.Int8? || k.Int16? || k.Int32? || k.Int64?
  }

  predicate IsUnsignedKind(k: Kind) {
    k.Uint? || k.Uint8? || k.Uint16? || k.Uint32? || k.Uint64? || k.Uintptr?
  }

  /** `Type.Size() * 8` for the integer kinds. */
  function KindWidth(k: Kind, word: WordSize): Width
    requires IsSignedKind(k) || IsUnsignedKind(k)
  {
    match k
    case Int8 | Uint8 => W8
    case Int16 | Uint16 => W16
    case Int32 | Uint32 => W32
    case Int64 | Uint64 => W64
    case _ => word.Width()
  }

  /** How the codec treats a key type. */
  datatype KeyClass =
    | Textual
    | TextCapable
    | SignedInt(width: Width)
    | UnsignedInt(width: Width)
    | Unsupported

  /** The rules the codec tries, in the order it tries them. */
  datatype Rule = StringRule | TextRule | SignedRule | UnsignedRule

  const Precedence: seq<Rule> := [StringRule, TextRule, SignedRule, UnsignedRule]

  predicate Applies(rule: Rule, kind: Kind, hasText: bool) {
    match rule
    case StringRule => kind == String
    case TextRule => hasText
    case SignedRule => IsSignedKind(kind)
    case UnsignedRule => IsUnsignedKind(kind)
  }

  function ClassOf(rule: Rule, kind: Kind, word: WordSize): KeyClass
    requires Applies(rule, kind, true)
  {
    match rule
    case StringRule => Textual
    case TextRule => TextCapable
    case SignedRule => SignedInt(KindWidth(kind, word))
    case UnsignedRule => UnsignedInt(KindWidth(kind, word))
  }

  /** The class of the first rule in `rules` that applies, `Unsupported` when none does. */
  function FirstMatch(rules: seq<Rule>, kind: Kind, hasText: bool, word: WordSize): KeyClass {
    if |rules| == 0 then Unsupported
    else if Applies(rules[0], kind, hasText) then ClassOf(rules[0], kind, word)
    else FirstMatch(rules[1..], kind, hasText, word)
  }

  /** The shared `switch`: string kind first, then the text capability, then
      the signed kinds, then the unsigned kinds, else unsupported. */
  function Classify(kind: Kind, hasText: bool, word: WordSize): (c: KeyClass)
    ensures c.Textual? <==> kind == String
    ensures c.TextCapable? <==> kind != String && hasText
    ensures c.SignedInt? <==> kind != String && !hasText && IsSignedKind(kind)
    ensures c.UnsignedInt? <==> kind != String && !hasText && IsUnsignedKind(kind)
    ensures c.SignedInt? || c.UnsignedInt? ==> c.width == KindWidth(kind, word)
  {
    if kind == String then Textual
    else if hasText then TextCapable
    else if IsSignedKind(kind) then SignedInt(KindWidth(kind, word))
    else if IsUnsignedKind(kind) then UnsignedInt(KindWidth(kind, word))
    else Unsupported
  }

  /** The classification is the class of the first rule of `Precedence`
      that applies to the key type. */
  lemma ClassifyIsFirstMatch(kind: Kind, hasText: bool, word: WordSize)
    ensures Classify(kind, hasText, word) == FirstMatch(Precedence, kind, hasText, word)
  {
    assert Precedence[1..] == [TextRule, SignedRule, UnsignedRule];
    assert Precedence[1..][1..] == [SignedRule, UnsignedRule];
    assert Precedence[1..][1..][1..] == [UnsignedRule];
    assert Precedence[1..][1..][1..][1..] == [];
  }

  /** Classification for decoding: the text capability is `TextUnmarshaler`. */
  function DecodeClass(kt: KeyType): KeyClass {
    Classify(kt.kind, kt.textUnmarshaler, kt.word)
  }

  /** Classification for encoding: the text capability is `TextMarshaler`. */
  function EncodeClass(kt: KeyType): KeyClass {
    Classify(kt.kind, kt.textMarshaler, kt.word)
  }

  /** The two directions classify a key type alike exactly when it does not
      implement one text interface without the other, or is a string kind,
      for which the text interfaces are never consulted. */
  lemma DirectionsAgree(kt: KeyType)
    ensures DecodeClass(kt) == EncodeClass(kt)
        <==> kt.kind == String || kt.textUnmarshaler == kt.textMarshaler
  {
  }
}
