/** `mapEncoder.encode`, `encodeMapKey` and `mapEncoder.isEmpty`
    (feature_reflect_map.go:78-137): writing a Go map as a JSON object. The
    stream is abstracted as the sequence of write requests it receives, and
    its error field as an optional error that each failing key overwrites.
    The element encoder (`elemEncoder.encodeInterface`) and `MarshalText`
    are parameters; an element's encoding is the single token `Value`. */
module MapEncoder {
  import opened Wrappers
  import opened Decimal
  import opened KeyKinds
  import opened MapModel

  /** One write request: `WriteObjectStart`, `WriteMore` (the comma),
      `writeByte(':')`, `WriteObjectEnd`, `WriteString` (an escaped JSON
      string), `writeByte('"')`, raw bytes (`Write`, or the digits of
      `WriteInt64` / `WriteUint64`), and an element's encoding. */
  datatype Token =
    | ObjectStart
    | More
    | Colon
    | ObjectEnd
    | Str(text: string)
    | Quote
    | Raw(bytes: string)
    | Value(json: string)

  /** What `encodeMapKey` stores in `stream.Error`. */
  datatype EncodeError = MarshalTextError(reason: string) | UnsupportedTypeError(typeName: string)

  /** The writes for one key, and the error it sets, if any. */
  datatype KeyWrite = KeyWrite(tokens: seq<Token>, error: Option<EncodeError>)

  /** The writes for a whole map, and the stream's error slot afterwards. */
  datatype Encoded = Encoded(tokens: seq<Token>, error: Option<EncodeError>)

  /** Token kinds, for counting. */
  datatype Tag = TStart | TMore | TColon | TEnd | TStr | TQuote | TRaw | TValue

  function TagOf(t: Token): Tag {
    match t
    case ObjectStart => TStart
    case More => TMore
    case Colon => TColon
    case ObjectEnd => TEnd
    case Str(_) => TStr
    case Quote => TQuote
    case Raw(_) => TRaw
    case Value(_) => TValue
  }

  /** The number of tokens of kind `tag` in `ts`. */
  function Occurrences(ts: seq<Token>, tag: Tag): nat {
    if |ts| == 0 then 0
    else Occurrences(ts[..|ts| - 1], tag) + (if TagOf(ts[|ts| - 1]) == tag then 1 else 0)
  }

  lemma {:induction false} OccurrencesAppend(a: seq<Token>, b: seq<Token>, tag: Tag)
    ensures Occurrences(a + b, tag) == Occurrences(a, tag) + Occurrences(b, tag)
    decreases |b|
  {
    if |b| == 0 {
      assert a + b == a;
    } else {
      assert (a + b)[..|a + b| - 1] == a + b[..|b| - 1];
      OccurrencesAppend(a, b[..|b| - 1], tag);
    }
  }

  /** The tokens a key writes are string or quoted-text tokens only. */
  predicate KeyTokensOnly(ts: seq<Token>) {
    forall i :: 0 <= i < |ts| ==> ts[i].Str? || ts[i].Quote? || ts[i].Raw?
  }

  /** `encodeMapKey` (lines 97-126): a string kind as an escaped JSON string;
      a `TextMarshaler` as its text between quotes, unescaped; an integer as
      its decimal digits between quotes; an unsupported kind writes nothing
      and sets the error, as does a failing `MarshalText`. */
  function EncodeKey<T>(kt: KeyType, k: Key<T>, marshal: Key<T> -> Result<string, string>): (r: KeyWrite)
    requires KeyFits(kt, k)
    ensures KeyTokensOnly(r.tokens)
    ensures r.error.None? <==> r.tokens != []
    ensures EncodeClass(kt).Textual? ==> r.tokens == [Str(k.text)]
    ensures EncodeClass(kt).TextCapable? ==>
      (if marshal(k).Success? then r.tokens == [Quote, Raw(marshal(k).value), Quote]
       else r.error == Some(MarshalTextError(marshal(k).error)))
    ensures EncodeClass(kt).SignedInt? ==> r.tokens == [Quote, Raw(FormatInt(k.signed)), Quote]
    ensures EncodeClass(kt).UnsignedInt? ==> r.tokens == [Quote, Raw(FormatNat(k.unsigned)), Quote]
    ensures EncodeClass(kt).Unsupported? ==> r.error == Some(UnsupportedTypeError(kt.name))
  {
    match EncodeClass(kt)
    case Textual => KeyWrite([Str(k.text)], None)
    case TextCapable =>
      (match marshal(k)
       case Failure(reason) => KeyWrite([], Some(MarshalTextError(reason)))
       case Success(buf) => KeyWrite([Quote, Raw(buf), Quote], None))
    case SignedInt(_) => KeyWrite([Quote, Raw(FormatInt(k.signed)), Quote], None)
    case UnsignedInt(_) => KeyWrite([Quote, Raw(FormatNat(k.unsigned)), Quote], None)
    case Unsupported => KeyWrite([], Some(UnsupportedTypeError(kt.name)))
  }

  /** The writes for the entry at position `i`: a comma unless it is the
      first, the key, the colon, the element. */
  function EntryTokens<T(==), E>(kt: KeyType, m: map<Key<T>, E>, keys: seq<Key<T>>, i: nat,
                                  marshal: Key<T> -> Result<string, string>, encodeElem: E -> string): seq<Token>
    requires i < |keys| && keys[i] in m && KeyFits(kt, keys[i])
  {
    (if i != 0 then [More] else []) + EncodeKey(kt, keys[i], marshal).tokens + [Colon, Value(encodeElem(m[keys[i]]))]
  }

  predicate KeysIn<T(==), E>(kt: KeyType, m: map<Key<T>, E>, keys: seq<Key<T>>) {
    forall i :: 0 <= i < |keys| ==> keys[i] in m && KeyFits(kt, keys[i])
  }

  /** The loop body of lines 85-93 from position `i` on, threading the error
      slot: a failing key overwrites it, and the loop goes on. */
  function EncodeEntries<T(==), E>(kt: KeyType, m: map<Key<T>, E>, keys: seq<Key<T>>, i: nat,
                                    marshal: Key<T> -> Result<string, string>, encodeElem: E -> string,
                                    err: Option<EncodeError>): Encoded
    requires i <= |keys| && KeysIn(kt, m, keys)
    decreases |keys| - i
  {
    if i == |keys| then Encoded([], err)
    else
      var key := EncodeKey(kt, keys[i], marshal);
      var rest := EncodeEntries(kt, m, keys, i + 1, marshal, encodeElem, if key.error.Some? then key.error else err);
      Encoded(EntryTokens(kt, m, keys, i, marshal, encodeElem) + rest.tokens, rest.error)
  }

  /** `mapEncoder.encode`: `{`, the entries in the order `MapKeys` returned
      them, `}`; `err` is the stream's error slot on entry. */
  function Encode<T(==), E>(kt: KeyType, c: Container<Key<T>, E>, keys: seq<Key<T>>,
                             marshal: Key<T> -> Result<string, string>, encodeElem: E -> string,
                             err: Option<EncodeError>): (r: Encoded)
    requires IsKeyOrder(keys, Entries(c)) && AllKeysFit(kt, Entries(c))
    ensures |r.tokens| >= 2 && r.tokens[0] == ObjectStart && r.tokens[|r.tokens| - 1] == ObjectEnd
  {
    var body := EncodeEntries(kt, Entries(c), keys, 0, marshal, encodeElem, err);
    Encoded([ObjectStart] + body.tokens + [ObjectEnd], body.error)
  }

  /** `mapEncoder.isEmpty`: the map (nil or not) has no entries. */
  function IsEmpty<K, E>(c: Container<K, E>): (r: bool)
    ensures r <==> |Entries(c)| == 0
    ensures c.Nil? ==> r
  {
    match c
    case Nil => true
    case Live(m) => |m| == 0
  }
}
