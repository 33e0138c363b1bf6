/** `mapDecoder.decode` (feature_reflect_map.go:19-69): reading a JSON object
    into a Go map. The token reader is abstracted as the sequence of the
    object's members in input order, each a key text and the not yet decoded
    element input; the element codec (`elemDecoder.decode`) and a key type's
    `UnmarshalText` are parameters. The per-member callback is `Step`, and the
    reader's loop, which ends as soon as a callback returns false, is `Scan`. */
module MapDecoder {
  import opened Wrappers
  import opened Widths
  import opened Decimal
  import opened KeyKinds
  import opened MapModel

  /** What the decoder passes to `iter.reportError`. */
  datatype DecodeError =
    | KeyUnmarshalError(reason: string)
    | SignedKeyError
    | UnsignedKeyError
    | UnsupportedKeyType(typeName: string)
  {
    /** The operation named in the report. */
    function Context(): string {
      match this
      case KeyUnmarshalError(_) => "read map key as TextUnmarshaler"
      case SignedKeyError => "read map key as int64"
      case UnsignedKeyError => "read map key as uint64"
      case UnsupportedKeyType(_) => "read map key"
    }

    /** The message of the report. */
    function Message(): string {
      match this
      case KeyUnmarshalError(reason) => reason
      case SignedKeyError => "read int64 failed"
      case UnsignedKeyError => "read uint64 failed"
      case UnsupportedKeyType(name) => "unexpected map key type " + name
    }
  }

  /** The fate of one member's key text: a key to insert, or an error to
      report together with the callback's continue (`true`) / stop (`false`). */
  datatype KeyOutcome<T> = Accepted(key: Key<T>) | Rejected(error: DecodeError, proceed: bool)

  /** One member of the JSON object: its key text and its element input. */
  datatype Member<J> = Member(key: string, elem: J)

  /** The text-unmarshal path allocates `keyType.Elem()`, which exists only
      for pointer key types; the model covers those. */
  predicate DecodableKeyType(kt: KeyType) {
    DecodeClass(kt).TextCapable? ==> kt.kind == Ptr
  }

  /** Converting a member's key text to a key (lines 33-67). A text key is a
      pointer newly allocated at `addr`. */
  function DecodeKey<T>(kt: KeyType, text: string, addr: nat, unmarshal: string -> Result<T, string>): (r: KeyOutcome<T>)
    ensures DecodeClass(kt).Textual? ==> r == Accepted(StrKey(text))
    ensures DecodeClass(kt).TextCapable? ==>
      (if unmarshal(text).Success? then r == Accepted(TextKey(addr, unmarshal(text).value))
       else r == Rejected(KeyUnmarshalError(unmarshal(text).error), false))
    ensures DecodeClass(kt).SignedInt? ==>
      && (r.Accepted? <==> SignedDecimal(text) && InSignedRange(SignedValue(text), DecodeClass(kt).width))
      && (r.Accepted? ==> r.key == IntKey(SignedValue(text)))
      && (r.Rejected? ==> r == Rejected(SignedKeyError, false))
    ensures DecodeClass(kt).UnsignedInt? ==>
      && (r.Accepted? <==> DecimalDigits(text) && InUnsignedRange(DigitsValue(text), DecodeClass(kt).width))
      && (r.Accepted? ==> r.key == UintKey(DigitsValue(text)))
      && (r.Rejected? ==> r == Rejected(UnsignedKeyError, false))
    ensures DecodeClass(kt).Unsupported? ==> r == Rejected(UnsupportedKeyType(kt.name), true)
    ensures r.Accepted? && DecodableKeyType(kt) ==> KeyFits(kt, r.key)
  {
    match DecodeClass(kt)
    case Textual => Accepted(StrKey(text))
    case TextCapable =>
      (match unmarshal(text)
       case Failure(reason) => Rejected(KeyUnmarshalError(reason), false)
       case Success(v) => Accepted(TextKey(addr, v)))
    case SignedInt(w) =>
      (match ParseInt(text)
       case Failure(_) => Rejected(SignedKeyError, false)
       case Success(n) => if OverflowInt(n, w) then Rejected(SignedKeyError, false) else Accepted(IntKey(n)))
    case UnsignedInt(w) =>
      (match ParseUint(text)
       case Failure(_) => Rejected(UnsignedKeyError, false)
       case Success(n) => if OverflowUint(n, w) then Rejected(UnsignedKeyError, false) else Accepted(UintKey(n)))
    case Unsupported => Rejected(UnsupportedKeyType(kt.name), true)
  }

  /** Line 35 as written: `reflect.ValueOf(keyStr)` has type `string`, and
      `SetMapIndex` accepts it only when the key type is `string` itself; for
      a defined string type (`type K string`) it panics. On success the
      result is the text inserted as the key. */
  function StringKeyAsWritten(kt: KeyType, text: string): Result<string, string>
    requires kt.kind == String
  {
    if kt.defined then
      Failure("reflect.Value.SetMapIndex: value of type string is not assignable to type " + kt.name)
    else Success(text)
  }

  /** For every defined string key type and every key text, line 35 as
      written fails, while the conversion the integer paths use
      (`Convert(keyType)`) accepts the text as the key. */
  lemma DefinedStringKeyPanics<T>(kt: KeyType, text: string, addr: nat, unmarshal: string -> Result<T, string>)
    requires kt.kind == String && kt.defined
    ensures StringKeyAsWritten(kt, text).Failure?
    ensures DecodeKey(kt, text, addr, unmarshal) == Accepted(StrKey(text))
  {
  }

  /** Every text-unmarshal key lies below `heap`: allocation has not yet
      reached the next free address. */
  predicate AddressesBelow<T(==), E>(m: map<Key<T>, E>, heap: nat) {
    forall k :: k in m && k.TextKey? ==> k.addr < heap
  }

  /** The decoder's state between members: the map so far, the next free
      address, the errors reported, how many elements were decoded, and
      whether a callback asked the reader to stop. */
  datatype ScanState<T(==), E> = ScanState(
    entries: map<Key<T>, E>,
    heap: nat,
    errors: seq<DecodeError>,
    decoded: nat,
    stopped: bool)

  /** The callback for one member (lines 28-68): decode the element first,
      then convert the key; insert on success (overwriting an equal key),
      report and stop or continue on failure. */
  function Step<T(==), J, E>(
    kt: KeyType, st: ScanState<T, E>, member: Member<J>,
    decodeElem: J -> E, unmarshal: string -> Result<T, string>): (r: ScanState<T, E>)
    ensures r.decoded == st.decoded + 1
    ensures st.entries.Keys <= r.entries.Keys
    ensures r.heap >= st.heap
    ensures AddressesBelow(st.entries, st.heap) ==> AddressesBelow(r.entries, r.heap)
    ensures r.stopped <==> DecodeKey(kt, member.key, st.heap, unmarshal).Rejected? && !DecodeKey(kt, member.key, st.heap, unmarshal).proceed
    ensures DecodeKey(kt, member.key, st.heap, unmarshal).Accepted? ==>
      var k := DecodeKey(kt, member.key, st.heap, unmarshal).key;
      && r.entries.Keys == st.entries.Keys + {k}
      && r.entries[k] == decodeElem(member.elem)
      && (forall k' :: k' in st.entries && k' != k ==> r.entries[k'] == st.entries[k'])
      && r.errors == st.errors
    ensures DecodeKey(kt, member.key, st.heap, unmarshal).Rejected? ==>
      r.entries == st.entries && r.errors == st.errors + [DecodeKey(kt, member.key, st.heap, unmarshal).error]
  {
    var elem := decodeElem(member.elem);
    var heap := if DecodeClass(kt).TextCapable? then st.heap + 1 else st.heap;
    match DecodeKey(kt, member.key, st.heap, unmarshal)
    case Accepted(k) => ScanState(st.entries[k := elem], heap, st.errors, st.decoded + 1, false)
    case Rejected(e, proceed) => ScanState(st.entries, heap, st.errors + [e], st.decoded + 1, !proceed)
  }

  /** `iter.ReadObjectCB`: run the callback on each member in order until one
      returns false. */
  function Scan<T(==), J, E>(
    kt: KeyType, st: ScanState<T, E>, ms: seq<Member<J>>,
    decodeElem: J -> E, unmarshal: string -> Result<T, string>): ScanState<T, E>
    decreases |ms|
  {
    if |ms| == 0 || st.stopped then st
    else Scan(kt, Step(kt, st, ms[0], decodeElem, unmarshal), ms[1..], decodeElem, unmarshal)
  }

  /** The outcome of one decode call: the destination map (never nil
      afterwards), the next free address, the reported errors, the number of
      elements decoded, and whether the object scan was stopped early. */
  datatype Decoded<T(==), E> = Decoded(
    dest: Container<Key<T>, E>,
    heap: nat,
    errors: seq<DecodeError>,
    decoded: nat,
    stopped: bool)

  /** `mapDecoder.decode`: a nil destination is replaced by a fresh empty map
      (lines 25-27) before any member is read; then the members are scanned
      into it. `heap` is the first address not yet allocated, so no pointer
      key already in the map lies at or above it. */
  function Decode<T(==), J, E>(
    kt: KeyType, dest: Container<Key<T>, E>, heap: nat, ms: seq<Member<J>>,
    decodeElem: J -> E, unmarshal: string -> Result<T, string>): (r: Decoded<T, E>)
    requires DecodableKeyType(kt)
    requires AllKeysFit(kt, Entries(dest)) && AddressesBelow(Entries(dest), heap)
    ensures r.dest.Live?
    ensures AllKeysFit(kt, Entries(r.dest))
    ensures Entries(dest).Keys <= Entries(r.dest).Keys
    ensures r.heap >= heap && AddressesBelow(Entries(r.dest), r.heap)
    ensures DecodeClass(kt).TextCapable? ==>
      forall k :: k in Entries(dest) ==> Entries(r.dest)[k] == Entries(dest)[k]
    ensures r.decoded <= |ms|
    ensures |ms| == 0 ==> r == Decoded(Live(Entries(dest)), heap, [], 0, false)
    ensures dest.Nil? && |ms| == 0 ==> r.dest == Live(map[])
  {
    var st := Scan(kt, ScanState(Entries(dest), heap, [], 0, false), ms, decodeElem, unmarshal);
    ScanKeepsKeysFitting(kt, ScanState(Entries(dest), heap, [], 0, false), ms, decodeElem, unmarshal);
    Decoded(Live(st.entries), st.heap, st.errors, st.decoded, st.stopped)
  }

  /** The scan never removes a key, inserts only keys of the key type,
      allocates only above `heap`, never overwrites an existing entry on the
      text-unmarshal path, and decodes at most one element per member. */
  lemma {:induction false} ScanKeepsKeysFitting<T, J, E>(
    kt: KeyType, st: ScanState<T, E>, ms: seq<Member<J>>,
    decodeElem: J -> E, unmarshal: string -> Result<T, string>)
    requires DecodableKeyType(kt)
    requires AllKeysFit(kt, st.entries) && AddressesBelow(st.entries, st.heap)
    ensures var r := Scan(kt, st, ms, decodeElem, unmarshal);
      && AllKeysFit(kt, r.entries)
      && st.entries.Keys <= r.entries.Keys
      && r.heap >= st.heap && AddressesBelow(r.entries, r.heap)
      && (DecodeClass(kt).TextCapable? ==> forall k :: k in st.entries ==> r.entries[k] == st.entries[k])
      && st.decoded <= r.decoded <= st.decoded + |ms|
    decreases |ms|
  {
    if |ms| > 0 && !st.stopped {
      ScanKeepsKeysFitting(kt, Step(kt, st, ms[0], decodeElem, unmarshal), ms[1..], decodeElem, unmarshal);
    }
  }

  /** A scan of the callback as written: it finishes, or line 35 panics with
      the map as it was when the panic came. */
  datatype ScanAsWritten<T(==), E> =
    | Finished(state: ScanState<T, E>)
    | Panicked(entries: map<Key<T>, E>, message: string)

  /** The callback as written: the string path goes through line 35 as
      written (`StringKeyAsWritten`); every other path is `Step`. */
  function StepAsWritten<T(==), J, E>(
    kt: KeyType, st: ScanState<T, E>, member: Member<J>,
    decodeElem: J -> E, unmarshal: string -> Result<T, string>): ScanAsWritten<T, E>
  {
    if kt.kind == String then
      var elem := decodeElem(member.elem);
      match StringKeyAsWritten(kt, member.key)
      case Failure(message) => Panicked(st.entries, message)
      case Success(text) => Finished(ScanState(st.entries[StrKey(text) := elem], st.heap, st.errors, st.decoded + 1, false))
    else Finished(Step(kt, st, member, decodeElem, unmarshal))
  }

  /** `iter.ReadObjectCB` over the callback as written; a panic ends it. */
  function ScanWritten<T(==), J, E>(
    kt: KeyType, st: ScanState<T, E>, ms: seq<Member<J>>,
    decodeElem: J -> E, unmarshal: string -> Result<T, string>): ScanAsWritten<T, E>
    decreases |ms|
  {
    if |ms| == 0 || st.stopped then Finished(st)
    else
      match StepAsWritten(kt, st, ms[0], decodeElem, unmarshal)
      case Panicked(entries, message) => Panicked(entries, message)
      case Finished(st') => ScanWritten(kt, st', ms[1..], decodeElem, unmarshal)
  }

  /** The outcome of `mapDecoder.decode` as written: it returns, or it panics
      and leaves the destination as the panic found it. */
  datatype DecodedAsWritten<T(==), E> =
    | Returned(result: Decoded<T, E>)
    | Aborted(dest: Container<Key<T>, E>, message: string)

  /** The key types line 35 as written cannot insert into. */
  predicate DefinedStringKey(kt: KeyType) {
    kt.kind == String && kt.defined
  }

  /** `mapDecoder.decode` as written. For a defined string key type
      (`type K string`) the first member panics on line 35, after the nil
      destination was already replaced by a live map (lines 25-27) and before
      anything was inserted. For every other key type, and for an object with
      no members, it returns what the corrected decoder returns. */
  function DecodeAsWritten<T(==), J, E>(
    kt: KeyType, dest: Container<Key<T>, E>, heap: nat, ms: seq<Member<J>>,
    decodeElem: J -> E, unmarshal: string -> Result<T, string>): (r: DecodedAsWritten<T, E>)
    requires DecodableKeyType(kt)
    requires AllKeysFit(kt, Entries(dest)) && AddressesBelow(Entries(dest), heap)
    ensures DefinedStringKey(kt) && |ms| > 0 ==> r.Aborted? && r.dest == Live(Entries(dest))
    ensures !DefinedStringKey(kt) || |ms| == 0 ==> r == Returned(Decode(kt, dest, heap, ms, decodeElem, unmarshal))
  {
    var st := ScanState(Entries(dest), heap, [], 0, false);
    if DefinedStringKey(kt) && |ms| > 0 then
      DefinedStringKeyPanics(kt, ms[0].key, heap, unmarshal);
      match ScanWritten(kt, st, ms, decodeElem, unmarshal)
      case Panicked(entries, message) => Aborted(Live(entries), message)
      case Finished(st') => Returned(Decoded(Live(st'.entries), st'.heap, st'.errors, st'.decoded, st'.stopped))
    else
      ScanWrittenAgrees(kt, st, ms, decodeElem, unmarshal);
      match ScanWritten(kt, st, ms, decodeElem, unmarshal)
      case Panicked(entries, message) => Aborted(Live(entries), message)
      case Finished(st') => Returned(Decoded(Live(st'.entries), st'.heap, st'.errors, st'.decoded, st'.stopped))
  }

  /** Except for a defined string key type, the scan as written never panics
      and ends where the corrected scan ends. */
  lemma {:induction false} ScanWrittenAgrees<T, J, E>(
    kt: KeyType, st: ScanState<T, E>, ms: seq<Member<J>>,
    decodeElem: J -> E, unmarshal: string -> Result<T, string>)
    requires !DefinedStringKey(kt) || |ms| == 0
    ensures ScanWritten(kt, st, ms, decodeElem, unmarshal) == Finished(Scan(kt, st, ms, decodeElem, unmarshal))
    decreases |ms|
  {
    if |ms| > 0 && !st.stopped {
      ScanWrittenAgrees(kt, Step(kt, st, ms[0], decodeElem, unmarshal), ms[1..], decodeElem, unmarshal);
    }
  }
}
