/** Encoding followed by decoding. The JSON token reader is not part of the
    model, so `ReadObject` stands in for it on the encoder's own output: it
    accepts exactly `{`, then entries separated by commas, each a key (a
    string token, or raw text between quotes), a colon and an element, then
    `}`, and yields the members the decoder consumes. */
module RoundTrip {
  import opened Wrappers
  import opened Widths
  import opened Decimal
  import opened KeyKinds
  import opened MapModel
  import opened MapDecoder
  import opened DecoderProperties
  import opened MapEncoder
  import opened EncoderProperties

  /** The element decoder reads back what the element encoder writes for
      every element of `m`. */
  ghost predicate ElemRoundTrip<K, E>(m: map<K, E>, encodeElem: E -> string, decodeElem: string -> E) {
    forall k :: k in m ==> decodeElem(encodeElem(m[k])) == m[k]
  }

  /** Text that a JSON reader takes as it is between quotes: it holds none
      of the characters section 7 of RFC 8259 says a string must escape
      (quotation mark, reverse solidus, control characters). */
  predicate JsonSafe(s: string) {
    forall i :: 0 <= i < |s| ==> s[i] != '"' && s[i] != '\\' && s[i] >= ' '
  }

  /** Digits need no escaping. */
  lemma DigitsJsonSafe(s: string)
    requires AllDigits(s)
    ensures JsonSafe(s)
  {
    forall i | 0 <= i < |s| ensures s[i] != '"' && s[i] != '\\' && s[i] >= ' ' {
      assert IsDigit(s[i]);
    }
  }

  /** What `WriteInt64` writes needs no escaping. */
  lemma IntTextJsonSafe(n: int)
    ensures JsonSafe(FormatInt(n))
  {
    if n < 0 {
      var d := FormatNat(-n);
      DigitsJsonSafe(d);
      forall i | 0 <= i < |"-" + d| ensures ("-" + d)[i] != '"' && ("-" + d)[i] != '\\' && ("-" + d)[i] >= ' ' {
        if i > 0 {
          assert ("-" + d)[i] == d[i - 1];
        }
      }
    } else {
      DigitsJsonSafe(FormatNat(n));
    }
  }

  /** Reads one key from the front of `u`: its text and how many tokens it
      used. A string token is read as its text; raw bytes between quotes are
      read as they are when they hold no character JSON escapes. Otherwise
      this reader, which decodes no escapes, gives up; a JSON reader may
      instead decode an escape or end the string early. */
  function ReadKey(u: seq<Token>): (r: Option<(string, nat)>)
    ensures r.Some? ==> 1 <= r.value.1 <= |u|
  {
    if |u| >= 1 && u[0].Str? then Some((u[0].text, 1))
    else if |u| >= 3 && u[0].Quote? && u[1].Raw? && u[2].Quote? && JsonSafe(u[1].bytes) then Some((u[1].bytes, 3))
    else None
  }

  /** Reads the entries of an object body; `first` means no comma is due. */
  function ReadEntries(ts: seq<Token>, first: bool): Option<seq<Member<string>>>
    decreases |ts|, 1
  {
    if |ts| == 0 then Some([])
    else if !first && !ts[0].More? then None
    else ReadMember(if first then ts else ts[1..])
  }

  /** Reads one member, `key : value`, and the entries after it. */
  function ReadMember(u: seq<Token>): Option<seq<Member<string>>>
    decreases |u|, 0
  {
    match ReadKey(u)
    case None => None
    case Some((text, n)) =>
      if |u| >= n + 2 && u[n].Colon? && u[n + 1].Value? then
        match ReadEntries(u[n + 2..], false)
        case None => None
        case Some(rest) => Some([Member(text, u[n + 1].json)] + rest)
      else None
  }

  /** Reads a whole object. */
  function ReadObject(ts: seq<Token>): Option<seq<Member<string>>> {
    if |ts| >= 2 && ts[0].ObjectStart? && ts[|ts| - 1].ObjectEnd? then ReadEntries(ts[1..|ts| - 1], true)
    else None
  }

  /** An object is read as the entries between its braces. */
  lemma ReadFramed(body: seq<Token>)
    ensures ReadObject([ObjectStart] + body + [ObjectEnd]) == ReadEntries(body, true)
  {
    var ts := [ObjectStart] + body + [ObjectEnd];
    assert ts[1..|ts| - 1] == body;
  }

  /** The text a key's writes carry: the string, or the raw bytes between quotes. */
  function WrittenText(ts: seq<Token>): string {
    if |ts| == 1 && ts[0].Str? then ts[0].text
    else if |ts| == 3 && ts[1].Raw? then ts[1].bytes
    else ""
  }

  /** The members the entries `i..` stand for: each key's written text with
      its element's encoding. */
  function EncodedMembers<T(==), E>(kt: KeyType, m: map<Key<T>, E>, keys: seq<Key<T>>, i: nat,
                                    marshal: Key<T> -> Result<string, string>, encodeElem: E -> string): (ms: seq<Member<string>>)
    requires i <= |keys| && KeysIn(kt, m, keys)
    ensures |ms| == |keys| - i
    ensures forall j :: i <= j < |keys| ==>
      ms[j - i] == Member(WrittenText(EncodeKey(kt, keys[j], marshal).tokens), encodeElem(m[keys[j]]))
    decreases |keys| - i
  {
    if i == |keys| then []
    else [Member(WrittenText(EncodeKey(kt, keys[i], marshal).tokens), encodeElem(m[keys[i]]))]
         + EncodedMembers(kt, m, keys, i + 1, marshal, encodeElem)
  }

  /** A text key whose `MarshalText` succeeds with text that JSON would
      have to escape: lines 108-110 write it between quotes unescaped. */
  predicate RawUnsafe<T>(kt: KeyType, k: Key<T>, marshal: Key<T> -> Result<string, string>) {
    EncodeClass(kt).TextCapable? && marshal(k).Success? && !JsonSafe(marshal(k).value)
  }

  /** Every key of `m` that `MarshalText` writes needs no escaping. */
  ghost predicate MarshalSafe<T, E>(kt: KeyType, m: map<Key<T>, E>, marshal: Key<T> -> Result<string, string>) {
    forall k :: k in m ==> !RawUnsafe(kt, k, marshal)
  }

  /** A key that encodes, unless its marshalled text needs escaping, writes
      what the reader reads as the key's text; one whose text needs escaping
      writes it raw between quotes. */
  lemma KeyShape<T>(kt: KeyType, k: Key<T>, marshal: Key<T> -> Result<string, string>)
    requires KeyFits(kt, k)
    ensures var w := EncodeKey(kt, k, marshal);
      w.error.None? && !RawUnsafe(kt, k, marshal) ==> KeyWriteShape(w.tokens, WrittenText(w.tokens))
    ensures RawUnsafe(kt, k, marshal) ==>
      EncodeKey(kt, k, marshal).tokens == [Quote, Raw(marshal(k).value), Quote] && !JsonSafe(marshal(k).value)
  {
    if EncodeClass(kt).SignedInt? {
      IntTextJsonSafe(k.signed);
    } else if EncodeClass(kt).UnsignedInt? {
      DigitsJsonSafe(FormatNat(k.unsigned));
    }
  }

  /** No key from position `i` on fails to encode. */
  predicate NoKeyFailsFrom<T(==), E>(kt: KeyType, m: map<Key<T>, E>, keys: seq<Key<T>>, i: nat,
                                     marshal: Key<T> -> Result<string, string>)
    requires i <= |keys| && KeysIn(kt, m, keys)
  {
    forall j :: i <= j < |keys| ==> EncodeKey(kt, keys[j], marshal).error.None?
  }

  /** A key's writes as the reader sees them. */
  predicate KeyWriteShape(ts: seq<Token>, text: string) {
    ts == [Str(text)] || (ts == [Quote, Raw(text), Quote] && JsonSafe(text))
  }

  /** A key's writes in front of anything read as the key's text. */
  lemma ReadKeyOf(key: seq<Token>, text: string, tail: seq<Token>)
    requires KeyWriteShape(key, text)
    ensures ReadKey(key + tail) == Some((text, |key|))
  {
    if key == [Str(text)] {
      assert (key + tail)[0] == Str(text);
    } else {
      assert (key + tail)[0] == Quote && (key + tail)[1] == Raw(text) && (key + tail)[2] == Quote;
    }
  }

  /** Reading an entry body whose key is at the front of `u`. */
  lemma ReadEntryBody(key: seq<Token>, text: string, v: string, rest: seq<Token>)
    requires KeyWriteShape(key, text)
    ensures var u := key + ([Colon, Value(v)] + rest);
      && ReadKey(u) == Some((text, |key|))
      && |u| >= |key| + 2 && u[|key|] == Colon && u[|key| + 1] == Value(v) && u[|key| + 2..] == rest
  {
    ReadKeyOf(key, text, [Colon, Value(v)] + rest);
  }

  /** Reading one well-formed member in front of the rest. */
  lemma ReadMemberOf(key: seq<Token>, text: string, v: string, rest: seq<Token>)
    requires KeyWriteShape(key, text)
    ensures ReadMember(key + ([Colon, Value(v)] + rest))
         == match ReadEntries(rest, false)
            case None => None
            case Some(r) => Some([Member(text, v)] + r)
  {
    ReadEntryBody(key, text, v, rest);
  }

  /** Reading one well-formed entry in front of the rest. */
  lemma ReadOneEntry(sep: seq<Token>, key: seq<Token>, text: string, v: string, rest: seq<Token>, first: bool)
    requires sep == (if first then [] else [More]) && KeyWriteShape(key, text)
    ensures ReadEntries(sep + key + [Colon, Value(v)] + rest, first)
         == match ReadEntries(rest, false)
            case None => None
            case Some(r) => Some([Member(text, v)] + r)
  {
    var u := key + ([Colon, Value(v)] + rest);
    ReadMemberOf(key, text, v, rest);
    if first {
      assert sep + key + [Colon, Value(v)] + rest == u;
    } else {
      assert sep + key + [Colon, Value(v)] + rest == [More] + u;
      SkipSeparator(u);
    }
  }

  /** A comma in front of a member is read, then the member. */
  lemma SkipSeparator(u: seq<Token>)
    ensures ReadEntries([More] + u, false) == ReadMember(u)
  {
    assert ([More] + u)[1..] == u;
  }

  /** An entry whose key wrote nothing cannot be read. */
  lemma ReadKeylessEntry(sep: seq<Token>, v: string, rest: seq<Token>, first: bool)
    requires sep == (if first then [] else [More])
    ensures ReadEntries(sep + [] + [Colon, Value(v)] + rest, first) == None
  {
    var u := [Colon, Value(v)] + rest;
    var ts := sep + [] + [Colon, Value(v)] + rest;
    assert ts == sep + u;
    assert u[0] == Colon;
    assert ReadKey(u) == None;
    if first {
      assert ts == u;
    } else {
      assert ts[0] == More && ts[1..] == u;
    }
  }

  /** Entry `i` of the encoder's output, split into its parts. */
  lemma EntriesUnfold<T, E>(kt: KeyType, m: map<Key<T>, E>, keys: seq<Key<T>>, i: nat,
                            marshal: Key<T> -> Result<string, string>, encodeElem: E -> string, err: Option<EncodeError>)
    requires i < |keys| && KeysIn(kt, m, keys)
    ensures var key := EncodeKey(kt, keys[i], marshal);
      var err' := if key.error.Some? then key.error else err;
      EncodeEntries(kt, m, keys, i, marshal, encodeElem, err).tokens
        == (if i == 0 then [] else [More]) + key.tokens + [Colon, Value(encodeElem(m[keys[i]]))]
           + EncodeEntries(kt, m, keys, i + 1, marshal, encodeElem, err').tokens
  {
  }

  /** When every key encodes, the reader recovers exactly the members. */
  lemma {:induction false} ReadEncodedEntries<T, E>(kt: KeyType, m: map<Key<T>, E>, keys: seq<Key<T>>, i: nat,
                                                   marshal: Key<T> -> Result<string, string>, encodeElem: E -> string, err: Option<EncodeError>)
    requires i <= |keys| && KeysIn(kt, m, keys) && NoKeyFailsFrom(kt, m, keys, i, marshal) && MarshalSafe(kt, m, marshal)
    ensures ReadEntries(EncodeEntries(kt, m, keys, i, marshal, encodeElem, err).tokens, i == 0)
         == Some(EncodedMembers(kt, m, keys, i, marshal, encodeElem))
    decreases |keys| - i
  {
    if i < |keys| {
      var key := EncodeKey(kt, keys[i], marshal);
      assert key.error.None? && keys[i] in m;
      EntriesUnfold(kt, m, keys, i, marshal, encodeElem, err);
      ReadEncodedEntries(kt, m, keys, i + 1, marshal, encodeElem, err);
      KeyShape(kt, keys[i], marshal);
      ReadOneEntry(if i == 0 then [] else [More], key.tokens, WrittenText(key.tokens), encodeElem(m[keys[i]]),
                   EncodeEntries(kt, m, keys, i + 1, marshal, encodeElem, err).tokens, i == 0);
    }
  }

  /** The keys `encodeMapKey` cannot write: those of an unsupported key
      type, and text keys whose `MarshalText` fails. */
  predicate KeyFails<T>(kt: KeyType, k: Key<T>, marshal: Key<T> -> Result<string, string>) {
    EncodeClass(kt).Unsupported? || (EncodeClass(kt).TextCapable? && marshal(k).Failure?)
  }

  /** A key sets an error exactly when it is one that cannot be written. */
  lemma KeyFailsIff<T>(kt: KeyType, k: Key<T>, marshal: Key<T> -> Result<string, string>)
    requires KeyFits(kt, k)
    ensures EncodeKey(kt, k, marshal).error.Some? <==> KeyFails(kt, k, marshal)
  {
  }

  /** The keys whose entry `ReadObject` cannot read: those that fail, and
      those whose marshalled text holds a character JSON escapes. */
  predicate KeyUnreadable<T>(kt: KeyType, k: Key<T>, marshal: Key<T> -> Result<string, string>) {
    KeyFails(kt, k, marshal) || RawUnsafe(kt, k, marshal)
  }

  /** `ReadObject` cannot read an entry whose key is raw text holding a character JSON escapes. */
  lemma UnsafeRawEntry(sep: seq<Token>, text: string, v: string, rest: seq<Token>, first: bool)
    requires sep == (if first then [] else [More]) && !JsonSafe(text)
    ensures ReadEntries(sep + [Quote, Raw(text), Quote] + [Colon, Value(v)] + rest, first) == None
  {
    var u := [Quote, Raw(text), Quote] + ([Colon, Value(v)] + rest);
    assert u[0] == Quote && u[1] == Raw(text) && u[2] == Quote;
    assert ReadKey(u) == None;
    if first {
      assert sep + [Quote, Raw(text), Quote] + [Colon, Value(v)] + rest == u;
    } else {
      assert sep + [Quote, Raw(text), Quote] + [Colon, Value(v)] + rest == [More] + u;
      SkipSeparator(u);
    }
  }

  /** An entry whose key cannot be read makes the entries from it on
      unreadable; `first` says whether it is the first entry of the object. */
  lemma FailedEntryUnreadable<T, E>(kt: KeyType, m: map<Key<T>, E>, keys: seq<Key<T>>, i: nat, first: bool,
                                    marshal: Key<T> -> Result<string, string>, encodeElem: E -> string, err: Option<EncodeError>)
    requires i < |keys| && KeysIn(kt, m, keys) && KeyUnreadable(kt, keys[i], marshal) && first == (i == 0)
    ensures ReadEntries(EncodeEntries(kt, m, keys, i, marshal, encodeElem, err).tokens, first) == None
  {
    var key := EncodeKey(kt, keys[i], marshal);
    KeyFailsIff(kt, keys[i], marshal);
    var sep: seq<Token> := if i == 0 then [] else [More];
    EntriesUnfold(kt, m, keys, i, marshal, encodeElem, err);
    if KeyFails(kt, keys[i], marshal) {
      assert key.tokens == [];
      ReadKeylessEntry(sep, encodeElem(m[keys[i]]), EncodeEntries(kt, m, keys, i + 1, marshal, encodeElem, key.error).tokens, first);
    } else {
      KeyShape(kt, keys[i], marshal);
      UnsafeRawEntry(sep, marshal(keys[i]).value, encodeElem(m[keys[i]]), EncodeEntries(kt, m, keys, i + 1, marshal, encodeElem, err).tokens, first);
    }
  }

  /** A readable entry in front of unreadable entries leaves them unreadable. */
  lemma UnreadableAfterEntry<T, E>(kt: KeyType, m: map<Key<T>, E>, keys: seq<Key<T>>, i: nat, first: bool,
                                   marshal: Key<T> -> Result<string, string>, encodeElem: E -> string, err: Option<EncodeError>)
    requires i < |keys| && KeysIn(kt, m, keys) && !KeyUnreadable(kt, keys[i], marshal) && first == (i == 0)
    requires ReadEntries(EncodeEntries(kt, m, keys, i + 1, marshal, encodeElem, err).tokens, false) == None
    ensures ReadEntries(EncodeEntries(kt, m, keys, i, marshal, encodeElem, err).tokens, first) == None
  {
    var key := EncodeKey(kt, keys[i], marshal);
    KeyFailsIff(kt, keys[i], marshal);
    var sep: seq<Token> := if i == 0 then [] else [More];
    EntriesUnfold(kt, m, keys, i, marshal, encodeElem, err);
    KeyShape(kt, keys[i], marshal);
    ReadOneEntry(sep, key.tokens, WrittenText(key.tokens), encodeElem(m[keys[i]]),
                 EncodeEntries(kt, m, keys, i + 1, marshal, encodeElem, err).tokens, first);
  }

  /** Entries after the first, from `i` up to a key at `j` that fails or
      whose marshalled text holds a character JSON escapes, are not a
      continuation `ReadObject` reads. */
  lemma {:induction false} FailedKeyUnreadable<T, E>(kt: KeyType, m: map<Key<T>, E>, keys: seq<Key<T>>, i: nat, j: nat,
                                                    marshal: Key<T> -> Result<string, string>, encodeElem: E -> string, err: Option<EncodeError>)
    requires 0 < i <= j < |keys| && KeysIn(kt, m, keys) && KeyUnreadable(kt, keys[j], marshal)
    ensures ReadEntries(EncodeEntries(kt, m, keys, i, marshal, encodeElem, err).tokens, false) == None
    decreases |keys| - i
  {
    if KeyUnreadable(kt, keys[i], marshal) {
      FailedEntryUnreadable(kt, m, keys, i, false, marshal, encodeElem, err);
    } else {
      FailedKeyUnreadable(kt, m, keys, i + 1, j, marshal, encodeElem, err);
      UnreadableAfterEntry(kt, m, keys, i, false, marshal, encodeElem, err);
    }
  }

  /** A key that fails leaves no key text, so its entry starts `{:` or `,:`;
      a key whose marshalled text holds a character JSON escapes is written
      raw between quotes, which `ReadObject` does not decode. Either way
      `ReadObject` rejects the output. */
  lemma EncodeErrorUnreadable<T, E>(kt: KeyType, c: Container<Key<T>, E>, keys: seq<Key<T>>, j: nat,
                                    marshal: Key<T> -> Result<string, string>, encodeElem: E -> string, err: Option<EncodeError>)
    requires IsKeyOrder(keys, Entries(c)) && AllKeysFit(kt, Entries(c))
    requires j < |keys| && (EncodeKey(kt, keys[j], marshal).error.Some? || RawUnsafe(kt, keys[j], marshal))
    ensures ReadObject(Encode(kt, c, keys, marshal, encodeElem, err).tokens) == None
  {
    var m := Entries(c);
    var body := EncodeEntries(kt, m, keys, 0, marshal, encodeElem, err);
    assert keys[j] in m;
    KeyFailsIff(kt, keys[j], marshal);
    if KeyUnreadable(kt, keys[0], marshal) {
      FailedEntryUnreadable(kt, m, keys, 0, true, marshal, encodeElem, err);
    } else {
      FailedKeyUnreadable(kt, m, keys, 1, j, marshal, encodeElem, err);
      UnreadableAfterEntry(kt, m, keys, 0, true, marshal, encodeElem, err);
    }
    ReadFramed(body.tokens);
  }

  /** The key types whose keys both directions handle without a user hook:
      strings and integers. */
  predicate PlainKeyType(kt: KeyType) {
    && (DecodeClass(kt).Textual? || DecodeClass(kt).SignedInt? || DecodeClass(kt).UnsignedInt?)
    && (EncodeClass(kt).Textual? || EncodeClass(kt).SignedInt? || EncodeClass(kt).UnsignedInt?)
  }

  /** A string or integer key is written, and read back as the same key with
      no range failure (lines 114-122 against lines 48-62). */
  lemma KeyRoundTrip<T>(kt: KeyType, k: Key<T>, heap: nat,
                           marshal: Key<T> -> Result<string, string>, unmarshal: string -> Result<T, string>)
    requires PlainKeyType(kt) && KeyFits(kt, k)
    ensures EncodeKey(kt, k, marshal).error.None?
    ensures DecodeKey(kt, WrittenText(EncodeKey(kt, k, marshal).tokens), heap, unmarshal) == Accepted(k)
  {
    if IsSignedKind(kt.kind) && kt.kind != String {
      FormatIntParses(k.signed);
    } else if IsUnsignedKind(kt.kind) && kt.kind != String {
      FormatNatParses(k.unsigned);
    }
  }

  /** Encoding a map whose keys all encode leaves the error slot untouched. */
  lemma EncodeKeepsSlot<T, E>(kt: KeyType, c: Container<Key<T>, E>, keys: seq<Key<T>>,
                              marshal: Key<T> -> Result<string, string>, encodeElem: E -> string, err: Option<EncodeError>)
    requires IsKeyOrder(keys, Entries(c)) && AllKeysFit(kt, Entries(c))
    requires NoKeyFailsFrom(kt, Entries(c), keys, 0, marshal)
    ensures Encode(kt, c, keys, marshal, encodeElem, err).error == err
  {
    var m := Entries(c);
    var errs := KeyErrors(kt, m, keys, 0, marshal);
    EntriesErrorIsOverwrite(kt, m, keys, 0, marshal, encodeElem, err);
    OverwriteKeepsLast(errs, err);
    forall j | 0 <= j < |errs| ensures errs[j].None? {
      assert errs[j - 0] == EncodeKey(kt, keys[j], marshal).error;
    }
  }

  /** Encoding a map whose keys all encode: the reader recovers the members
      in key order. */
  lemma EncodeReadsBack<T, E>(kt: KeyType, c: Container<Key<T>, E>, keys: seq<Key<T>>,
                              marshal: Key<T> -> Result<string, string>, encodeElem: E -> string, err: Option<EncodeError>)
    requires IsKeyOrder(keys, Entries(c)) && AllKeysFit(kt, Entries(c))
    requires NoKeyFailsFrom(kt, Entries(c), keys, 0, marshal) && MarshalSafe(kt, Entries(c), marshal)
    ensures ReadObject(Encode(kt, c, keys, marshal, encodeElem, err).tokens) == Some(EncodedMembers(kt, Entries(c), keys, 0, marshal, encodeElem))
  {
    var body := EncodeEntries(kt, Entries(c), keys, 0, marshal, encodeElem, err);
    ReadEncodedEntries(kt, Entries(c), keys, 0, marshal, encodeElem, err);
    ReadFramed(body.tokens);
  }

  /** Each listed member's key text decodes to the key it was written from. */
  lemma EncodedKeysAccepted<T, E>(kt: KeyType, m: map<Key<T>, E>, keys: seq<Key<T>>,
                                  marshal: Key<T> -> Result<string, string>, encodeElem: E -> string,
                                  unmarshal: string -> Result<T, string>)
    requires IsKeyOrder(keys, m) && AllKeysFit(kt, m) && PlainKeyType(kt)
    ensures AllKeysAccepted(kt, EncodedMembers(kt, m, keys, 0, marshal, encodeElem), unmarshal)
    ensures forall j :: 0 <= j < |keys| ==>
      KeyAt(kt, EncodedMembers(kt, m, keys, 0, marshal, encodeElem), j, unmarshal) == keys[j]
  {
    var ms := EncodedMembers(kt, m, keys, 0, marshal, encodeElem);
    forall j | 0 <= j < |keys| ensures DecodeKey(kt, ms[j].key, 0, unmarshal) == Accepted(keys[j]) {
      assert keys[j] in m;
      assert ms[j - 0].key == WrittenText(EncodeKey(kt, keys[j], marshal).tokens);
      KeyRoundTrip(kt, keys[j], 0, marshal, unmarshal);
    }
  }

  /** Members whose keys are pairwise distinct are each the last for their key. */
  lemma DistinctAllLast<T, J>(kt: KeyType, keys: seq<Key<T>>, ms: seq<Member<J>>, unmarshal: string -> Result<T, string>)
    requires |ms| == |keys| && AllKeysAccepted(kt, ms, unmarshal)
    requires forall i, j :: 0 <= i < j < |keys| ==> keys[i] != keys[j]
    requires forall j :: 0 <= j < |keys| ==> KeyAt(kt, ms, j, unmarshal) == keys[j]
    ensures forall j :: 0 <= j < |ms| ==> IsLastFor(kt, ms, j, unmarshal)
  {
  }

  /** The members' keys are the map's keys. */
  lemma MemberKeysAreMapKeys<T, J, E>(kt: KeyType, m: map<Key<T>, E>, keys: seq<Key<T>>, ms: seq<Member<J>>,
                                      unmarshal: string -> Result<T, string>)
    requires IsKeyOrder(keys, m)
    requires |ms| == |keys| && AllKeysAccepted(kt, ms, unmarshal)
    requires forall j :: 0 <= j < |keys| ==> KeyAt(kt, ms, j, unmarshal) == keys[j]
    ensures MemberKeys(kt, ms, unmarshal) == m.Keys
  {
    forall x | x in m.Keys ensures x in MemberKeys(kt, ms, unmarshal) {
      var j :| 0 <= j < |keys| && keys[j] == x;
      assert KeyAt(kt, ms, j, unmarshal) == x;
    }
  }

  /** Scanning members with pairwise distinct keys from an empty map maps
      each member's key to its decoded element. */
  lemma ScanDistinctEntries<T, J, E>(kt: KeyType, keys: seq<Key<T>>, ms: seq<Member<J>>, heap: nat,
                                     decodeElem: J -> E, unmarshal: string -> Result<T, string>)
    requires !DecodeClass(kt).TextCapable?
    requires forall i, j :: 0 <= i < j < |keys| ==> keys[i] != keys[j]
    requires |ms| == |keys| && AllKeysAccepted(kt, ms, unmarshal)
    requires forall j :: 0 <= j < |keys| ==> KeyAt(kt, ms, j, unmarshal) == keys[j]
    ensures var r := Scan(kt, ScanState(map[], heap, [], 0, false), ms, decodeElem, unmarshal);
      && r.entries.Keys == MemberKeys(kt, ms, unmarshal)
      && (forall j :: 0 <= j < |keys| ==> r.entries[keys[j]] == decodeElem(ms[j].elem))
      && r.errors == [] && r.decoded == |keys| && !r.stopped && r.heap == heap
  {
    var st: ScanState<T, E> := ScanState(map[], heap, [], 0, false);
    PlainScanKeepsHeap(kt, st, ms, decodeElem, unmarshal);
    LastOccurrenceWins(kt, st, ms, decodeElem, unmarshal);
    DistinctAllLast(kt, keys, ms, unmarshal);
  }

  /** A map whose keys are those of `m` and whose value at each listed key is
      `m`'s is `m`. */
  lemma MapFromKeyOrder<K, E>(r: map<K, E>, m: map<K, E>, keys: seq<K>)
    requires IsKeyOrder(keys, m) && r.Keys == m.Keys
    requires forall j :: 0 <= j < |keys| ==> r[keys[j]] == m[keys[j]]
    ensures r == m
  {
    forall x | x in m ensures r[x] == m[x] {
      var j :| 0 <= j < |keys| && keys[j] == x;
    }
  }

  /** Scanning members that list each key of `m` once, with an input that
      decodes to its element, from an empty map rebuilds `m`. */
  lemma ScanDistinctRebuilds<T, J, E>(kt: KeyType, m: map<Key<T>, E>, keys: seq<Key<T>>, ms: seq<Member<J>>, heap: nat,
                                      decodeElem: J -> E, unmarshal: string -> Result<T, string>)
    requires IsKeyOrder(keys, m) && !DecodeClass(kt).TextCapable?
    requires |ms| == |keys| && AllKeysAccepted(kt, ms, unmarshal)
    requires forall j :: 0 <= j < |keys| ==> KeyAt(kt, ms, j, unmarshal) == keys[j]
    requires forall j :: 0 <= j < |keys| ==> decodeElem(ms[j].elem) == m[keys[j]]
    ensures var r := Scan(kt, ScanState(map[], heap, [], 0, false), ms, decodeElem, unmarshal);
      r.entries == m && r.errors == [] && r.decoded == |keys| && !r.stopped && r.heap == heap
  {
    ScanDistinctEntries(kt, keys, ms, heap, decodeElem, unmarshal);
    MemberKeysAreMapKeys(kt, m, keys, ms, unmarshal);
    var r := Scan(kt, ScanState(map[], heap, [], 0, false), ms, decodeElem, unmarshal);
    MapFromKeyOrder(r.entries, m, keys);
  }

  /** Scanning the listed members from an empty map rebuilds the map. */
  lemma ScanRebuilds<T, E>(kt: KeyType, m: map<Key<T>, E>, keys: seq<Key<T>>, heap: nat,
                           marshal: Key<T> -> Result<string, string>, unmarshal: string -> Result<T, string>,
                           encodeElem: E -> string, decodeElem: string -> E)
    requires IsKeyOrder(keys, m) && AllKeysFit(kt, m) && PlainKeyType(kt)
    requires ElemRoundTrip(m, encodeElem, decodeElem)
    ensures var r := Scan(kt, ScanState(map[], heap, [], 0, false), EncodedMembers(kt, m, keys, 0, marshal, encodeElem),
                          decodeElem, unmarshal);
      r.entries == m && r.errors == [] && r.decoded == |keys| && !r.stopped && r.heap == heap
  {
    var ms := EncodedMembers(kt, m, keys, 0, marshal, encodeElem);
    EncodedKeysAccepted(kt, m, keys, marshal, encodeElem, unmarshal);
    forall j | 0 <= j < |keys| ensures decodeElem(ms[j].elem) == m[keys[j]] {
      assert keys[j] in m;
      assert ms[j - 0].elem == encodeElem(m[keys[j]]);
    }
    ScanDistinctRebuilds(kt, m, keys, ms, heap, decodeElem, unmarshal);
  }

  /** Decoding the members of a string- or integer-keyed map, listed once per
      key, into a nil map rebuilds the map. */
  lemma DecodeEncodedMembers<T, E>(kt: KeyType, m: map<Key<T>, E>, keys: seq<Key<T>>, heap: nat,
                                   marshal: Key<T> -> Result<string, string>, unmarshal: string -> Result<T, string>,
                                   encodeElem: E -> string, decodeElem: string -> E)
    requires IsKeyOrder(keys, m) && AllKeysFit(kt, m) && PlainKeyType(kt)
    requires ElemRoundTrip(m, encodeElem, decodeElem)
    ensures Decode(kt, Nil, heap, EncodedMembers(kt, m, keys, 0, marshal, encodeElem), decodeElem, unmarshal)
         == Decoded(Live(m), heap, [], |m|, false)
  {
    KeyOrderLength(keys, m);
    ScanRebuilds(kt, m, keys, heap, marshal, unmarshal, encodeElem, decodeElem);
  }

  /** Encoding a string- or integer-keyed map and decoding the result into a
      nil map rebuilds the same map, whatever order `MapKeys` produced, with no
      error on either side, provided the element codec reads back what it
      writes. */
  lemma EncodeDecodeRoundTrip<T, E>(
    kt: KeyType, c: Container<Key<T>, E>, keys: seq<Key<T>>, heap: nat,
    marshal: Key<T> -> Result<string, string>, unmarshal: string -> Result<T, string>,
    encodeElem: E -> string, decodeElem: string -> E, err: Option<EncodeError>)
    requires IsKeyOrder(keys, Entries(c)) && AllKeysFit(kt, Entries(c)) && PlainKeyType(kt)
    requires ElemRoundTrip(Entries(c), encodeElem, decodeElem)
    ensures var enc := Encode(kt, c, keys, marshal, encodeElem, err);
      && enc.error == err
      && ReadObject(enc.tokens).Some?
      && Decode(kt, Nil, heap, ReadObject(enc.tokens).value, decodeElem, unmarshal)
         == Decoded(Live(Entries(c)), heap, [], |Entries(c)|, false)
  {
    forall j | 0 <= j < |keys| ensures EncodeKey(kt, keys[j], marshal).error.None? {
      assert keys[j] in Entries(c);
      KeyRoundTrip(kt, keys[j], 0, marshal, unmarshal);
    }
    EncodeKeepsSlot(kt, c, keys, marshal, encodeElem, err);
    EncodeReadsBack(kt, c, keys, marshal, encodeElem, err);
    DecodeEncodedMembers(kt, Entries(c), keys, heap, marshal, unmarshal, encodeElem, decodeElem);
  }

  /** The key types whose keys go through `MarshalText` and `UnmarshalText`:
      pointer types implementing both interfaces. */
  predicate TextKeyType(kt: KeyType) {
    kt.kind == Ptr && DecodeClass(kt).TextCapable? && EncodeClass(kt).TextCapable?
  }

  /** For every key of `m`, `MarshalText` writes text that needs no JSON
      escaping, and `UnmarshalText` reads it back as the pointed-to value. */
  ghost predicate TextCodecRoundTrip<T, E>(m: map<Key<T>, E>, marshal: Key<T> -> Result<string, string>,
                                           unmarshal: string -> Result<T, string>) {
    forall k :: k in m ==>
      && marshal(k).Success? && JsonSafe(marshal(k).value)
      && k.TextKey? && unmarshal(marshal(k).value) == Success(k.target)
  }

  /** With such codecs, no key of a text key type fails to encode, and each
      listed member's key text is the marshalled text of its key. */
  lemma EncodedTextKeys<T, E>(kt: KeyType, m: map<Key<T>, E>, keys: seq<Key<T>>,
                              marshal: Key<T> -> Result<string, string>, encodeElem: E -> string,
                              unmarshal: string -> Result<T, string>)
    requires IsKeyOrder(keys, m) && AllKeysFit(kt, m) && TextKeyType(kt)
    requires TextCodecRoundTrip(m, marshal, unmarshal)
    ensures NoKeyFailsFrom(kt, m, keys, 0, marshal)
    ensures AllUnmarshal(EncodedMembers(kt, m, keys, 0, marshal, encodeElem), unmarshal)
    ensures forall j :: 0 <= j < |keys| ==>
      unmarshal(EncodedMembers(kt, m, keys, 0, marshal, encodeElem)[j].key) == Success(keys[j].target)
  {
    var ms := EncodedMembers(kt, m, keys, 0, marshal, encodeElem);
    forall j | 0 <= j < |keys|
      ensures EncodeKey(kt, keys[j], marshal).error.None?
      ensures unmarshal(ms[j].key) == Success(keys[j].target)
    {
      assert keys[j] in m;
      TextKeyWritten(kt, keys[j], marshal, unmarshal);
      assert ms[j - 0].key == WrittenText(EncodeKey(kt, keys[j], marshal).tokens);
    }
  }

  /** One text key under such codecs: written without error, its written
      text unmarshals to the pointed-to value. */
  lemma TextKeyWritten<T>(kt: KeyType, k: Key<T>, marshal: Key<T> -> Result<string, string>,
                          unmarshal: string -> Result<T, string>)
    requires KeyFits(kt, k) && TextKeyType(kt)
    requires marshal(k).Success? && k.TextKey? && unmarshal(marshal(k).value) == Success(k.target)
    ensures EncodeKey(kt, k, marshal).error.None?
    ensures unmarshal(WrittenText(EncodeKey(kt, k, marshal).tokens)) == Success(k.target)
  {
  }

  /** Member `j` of the members written for a text-keyed map, once
      allocated at `heap + j`, holds `keys[j]`'s element under a pointer to an
      equal value. */
  lemma TextEntryAt<T, E>(kt: KeyType, m: map<Key<T>, E>, keys: seq<Key<T>>, j: nat, r: map<Key<T>, E>, heap: nat,
                          marshal: Key<T> -> Result<string, string>, unmarshal: string -> Result<T, string>,
                          encodeElem: E -> string, decodeElem: string -> E)
    requires IsKeyOrder(keys, m) && KeysIn(kt, m, keys) && j < |keys|
    requires TextCodecRoundTrip(m, marshal, unmarshal) && ElemRoundTrip(m, encodeElem, decodeElem)
    requires unmarshal(EncodedMembers(kt, m, keys, 0, marshal, encodeElem)[j].key) == Success(keys[j].target)
    requires AllocatedAt(r, heap + j, EncodedMembers(kt, m, keys, 0, marshal, encodeElem)[j], decodeElem, unmarshal)
    ensures TextKey(heap + j, keys[j].target) in r && r[TextKey(heap + j, keys[j].target)] == m[keys[j]]
  {
    var ms := EncodedMembers(kt, m, keys, 0, marshal, encodeElem);
    assert keys[j] in m;
    assert ms[j - 0].elem == encodeElem(m[keys[j]]);
  }

  /** Scanning the members written for a text-keyed map into an empty map:
      every member allocates a new pointer, so entry `j` is found under a
      pointer at address `heap + j` to the value of `keys[j]`, and the map has
      one entry per member. */
  lemma ScanEncodedTextMembers<T, E>(kt: KeyType, m: map<Key<T>, E>, keys: seq<Key<T>>, heap: nat,
                                     marshal: Key<T> -> Result<string, string>, unmarshal: string -> Result<T, string>,
                                     encodeElem: E -> string, decodeElem: string -> E)
    requires IsKeyOrder(keys, m) && AllKeysFit(kt, m) && TextKeyType(kt)
    requires TextCodecRoundTrip(m, marshal, unmarshal) && ElemRoundTrip(m, encodeElem, decodeElem)
    ensures var r := Scan(kt, ScanState(map[], heap, [], 0, false), EncodedMembers(kt, m, keys, 0, marshal, encodeElem),
                          decodeElem, unmarshal);
      && r.errors == [] && !r.stopped && r.decoded == |m| && r.heap == heap + |m|
      && |r.entries| == |m|
      && (forall j :: 0 <= j < |keys| ==>
            && TextKey(heap + j, keys[j].target) in r.entries
            && r.entries[TextKey(heap + j, keys[j].target)] == m[keys[j]])
  {
    var ms := EncodedMembers(kt, m, keys, 0, marshal, encodeElem);
    KeyOrderLength(keys, m);
    EncodedTextKeys(kt, m, keys, marshal, encodeElem, unmarshal);
    var st: ScanState<T, E> := ScanState(map[], heap, [], 0, false);
    TextKeysNeverOverwrite(kt, st, ms, decodeElem, unmarshal);
    TextKeysAllocated(kt, st, ms, decodeElem, unmarshal);
    var r := Scan(kt, st, ms, decodeElem, unmarshal);
    AllAllocatedAt(r.entries, heap, ms, decodeElem, unmarshal);
    forall j | 0 <= j < |keys|
      ensures TextKey(heap + j, keys[j].target) in r.entries
      ensures r.entries[TextKey(heap + j, keys[j].target)] == m[keys[j]]
    {
      TextEntryAt(kt, m, keys, j, r.entries, heap, marshal, unmarshal, encodeElem, decodeElem);
    }
  }

  /** Decoding the members written for a text-keyed map into a nil map
      yields one entry per original entry, each under a newly allocated
      pointer to an equal value, holding the original element. */
  lemma DecodeEncodedTextMembers<T, E>(kt: KeyType, m: map<Key<T>, E>, keys: seq<Key<T>>, heap: nat,
                                       marshal: Key<T> -> Result<string, string>, unmarshal: string -> Result<T, string>,
                                       encodeElem: E -> string, decodeElem: string -> E)
    requires IsKeyOrder(keys, m) && AllKeysFit(kt, m) && TextKeyType(kt)
    requires TextCodecRoundTrip(m, marshal, unmarshal) && ElemRoundTrip(m, encodeElem, decodeElem)
    ensures var r := Decode(kt, Nil, heap, EncodedMembers(kt, m, keys, 0, marshal, encodeElem), decodeElem, unmarshal);
      && r.errors == [] && !r.stopped && r.decoded == |m| && r.heap == heap + |m|
      && |Entries(r.dest)| == |m|
      && (forall j :: 0 <= j < |keys| ==>
            && TextKey(heap + j, keys[j].target) in Entries(r.dest)
            && Entries(r.dest)[TextKey(heap + j, keys[j].target)] == m[keys[j]])
  {
    ScanEncodedTextMembers(kt, m, keys, heap, marshal, unmarshal, encodeElem, decodeElem);
  }

  /** Encoding a map keyed by a text-marshalable pointer type and decoding
      the output into a nil map yields, for any `MapKeys` order, one entry per
      original entry, each under a newly allocated pointer (address `heap + j`
      for the `j`th key written) to an equal value, holding the original
      element. The map is not the original one: pointer keys compare by
      address, and the decoder allocates a new pointer per member. */
  lemma TextKeyRoundTrip<T, E>(
    kt: KeyType, c: Container<Key<T>, E>, keys: seq<Key<T>>, heap: nat,
    marshal: Key<T> -> Result<string, string>, unmarshal: string -> Result<T, string>,
    encodeElem: E -> string, decodeElem: string -> E, err: Option<EncodeError>)
    requires IsKeyOrder(keys, Entries(c)) && AllKeysFit(kt, Entries(c)) && TextKeyType(kt)
    requires TextCodecRoundTrip(Entries(c), marshal, unmarshal)
    requires ElemRoundTrip(Entries(c), encodeElem, decodeElem)
    ensures var enc := Encode(kt, c, keys, marshal, encodeElem, err);
      && enc.error == err
      && ReadObject(enc.tokens).Some?
      && var r := Decode(kt, Nil, heap, ReadObject(enc.tokens).value, decodeElem, unmarshal);
      && r.errors == [] && !r.stopped && r.decoded == |Entries(c)|
      && |Entries(r.dest)| == |Entries(c)|
      && (forall j :: 0 <= j < |keys| ==>
            && TextKey(heap + j, keys[j].target) in Entries(r.dest)
            && Entries(r.dest)[TextKey(heap + j, keys[j].target)] == Entries(c)[keys[j]])
  {
    EncodedTextKeys(kt, Entries(c), keys, marshal, encodeElem, unmarshal);
    EncodeKeepsSlot(kt, c, keys, marshal, encodeElem, err);
    EncodeReadsBack(kt, c, keys, marshal, encodeElem, err);
    DecodeEncodedTextMembers(kt, Entries(c), keys, heap, marshal, unmarshal, encodeElem, decodeElem);
  }
}
