/** What the map encoder promises: JSON object framing with a comma only
    between entries, one colon and one element per entry whatever happens to
    the key, an error slot that ends holding the last key failure, and `{}`
    exactly for an empty map. */
module EncoderProperties {
  import opened Wrappers
  import opened KeyKinds
  import opened MapModel
  import opened MapEncoder

  lemma OneTokenOccurrences(t: Token, tag: Tag)
    ensures Occurrences([t], tag) == if TagOf(t) == tag then 1 else 0
  {
    assert [t][..0] == [];
  }

  lemma ThreePartOccurrences(a: seq<Token>, b: seq<Token>, c: seq<Token>, tag: Tag)
    ensures Occurrences(a + b + c, tag) == Occurrences(a, tag) + Occurrences(b, tag) + Occurrences(c, tag)
  {
    OccurrencesAppend(a + b, c, tag);
    OccurrencesAppend(a, b, tag);
  }

  /** A key's writes contain no framing token. */
  lemma {:induction false} KeyTokensHaveNoFraming(ts: seq<Token>)
    requires KeyTokensOnly(ts)
    ensures Occurrences(ts, TMore) == 0 && Occurrences(ts, TColon) == 0 && Occurrences(ts, TValue) == 0
    ensures Occurrences(ts, TStart) == 0 && Occurrences(ts, TEnd) == 0
    decreases |ts|
  {
    if |ts| > 0 {
      KeyTokensHaveNoFraming(ts[..|ts| - 1]);
    }
  }

  /** The writes of one entry counted by kind, for a key that writes only
      key text. */
  lemma EntryShapeCounts(sep: seq<Token>, key: seq<Token>, v: string, first: bool, tag: Tag)
    requires sep == (if first then [] else [More]) && KeyTokensOnly(key)
    ensures Occurrences(sep + key + [Colon, Value(v)], tag)
         == Occurrences(key, tag) + (if tag == TColon || tag == TValue then 1 else 0)
            + (if !first && tag == TMore then 1 else 0)
  {
    var tail: seq<Token> := [Colon, Value(v)];
    ThreePartOccurrences(sep, key, tail, tag);
    assert tail == [Colon] + [Value(v)];
    OccurrencesAppend([Colon], [Value(v)], tag);
    OneTokenOccurrences(Colon, tag);
    OneTokenOccurrences(Value(v), tag);
    OneTokenOccurrences(More, tag);
    assert sep == [] || sep[..0] == [];
  }

  /** One entry: an optional comma, the key, one colon, one element. */
  lemma EntryCounts<T, E>(kt: KeyType, m: map<Key<T>, E>, keys: seq<Key<T>>, i: nat,
                          marshal: Key<T> -> Result<string, string>, encodeElem: E -> string)
    requires i < |keys| && keys[i] in m && KeyFits(kt, keys[i])
    ensures var ts := EntryTokens(kt, m, keys, i, marshal, encodeElem);
      && Occurrences(ts, TColon) == 1
      && Occurrences(ts, TValue) == 1
      && Occurrences(ts, TMore) == (if i != 0 then 1 else 0)
      && Occurrences(ts, TStart) == 0
      && Occurrences(ts, TEnd) == 0
      && (EncodeClass(kt).Unsupported? ==>
            Occurrences(ts, TStr) == 0 && Occurrences(ts, TQuote) == 0 && Occurrences(ts, TRaw) == 0)
  {
    var key := EncodeKey(kt, keys[i], marshal).tokens;
    var sep: seq<Token> := if i != 0 then [More] else [];
    KeyTokensHaveNoFraming(key);
    forall tag: Tag
      ensures Occurrences(sep + key + [Colon, Value(encodeElem(m[keys[i]]))], tag)
           == Occurrences(key, tag) + (if tag == TColon || tag == TValue then 1 else 0)
              + (if i != 0 && tag == TMore then 1 else 0)
    {
      EntryShapeCounts(sep, key, encodeElem(m[keys[i]]), i == 0, tag);
    }
  }

  /** From entry `i` on: one colon and one element per entry, and one comma
      per entry except the very first entry of the map. */
  lemma {:induction false} EntriesCounts<T, E>(kt: KeyType, m: map<Key<T>, E>, keys: seq<Key<T>>, i: nat,
                                              marshal: Key<T> -> Result<string, string>, encodeElem: E -> string, err: Option<EncodeError>)
    requires i <= |keys| && KeysIn(kt, m, keys)
    ensures var ts := EncodeEntries(kt, m, keys, i, marshal, encodeElem, err).tokens;
      && Occurrences(ts, TColon) == |keys| - i
      && Occurrences(ts, TValue) == |keys| - i
      && Occurrences(ts, TMore) == (if i == 0 && |keys| > 0 then |keys| - 1 else |keys| - i)
      && Occurrences(ts, TStart) == 0
      && Occurrences(ts, TEnd) == 0
      && (EncodeClass(kt).Unsupported? ==>
            Occurrences(ts, TStr) == 0 && Occurrences(ts, TQuote) == 0 && Occurrences(ts, TRaw) == 0)
    decreases |keys| - i
  {
    if i < |keys| {
      var key := EncodeKey(kt, keys[i], marshal);
      var err' := if key.error.Some? then key.error else err;
      var entry := EntryTokens(kt, m, keys, i, marshal, encodeElem);
      var rest := EncodeEntries(kt, m, keys, i + 1, marshal, encodeElem, err');
      EntriesCounts(kt, m, keys, i + 1, marshal, encodeElem, err');
      EntryCounts(kt, m, keys, i, marshal, encodeElem);
      assert EncodeEntries(kt, m, keys, i, marshal, encodeElem, err).tokens == entry + rest.tokens;
      forall tag: Tag ensures Occurrences(entry + rest.tokens, tag) == Occurrences(entry, tag) + Occurrences(rest.tokens, tag) {
        OccurrencesAppend(entry, rest.tokens, tag);
      }
    }
  }

  /** Framing of `mapEncoder.encode`: `{` first, `}` last, one colon and one
      element per entry and `max(n - 1, 0)` commas for `n` entries; this holds
      even when keys fail. */
  lemma EncodeFraming<T, E>(kt: KeyType, c: Container<Key<T>, E>, keys: seq<Key<T>>,
                            marshal: Key<T> -> Result<string, string>, encodeElem: E -> string, err: Option<EncodeError>)
    requires IsKeyOrder(keys, Entries(c)) && AllKeysFit(kt, Entries(c))
    ensures var ts := Encode(kt, c, keys, marshal, encodeElem, err).tokens;
      var n := |Entries(c)|;
      && ts[0] == ObjectStart && ts[|ts| - 1] == ObjectEnd
      && Occurrences(ts, TStart) == 1 && Occurrences(ts, TEnd) == 1
      && Occurrences(ts, TColon) == n
      && Occurrences(ts, TValue) == n
      && Occurrences(ts, TMore) == (if n == 0 then 0 else n - 1)
      && (EncodeClass(kt).Unsupported? ==>
            Occurrences(ts, TStr) == 0 && Occurrences(ts, TQuote) == 0 && Occurrences(ts, TRaw) == 0)
  {
    KeyOrderLength(keys, Entries(c));
    var body := EncodeEntries(kt, Entries(c), keys, 0, marshal, encodeElem, err).tokens;
    EntriesCounts(kt, Entries(c), keys, 0, marshal, encodeElem, err);
    assert Encode(kt, c, keys, marshal, encodeElem, err).tokens == [ObjectStart] + body + [ObjectEnd];
    FramedBodyCounts(body, |keys|, EncodeClass(kt).Unsupported?);
  }

  /** Counts of a body carry over to the braced object. */
  lemma FramedBodyCounts(body: seq<Token>, n: nat, noKeyText: bool)
    requires Occurrences(body, TColon) == n && Occurrences(body, TValue) == n
    requires Occurrences(body, TMore) == (if n == 0 then 0 else n - 1)
    requires Occurrences(body, TStart) == 0 && Occurrences(body, TEnd) == 0
    requires noKeyText ==> Occurrences(body, TStr) == 0 && Occurrences(body, TQuote) == 0 && Occurrences(body, TRaw) == 0
    ensures var ts := [ObjectStart] + body + [ObjectEnd];
      && Occurrences(ts, TStart) == 1 && Occurrences(ts, TEnd) == 1
      && Occurrences(ts, TColon) == n && Occurrences(ts, TValue) == n
      && Occurrences(ts, TMore) == (if n == 0 then 0 else n - 1)
      && (noKeyText ==> Occurrences(ts, TStr) == 0 && Occurrences(ts, TQuote) == 0 && Occurrences(ts, TRaw) == 0)
  {
    forall tag: Tag
      ensures Occurrences([ObjectStart] + body + [ObjectEnd], tag)
           == Occurrences(body, tag) + (if tag == TStart then 1 else 0) + (if tag == TEnd then 1 else 0)
    {
      FramedCounts(body, tag);
    }
  }

  /** The braces around a body add one `{` and one `}`. */
  lemma FramedCounts(body: seq<Token>, tag: Tag)
    ensures Occurrences([ObjectStart] + body + [ObjectEnd], tag)
         == Occurrences(body, tag) + (if tag == TStart then 1 else 0) + (if tag == TEnd then 1 else 0)
  {
    ThreePartOccurrences([ObjectStart], body, [ObjectEnd], tag);
    OneTokenOccurrences(ObjectStart, tag);
    OneTokenOccurrences(ObjectEnd, tag);
  }

  /** The error each key sets, `None` for a key that encodes, in key order. */
  function KeyErrors<T(==), E>(kt: KeyType, m: map<Key<T>, E>, keys: seq<Key<T>>, i: nat,
                               marshal: Key<T> -> Result<string, string>): (errs: seq<Option<EncodeError>>)
    requires i <= |keys| && KeysIn(kt, m, keys)
    ensures |errs| == |keys| - i
    ensures forall j :: i <= j < |keys| ==> errs[j - i] == EncodeKey(kt, keys[j], marshal).error
    decreases |keys| - i
  {
    if i == |keys| then [] else [EncodeKey(kt, keys[i], marshal).error] + KeyErrors(kt, m, keys, i + 1, marshal)
  }

  /** A slot that each `Some` overwrites in turn. */
  function Overwrite<X>(errs: seq<Option<X>>, slot: Option<X>): Option<X>
    decreases |errs|
  {
    if |errs| == 0 then slot else Overwrite(errs[1..], if errs[0].Some? then errs[0] else slot)
  }

  /** The slot ends untouched when nothing is written, else holding the last
      value written. */
  lemma {:induction false} OverwriteKeepsLast<X>(errs: seq<Option<X>>, slot: Option<X>)
    ensures (forall j :: 0 <= j < |errs| ==> errs[j].None?) ==> Overwrite(errs, slot) == slot
    ensures forall j :: (0 <= j < |errs| && errs[j].Some? && (forall l :: j < l < |errs| ==> errs[l].None?))
              ==> Overwrite(errs, slot) == errs[j]
    decreases |errs|
  {
    if |errs| > 0 {
      var slot' := if errs[0].Some? then errs[0] else slot;
      OverwriteKeepsLast(errs[1..], slot');
      forall j | 0 < j < |errs| ensures errs[1..][j - 1] == errs[j] {
      }
    }
  }

  lemma {:induction false} EntriesErrorIsOverwrite<T, E>(kt: KeyType, m: map<Key<T>, E>, keys: seq<Key<T>>, i: nat,
                                                        marshal: Key<T> -> Result<string, string>, encodeElem: E -> string, err: Option<EncodeError>)
    requires i <= |keys| && KeysIn(kt, m, keys)
    ensures EncodeEntries(kt, m, keys, i, marshal, encodeElem, err).error == Overwrite(KeyErrors(kt, m, keys, i, marshal), err)
    decreases |keys| - i
  {
    if i < |keys| {
      var e := EncodeKey(kt, keys[i], marshal).error;
      EntriesErrorIsOverwrite(kt, m, keys, i + 1, marshal, encodeElem, if e.Some? then e else err);
      var errs := KeyErrors(kt, m, keys, i, marshal);
      assert errs[0] == e && errs[1..] == KeyErrors(kt, m, keys, i + 1, marshal);
    }
  }

  /** `stream.Error` after `mapEncoder.encode`: the incoming value when every
      key encodes, otherwise the error of the LAST key that failed (each
      failure overwrites the slot; none stops the loop). */
  lemma EncodeErrorSlot<T, E>(kt: KeyType, c: Container<Key<T>, E>, keys: seq<Key<T>>,
                              marshal: Key<T> -> Result<string, string>, encodeElem: E -> string, err: Option<EncodeError>)
    requires IsKeyOrder(keys, Entries(c)) && AllKeysFit(kt, Entries(c))
    ensures var r := Encode(kt, c, keys, marshal, encodeElem, err);
      var errs := KeyErrors(kt, Entries(c), keys, 0, marshal);
      && ((forall j :: 0 <= j < |errs| ==> errs[j].None?) ==> r.error == err)
      && (forall j :: (0 <= j < |errs| && errs[j].Some? && (forall l :: j < l < |errs| ==> errs[l].None?))
            ==> r.error == errs[j])
  {
    EntriesErrorIsOverwrite(kt, Entries(c), keys, 0, marshal, encodeElem, err);
    OverwriteKeepsLast(KeyErrors(kt, Entries(c), keys, 0, marshal), err);
  }

  /** A key type neither the string, text nor integer path handles: every
      non-empty map sets the unsupported-type error, and no key text at all
      is written, yet the colons, elements and closing brace still are. */
  lemma UnsupportedKeyEncoding<T, E>(kt: KeyType, c: Container<Key<T>, E>, keys: seq<Key<T>>,
                                     marshal: Key<T> -> Result<string, string>, encodeElem: E -> string, err: Option<EncodeError>)
    requires IsKeyOrder(keys, Entries(c)) && AllKeysFit(kt, Entries(c))
    requires EncodeClass(kt).Unsupported?
    ensures var r := Encode(kt, c, keys, marshal, encodeElem, err);
      && (|Entries(c)| > 0 ==> r.error == Some(UnsupportedTypeError(kt.name)))
      && (|Entries(c)| == 0 ==> r.error == err)
      && r.tokens[|r.tokens| - 1] == ObjectEnd
      && Occurrences(r.tokens, TColon) == |Entries(c)|
      && Occurrences(r.tokens, TStr) == 0 && Occurrences(r.tokens, TQuote) == 0 && Occurrences(r.tokens, TRaw) == 0
  {
    KeyOrderLength(keys, Entries(c));
    EncodeFraming(kt, c, keys, marshal, encodeElem, err);
    UnsupportedErrorSlot(kt, c, keys, marshal, encodeElem, err);
  }

  lemma UnsupportedErrorSlot<T, E>(kt: KeyType, c: Container<Key<T>, E>, keys: seq<Key<T>>,
                                   marshal: Key<T> -> Result<string, string>, encodeElem: E -> string, err: Option<EncodeError>)
    requires IsKeyOrder(keys, Entries(c)) && AllKeysFit(kt, Entries(c))
    requires EncodeClass(kt).Unsupported?
    ensures var r := Encode(kt, c, keys, marshal, encodeElem, err);
      && (|keys| > 0 ==> r.error == Some(UnsupportedTypeError(kt.name)))
      && (|keys| == 0 ==> r.error == err)
  {
    var errs := KeyErrors(kt, Entries(c), keys, 0, marshal);
    EntriesErrorIsOverwrite(kt, Entries(c), keys, 0, marshal, encodeElem, err);
    OverwriteKeepsLast(errs, err);
    if |keys| > 0 {
      var j := |keys| - 1;
      assert keys[j] in Entries(c);
      assert errs[j] == EncodeKey(kt, keys[j], marshal).error;
      assert errs[j] == Some(UnsupportedTypeError(kt.name));
    }
  }

  /** `isEmpty` holds exactly for the maps the encoder writes as `{}`. */
  lemma EmptyIffBraces<T, E>(kt: KeyType, c: Container<Key<T>, E>, keys: seq<Key<T>>,
                             marshal: Key<T> -> Result<string, string>, encodeElem: E -> string, err: Option<EncodeError>)
    requires IsKeyOrder(keys, Entries(c)) && AllKeysFit(kt, Entries(c))
    ensures IsEmpty(c) <==> Encode(kt, c, keys, marshal, encodeElem, err).tokens == [ObjectStart, ObjectEnd]
  {
    KeyOrderLength(keys, Entries(c));
    EncodeFraming(kt, c, keys, marshal, encodeElem, err);
    var ts := Encode(kt, c, keys, marshal, encodeElem, err).tokens;
    if ts == [ObjectStart, ObjectEnd] {
      assert ts[..1] == [ObjectStart] && ts[..1][..0] == [];
      assert Occurrences(ts, TColon) == 0;
    }
  }
}
