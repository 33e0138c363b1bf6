/** What the map decoder promises across a whole object: the reader stops at
    the first key that fails with a stop request and keeps what was inserted
    before it; duplicate keys resolve to the last occurrence; pointer keys
    from the text-unmarshal path never overwrite one another; unsupported key
    types report every member and insert nothing. */
module DecoderProperties {
  import opened Wrappers
  import opened Widths
  import opened Decimal
  import opened KeyKinds
  import opened MapModel
  import opened MapDecoder

  /** Scanning a concatenation is scanning the second part from where the
      first part left off (a stopped state absorbs the rest). */
  lemma {:induction false} ScanAppend<T, J, E>(
    kt: KeyType, st: ScanState<T, E>, a: seq<Member<J>>, b: seq<Member<J>>,
    decodeElem: J -> E, unmarshal: string -> Result<T, string>)
    ensures Scan(kt, st, a + b, decodeElem, unmarshal)
         == Scan(kt, Scan(kt, st, a, decodeElem, unmarshal), b, decodeElem, unmarshal)
    decreases |a|
  {
    if |a| == 0 {
      assert a + b == b;
    } else if !st.stopped {
      assert (a + b)[0] == a[0];
      assert (a + b)[1..] == a[1..] + b;
      ScanAppend(kt, Step(kt, st, a[0], decodeElem, unmarshal), a[1..], b, decodeElem, unmarshal);
    }
  }

  /** Member `i` is where the scan stops: the members before it ran without
      a stop request, and its key conversion asks to stop. */
  predicate StopsAt<T(==), J, E>(
    kt: KeyType, st: ScanState<T, E>, ms: seq<Member<J>>, i: nat,
    decodeElem: J -> E, unmarshal: string -> Result<T, string>)
    requires i < |ms|
  {
    var p := Scan(kt, st, ms[..i], decodeElem, unmarshal);
    var o := DecodeKey(kt, ms[i].key, p.heap, unmarshal);
    !p.stopped && o.Rejected? && !o.proceed
  }

  /** A scan that stops at member `i` ends in the state of the members before
      it plus the failing member's element decode and error report: nothing
      is inserted for that member or after it, and nothing before it is rolled
      back. */
  lemma StopKeepsPrefix<T, J, E>(
    kt: KeyType, st: ScanState<T, E>, ms: seq<Member<J>>, i: nat,
    decodeElem: J -> E, unmarshal: string -> Result<T, string>)
    requires i < |ms| && StopsAt(kt, st, ms, i, decodeElem, unmarshal)
    ensures var r := Scan(kt, st, ms, decodeElem, unmarshal);
      var p := Scan(kt, st, ms[..i], decodeElem, unmarshal);
      && r.stopped
      && r.entries == p.entries
      && r.errors == p.errors + [DecodeKey(kt, ms[i].key, p.heap, unmarshal).error]
      && r.decoded == p.decoded + 1
  {
    var p := Scan(kt, st, ms[..i], decodeElem, unmarshal);
    assert ms == ms[..i] + ([ms[i]] + ms[i + 1..]);
    ScanAppend(kt, st, ms[..i], [ms[i]] + ms[i + 1..], decodeElem, unmarshal);
    assert ([ms[i]] + ms[i + 1..])[0] == ms[i];
  }

  /** The scan is stopped exactly when some member is a stopping point;
      otherwise every member's element was decoded. */
  lemma {:induction false} StoppedIffStopsAt<T, J, E>(
    kt: KeyType, st: ScanState<T, E>, ms: seq<Member<J>>,
    decodeElem: J -> E, unmarshal: string -> Result<T, string>)
    requires !st.stopped
    ensures var r := Scan(kt, st, ms, decodeElem, unmarshal);
      && (r.stopped <==> exists i :: 0 <= i < |ms| && StopsAt(kt, st, ms, i, decodeElem, unmarshal))
      && (!r.stopped ==> r.decoded == st.decoded + |ms|)
    decreases |ms|
  {
    var r := Scan(kt, st, ms, decodeElem, unmarshal);
    if |ms| > 0 {
      var s1 := Step(kt, st, ms[0], decodeElem, unmarshal);
      assert ms[..0] == [];
      if s1.stopped {
        assert StopsAt(kt, st, ms, 0, decodeElem, unmarshal);
      } else {
        var rest := ms[1..];
        StoppedIffStopsAt(kt, s1, rest, decodeElem, unmarshal);
        forall i | 0 <= i < |rest|
          ensures StopsAt(kt, s1, rest, i, decodeElem, unmarshal) <==> StopsAt(kt, st, ms, i + 1, decodeElem, unmarshal)
        {
          assert ms[..i + 1] == [ms[0]] + rest[..i];
          assert ([ms[0]] + rest[..i])[1..] == rest[..i];
          assert Scan(kt, st, ms[..i + 1], decodeElem, unmarshal) == Scan(kt, s1, rest[..i], decodeElem, unmarshal);
        }
        if r.stopped {
          var i :| 0 <= i < |rest| && StopsAt(kt, s1, rest, i, decodeElem, unmarshal);
          assert StopsAt(kt, st, ms, i + 1, decodeElem, unmarshal);
        } else {
          forall i | 0 <= i < |ms| ensures !StopsAt(kt, st, ms, i, decodeElem, unmarshal) {
            if i > 0 {
              assert !StopsAt(kt, s1, rest, i - 1, decodeElem, unmarshal);
            }
          }
        }
      }
    }
  }

  /** For the key classes that do not allocate, the conversion does not
      depend on the next free address. */
  lemma AddressIrrelevant<T>(kt: KeyType, text: string, a: nat, b: nat, unmarshal: string -> Result<T, string>)
    requires !DecodeClass(kt).TextCapable?
    ensures DecodeKey(kt, text, a, unmarshal) == DecodeKey(kt, text, b, unmarshal)
  {
  }

  /** The key member `i` converts to. */
  function KeyAt<T, J>(kt: KeyType, ms: seq<Member<J>>, i: nat, unmarshal: string -> Result<T, string>): Key<T>
    requires i < |ms| && DecodeKey(kt, ms[i].key, 0, unmarshal).Accepted?
  {
    DecodeKey(kt, ms[i].key, 0, unmarshal).key
  }

  predicate AllKeysAccepted<T, J>(kt: KeyType, ms: seq<Member<J>>, unmarshal: string -> Result<T, string>) {
    forall i :: 0 <= i < |ms| ==> DecodeKey(kt, ms[i].key, 0, unmarshal).Accepted?
  }

  /** The keys the members convert to. */
  function MemberKeys<T(==), J>(kt: KeyType, ms: seq<Member<J>>, unmarshal: string -> Result<T, string>): set<Key<T>>
    requires AllKeysAccepted(kt, ms, unmarshal)
  {
    set i | 0 <= i < |ms| :: KeyAt(kt, ms, i, unmarshal)
  }

  /** No later member converts to the same key as member `i`. */
  predicate IsLastFor<T(==), J>(kt: KeyType, ms: seq<Member<J>>, i: nat, unmarshal: string -> Result<T, string>)
    requires i < |ms| && AllKeysAccepted(kt, ms, unmarshal)
  {
    forall j :: i < j < |ms| ==> KeyAt(kt, ms, j, unmarshal) != KeyAt(kt, ms, i, unmarshal)
  }

  lemma PrefixAccepted<T, J>(kt: KeyType, ms: seq<Member<J>>, n: nat, unmarshal: string -> Result<T, string>)
    requires n <= |ms| && AllKeysAccepted(kt, ms, unmarshal)
    ensures AllKeysAccepted(kt, ms[..n], unmarshal)
    ensures forall i :: 0 <= i < n ==> KeyAt(kt, ms[..n], i, unmarshal) == KeyAt(kt, ms, i, unmarshal)
  {
    forall i | 0 <= i < n ensures ms[..n][i] == ms[i] {
    }
  }

  /** The members' keys grow by the last member's key. */
  lemma MemberKeysSnoc<T, J>(kt: KeyType, ms: seq<Member<J>>, unmarshal: string -> Result<T, string>)
    requires |ms| > 0 && AllKeysAccepted(kt, ms, unmarshal)
    ensures AllKeysAccepted(kt, ms[..|ms| - 1], unmarshal)
    ensures MemberKeys(kt, ms, unmarshal)
         == MemberKeys(kt, ms[..|ms| - 1], unmarshal) + {KeyAt(kt, ms, |ms| - 1, unmarshal)}
  {
    var n := |ms| - 1;
    var p := ms[..n];
    PrefixAccepted(kt, ms, n, unmarshal);
    forall x | x in MemberKeys(kt, ms, unmarshal)
      ensures x in MemberKeys(kt, p, unmarshal) + {KeyAt(kt, ms, n, unmarshal)}
    {
      var i :| 0 <= i < |ms| && x == KeyAt(kt, ms, i, unmarshal);
      if i < n {
        assert x == KeyAt(kt, p, i, unmarshal);
      }
    }
    forall x | x in MemberKeys(kt, p, unmarshal) ensures x in MemberKeys(kt, ms, unmarshal) {
      var i :| 0 <= i < |p| && x == KeyAt(kt, p, i, unmarshal);
      assert x == KeyAt(kt, ms, i, unmarshal);
    }
  }

  /** A last occurrence before the final member that differs from the final
      member's key is a last occurrence within the prefix. */
  lemma LastForPrefix<T, J>(kt: KeyType, ms: seq<Member<J>>, i: nat, unmarshal: string -> Result<T, string>)
    requires i < |ms| - 1 && AllKeysAccepted(kt, ms, unmarshal) && IsLastFor(kt, ms, i, unmarshal)
    ensures AllKeysAccepted(kt, ms[..|ms| - 1], unmarshal)
    ensures KeyAt(kt, ms, i, unmarshal) != KeyAt(kt, ms, |ms| - 1, unmarshal)
    ensures IsLastFor(kt, ms[..|ms| - 1], i, unmarshal)
    ensures KeyAt(kt, ms[..|ms| - 1], i, unmarshal) == KeyAt(kt, ms, i, unmarshal)
  {
    PrefixAccepted(kt, ms, |ms| - 1, unmarshal);
  }

  /** Last occurrence wins: when every key converts (string keys always do),
      the result holds the old keys plus the members' keys; each member key
      maps to the element of the LAST member with that key, and every other
      key keeps its old element. Integer keys spelled differently (`"07"`,
      `"7"`) are the same key. */
  lemma {:induction false} LastOccurrenceWins<T, J, E>(
    kt: KeyType, st: ScanState<T, E>, ms: seq<Member<J>>,
    decodeElem: J -> E, unmarshal: string -> Result<T, string>)
    requires !st.stopped && !DecodeClass(kt).TextCapable?
    requires AllKeysAccepted(kt, ms, unmarshal)
    ensures var r := Scan(kt, st, ms, decodeElem, unmarshal);
      && !r.stopped
      && r.errors == st.errors
      && r.decoded == st.decoded + |ms|
      && r.heap == st.heap
      && r.entries.Keys == st.entries.Keys + MemberKeys(kt, ms, unmarshal)
      && (forall i :: 0 <= i < |ms| && IsLastFor(kt, ms, i, unmarshal) ==>
            r.entries[KeyAt(kt, ms, i, unmarshal)] == decodeElem(ms[i].elem))
      && (forall k :: k in st.entries && k !in MemberKeys(kt, ms, unmarshal) ==> r.entries[k] == st.entries[k])
    decreases |ms|
  {
    if |ms| > 0 {
      var n := |ms| - 1;
      var p := ms[..n];
      assert ms == p + [ms[n]];
      MemberKeysSnoc(kt, ms, unmarshal);
      LastOccurrenceWins(kt, st, p, decodeElem, unmarshal);
      ScanAppend(kt, st, p, [ms[n]], decodeElem, unmarshal);
      var s1 := Scan(kt, st, p, decodeElem, unmarshal);
      AddressIrrelevant(kt, ms[n].key, s1.heap, 0, unmarshal);
      var r := Scan(kt, st, ms, decodeElem, unmarshal);
      assert r == Step(kt, s1, ms[n], decodeElem, unmarshal);
      forall i | 0 <= i < n && IsLastFor(kt, ms, i, unmarshal)
        ensures r.entries[KeyAt(kt, ms, i, unmarshal)] == decodeElem(ms[i].elem)
      {
        LastForPrefix(kt, ms, i, unmarshal);
      }
    }
  }

  /** Only the text-unmarshal path allocates: on every other path the scan
      leaves the next free address where it was. */
  lemma {:induction false} PlainScanKeepsHeap<T, J, E>(
    kt: KeyType, st: ScanState<T, E>, ms: seq<Member<J>>,
    decodeElem: J -> E, unmarshal: string -> Result<T, string>)
    requires !DecodeClass(kt).TextCapable?
    ensures Scan(kt, st, ms, decodeElem, unmarshal).heap == st.heap
    decreases |ms|
  {
    if |ms| > 0 && !st.stopped {
      PlainScanKeepsHeap(kt, Step(kt, st, ms[0], decodeElem, unmarshal), ms[1..], decodeElem, unmarshal);
    }
  }

  predicate AllUnmarshal<T, J>(ms: seq<Member<J>>, unmarshal: string -> Result<T, string>) {
    forall i :: 0 <= i < |ms| ==> unmarshal(ms[i].key).Success?
  }

  /** Pointer keys are compared by address and each member allocates a new
      one, so on the text-unmarshal path no member overwrites another or an
      existing entry, even for equal key texts: the map grows by one entry
      per member. */
  lemma {:induction false} TextKeysNeverOverwrite<T, J, E>(
    kt: KeyType, st: ScanState<T, E>, ms: seq<Member<J>>,
    decodeElem: J -> E, unmarshal: string -> Result<T, string>)
    requires !st.stopped && DecodeClass(kt).TextCapable?
    requires AddressesBelow(st.entries, st.heap)
    requires AllUnmarshal(ms, unmarshal)
    ensures var r := Scan(kt, st, ms, decodeElem, unmarshal);
      && !r.stopped
      && |r.entries| == |st.entries| + |ms|
      && r.heap == st.heap + |ms|
      && (forall k :: k in st.entries ==> k in r.entries && r.entries[k] == st.entries[k])
      && AddressesBelow(r.entries, r.heap)
    decreases |ms|
  {
    if |ms| > 0 {
      var s1 := Step(kt, st, ms[0], decodeElem, unmarshal);
      assert unmarshal(ms[0].key).Success?;
      var k := TextKey(st.heap, unmarshal(ms[0].key).value);
      assert k !in st.entries;
      assert s1.entries == st.entries[k := decodeElem(ms[0].elem)];
      assert AllUnmarshal(ms[1..], unmarshal) by {
        forall i | 0 <= i < |ms[1..]| ensures unmarshal(ms[1..][i].key).Success? {
          assert ms[1..][i] == ms[i + 1];
        }
      }
      TextKeysNeverOverwrite(kt, s1, ms[1..], decodeElem, unmarshal);
    }
  }

  /** `m` holds, at a pointer to the member's unmarshalled value at `addr`,
      the member's element. */
  ghost predicate AllocatedAt<T, J, E>(m: map<Key<T>, E>, addr: nat, member: Member<J>,
                                     decodeElem: J -> E, unmarshal: string -> Result<T, string>) {
    && unmarshal(member.key).Success?
    && TextKey(addr, unmarshal(member.key).value) in m
    && m[TextKey(addr, unmarshal(member.key).value)] == decodeElem(member.elem)
  }

  /** One member on the text-unmarshal path whose key text unmarshals:
      a new entry at the next free address. */
  lemma TextStep<T, J, E>(
    kt: KeyType, st: ScanState<T, E>, member: Member<J>,
    decodeElem: J -> E, unmarshal: string -> Result<T, string>)
    requires DecodeClass(kt).TextCapable? && unmarshal(member.key).Success?
    ensures var r := Step(kt, st, member, decodeElem, unmarshal);
      && r.heap == st.heap + 1 && r.errors == st.errors && r.decoded == st.decoded + 1 && !r.stopped
      && AllocatedAt(r.entries, st.heap, member, decodeElem, unmarshal)
  {
  }

  lemma AllUnmarshalTail<T, J>(ms: seq<Member<J>>, unmarshal: string -> Result<T, string>)
    requires |ms| > 0 && AllUnmarshal(ms, unmarshal)
    ensures unmarshal(ms[0].key).Success? && AllUnmarshal(ms[1..], unmarshal)
  {
    assert unmarshal(ms[0].key).Success?;
    forall i | 0 <= i < |ms[1..]| ensures unmarshal(ms[1..][i].key).Success? {
      assert ms[1..][i] == ms[i + 1];
    }
  }

  /** Member `j` of `ms` is allocated at `heap + j` in `m`. */
  ghost predicate AllAllocated<T, J, E>(m: map<Key<T>, E>, heap: nat, ms: seq<Member<J>>,
                                        decodeElem: J -> E, unmarshal: string -> Result<T, string>)
    decreases |ms|
  {
    |ms| == 0 || (AllocatedAt(m, heap, ms[0], decodeElem, unmarshal) && AllAllocated(m, heap + 1, ms[1..], decodeElem, unmarshal))
  }

  /** `AllAllocated` member by member. */
  lemma {:induction false} AllAllocatedAt<T, J, E>(m: map<Key<T>, E>, heap: nat, ms: seq<Member<J>>,
                                                  decodeElem: J -> E, unmarshal: string -> Result<T, string>)
    requires AllAllocated(m, heap, ms, decodeElem, unmarshal)
    ensures forall j :: 0 <= j < |ms| ==> AllocatedAt(m, heap + j, ms[j], decodeElem, unmarshal)
    decreases |ms|
  {
    if |ms| > 0 {
      AllAllocatedAt(m, heap + 1, ms[1..], decodeElem, unmarshal);
      forall j | 0 < j < |ms| ensures AllocatedAt(m, heap + j, ms[j], decodeElem, unmarshal) {
        assert ms[1..][j - 1] == ms[j];
      }
    }
  }

  /** On the text-unmarshal path, when every key text unmarshals, member `j`
      becomes the entry for a pointer to its unmarshalled value at address
      `heap + j`, holding its element; no error is reported. */
  lemma {:induction false} TextKeysAllocated<T, J, E>(
    kt: KeyType, st: ScanState<T, E>, ms: seq<Member<J>>,
    decodeElem: J -> E, unmarshal: string -> Result<T, string>)
    requires !st.stopped && DecodeClass(kt).TextCapable?
    requires AddressesBelow(st.entries, st.heap)
    requires AllUnmarshal(ms, unmarshal)
    ensures var r := Scan(kt, st, ms, decodeElem, unmarshal);
      && r.errors == st.errors && r.decoded == st.decoded + |ms|
      && AllAllocated(r.entries, st.heap, ms, decodeElem, unmarshal)
    decreases |ms|
  {
    if |ms| > 0 {
      AllUnmarshalTail(ms, unmarshal);
      var s1 := Step(kt, st, ms[0], decodeElem, unmarshal);
      TextStep(kt, st, ms[0], decodeElem, unmarshal);
      TextKeysNeverOverwrite(kt, s1, ms[1..], decodeElem, unmarshal);
      TextKeysAllocated(kt, s1, ms[1..], decodeElem, unmarshal);
      var r := Scan(kt, s1, ms[1..], decodeElem, unmarshal);
      assert Scan(kt, st, ms, decodeElem, unmarshal) == r;
      assert AllocatedAt(r.entries, st.heap, ms[0], decodeElem, unmarshal);
    }
  }

  /** A key type the decoder does not support reports one error per member,
      never stops the reader, and inserts nothing, though every element is
      still decoded. */
  lemma {:induction false} UnsupportedKeysSkipped<T, J, E>(
    kt: KeyType, st: ScanState<T, E>, ms: seq<Member<J>>,
    decodeElem: J -> E, unmarshal: string -> Result<T, string>)
    requires !st.stopped && DecodeClass(kt).Unsupported?
    ensures var r := Scan(kt, st, ms, decodeElem, unmarshal);
      && !r.stopped
      && r.entries == st.entries
      && r.decoded == st.decoded + |ms|
      && r.errors == st.errors + seq(|ms|, _ => UnsupportedKeyType(kt.name))
    decreases |ms|
  {
    if |ms| > 0 {
      var s1 := Step(kt, st, ms[0], decodeElem, unmarshal);
      UnsupportedKeysSkipped(kt, s1, ms[1..], decodeElem, unmarshal);
      var e := UnsupportedKeyType(kt.name);
      assert [e] + seq(|ms| - 1, _ => e) == seq(|ms|, _ => e);
      assert st.errors + [e] + seq(|ms| - 1, _ => e) == st.errors + seq(|ms|, _ => e);
    }
  }

  /** Each report of an unsupported key type is made under "read map key"
      with the message "unexpected map key type " and the type's name. */
  lemma UnsupportedKeyReports<T, J, E>(
    kt: KeyType, st: ScanState<T, E>, ms: seq<Member<J>>,
    decodeElem: J -> E, unmarshal: string -> Result<T, string>)
    requires !st.stopped && DecodeClass(kt).Unsupported?
    ensures var r := Scan(kt, st, ms, decodeElem, unmarshal);
      && |r.errors| == |st.errors| + |ms|
      && forall i :: |st.errors| <= i < |r.errors| ==>
           r.errors[i].Context() == "read map key" && r.errors[i].Message() == "unexpected map key type " + kt.name
  {
    UnsupportedKeysSkipped(kt, st, ms, decodeElem, unmarshal);
  }

  const StringKey: KeyType := KeyType(String, false, false, false, "string", Word64)

  /** Decoding `{"a":1,"a":2}` into a nil `map[string]int` yields `{"a":2}`. */
  lemma DuplicateKeyExample(unmarshal: string -> Result<int, string>)
    ensures Decode(StringKey, Nil, 0, [Member("a", 1), Member("a", 2)], (x: int) => x, unmarshal)
         == Decoded(Live(map[StrKey("a") := 2]), 0, [], 2, false)
  {
    var ms := [Member("a", 1), Member("a", 2)];
    assert ms[1..][1..] == [];
  }

  /** Decoding `{}` into a nil map yields a live, empty map. */
  lemma NilBecomesEmptyExample(unmarshal: string -> Result<int, string>)
    ensures Decode<int, int, int>(StringKey, Nil, 0, [], (x: int) => x, unmarshal).dest == Live(map[])
  {
  }

  /** The key `"300"` is out of range for `int8` and in range for `int16`. */
  lemma IntKeyRangeExample(unmarshal: string -> Result<int, string>)
    ensures DecodeKey(KeyType(Int8, false, false, false, "int8", Word64), "300", 0, unmarshal)
         == Rejected(SignedKeyError, false)
    ensures DecodeKey(KeyType(Int16, false, false, false, "int16", Word64), "300", 0, unmarshal)
         == Accepted(IntKey(300))
  {
    assert Magnitude("300") == "300";
    assert "300"[..2] == "30" && "30"[..1] == "3" && "3"[..0] == "";
    assert DigitsValue("300") == 300;
  }
}
