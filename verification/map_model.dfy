/** The values the map codec moves between JSON and Go: keys of the kinds it
    supports, and the destination/source map, which may be nil. */
module MapModel {
  import opened Widths
  import opened KeyKinds

  /** A Go map key. A text-unmarshalable key is a pointer (`*T`): its
      identity is the address `addr`, and `target` is the value it points to.
      `OtherKey` stands for a key of a kind the codec does not support. */
  datatype Key<T> =
    | StrKey(text: string)
    | IntKey(signed: int)
    | UintKey(unsigned: nat)
    | TextKey(addr: nat, target: T)
    | OtherKey(id: nat)

  /** A map value: `nil`, or a live map holding entries. */
  datatype Container<K, E> = Nil | Live(entries: map<K, E>)

  function Entries<K, E>(c: Container<K, E>): map<K, E> {
    match c
    case Nil => map[]
    case Live(m) => m
  }

  /** The key value has the shape and range of the key type: what Go's type
      system guarantees of every key stored in a map of that type. */
  predicate KeyFits<T>(kt: KeyType, k: Key<T>) {
    if kt.kind == String then k.StrKey?
    else if IsSignedKind(kt.kind) then k.IntKey? && InSignedRange(k.signed, KindWidth(kt.kind, kt.word))
    else if IsUnsignedKind(kt.kind) then k.UintKey? && InUnsignedRange(k.unsigned, KindWidth(kt.kind, kt.word))
    else if kt.kind == Ptr then k.TextKey?
    else k.OtherKey?
  }

  predicate AllKeysFit<T(==), E>(kt: KeyType, m: map<Key<T>, E>) {
    forall k :: k in m ==> KeyFits(kt, k)
  }

  /** `keys` lists every key of `m` exactly once, in some order: what
      `reflect.Value.MapKeys` returns. */
  predicate IsKeyOrder<K(==), E>(keys: seq<K>, m: map<K, E>) {
    && (forall i, j :: 0 <= i < j < |keys| ==> keys[i] != keys[j])
    && m.Keys == (set i | 0 <= i < |keys| :: keys[i])
  }

  /** A key order has exactly as many keys as the map. */
  lemma {:induction false} KeyOrderLength<K, E>(keys: seq<K>, m: map<K, E>)
    requires IsKeyOrder(keys, m)
    ensures |keys| == |m|
    decreases |keys|
  {
    if |keys| > 0 {
      var k := keys[|keys| - 1];
      var m' := map x | x in m && x != k :: m[x];
      assert m'.Keys == m.Keys - {k};
      DropLastKey(keys, m, m');
      KeyOrderLength(keys[..|keys| - 1], m');
    }
  }

  /** Without its last key, a key order lists the map without that key. */
  lemma DropLastKey<K, E>(keys: seq<K>, m: map<K, E>, m': map<K, E>)
    requires IsKeyOrder(keys, m) && |keys| > 0
    requires m'.Keys == m.Keys - {keys[|keys| - 1]}
    ensures IsKeyOrder(keys[..|keys| - 1], m')
  {
    var k := keys[|keys| - 1];
    var rest := keys[..|keys| - 1];
    forall x | x in rest ensures x in m' {
      var j :| 0 <= j < |rest| && rest[j] == x;
      assert keys[j] == x;
    }
    forall x | x in m' ensures x in rest {
      var j :| 0 <= j < |keys| && keys[j] == x;
      assert rest[j] == x;
    }
  }
}
