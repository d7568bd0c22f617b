/**
 The object-to-store mapper's shared pieces: its registered errors, row
 identifiers, the runtime type guard and the type-safe row getter that
 every table read goes through.

 Go reflection is reduced to a dynamic type: the name of a type and whether
 the value is a pointer to it. The store is an ordered byte map; the codec
 is a pair of functions given by the caller.
 */
module Orm {
  import opened Wrappers
  import opened Bytes

  /** The registered errors of the package. */
  datatype ErrorKind =
    | NotFound
    | IteratorDone
    | IteratorInvalid
    | TypeMismatch
    | UniqueConstraint
    | Argument
    | IndexKeyMaxLength
    | EmptyKey

  /** The code each error is registered under. */
  function Code(k: ErrorKind): (c: nat)
    ensures 100 <= c <= 114
  {
    match k
    case NotFound => 100
    case IteratorDone => 101
    case IteratorInvalid => 102
    case TypeMismatch => 110
    case UniqueConstraint => 111
    case Argument => 112
    case IndexKeyMaxLength => 113
    case EmptyKey => 114
  }

  /** The registered error of a code, if any: the lookup `errors.Register` makes possible. */
  function KindOf(c: nat): (r: Option<ErrorKind>)
    ensures r.Some? ==> Code(r.value) == c
    ensures r.None? ==> forall k: ErrorKind :: Code(k) != c
  {
    if c == 100 then Some(NotFound)
    else if c == 101 then Some(IteratorDone)
    else if c == 102 then Some(IteratorInvalid)
    else if c == 110 then Some(TypeMismatch)
    else if c == 111 then Some(UniqueConstraint)
    else if c == 112 then Some(Argument)
    else if c == 113 then Some(IndexKeyMaxLength)
    else if c == 114 then Some(EmptyKey)
    else None
  }

  /** Every registered error is found again by its code. */
  lemma KindOfCode(k: ErrorKind)
    ensures KindOf(Code(k)) == Some(k)
  {
  }

  /** No two registered errors share a code in the codespace. */
  lemma CodesDistinct(a: ErrorKind, b: ErrorKind)
    ensures Code(a) == Code(b) <==> a == b
  {
    KindOfCode(a);
    KindOfCode(b);
  }

  /**
   An error as far as callers can tell errors apart: one of the package's
   registered errors, an error from outside the package (the codec,
   `ValidateBasic`, an interceptor), or an interceptor's error tagged with
   the interceptor's position. Wrapping text is not modelled.
   */
  datatype Error =
    | Registered(kind: ErrorKind)
    | Foreign(id: nat)
    | InterceptorFailed(index: nat, cause: Error)

  /** A row identifier. */
  type RowID = Key

  /** `RowID.Bytes`: the identifier's own bytes. */
  function RowBytes(r: RowID): (b: seq<byte>)
    ensures |b| == |r| && forall i | 0 <= i < |b| :: b[i] == r[i]
  {
    r
  }

  /** A key-value store: byte keys, kept in `bytes.Compare` order by its iterators. */
  type Store = map<Key, seq<byte>>

  /** The dynamic type of a value: the named type, and whether the value is a pointer to it. */
  datatype DynType = DynType(name: string, isPointer: bool)

  /** `assertCorrectType`: the destination must be a pointer to the model type. */
  function AssertCorrectType(model: string, obj: DynType): (r: Option<Error>)
    ensures r.None? <==> obj.isPointer && obj.name == model
    ensures r.Some? ==> r.value == Registered(TypeMismatch)
  {
    if !obj.isPointer then Some(Registered(TypeMismatch))
    else if model != obj.name then Some(Registered(TypeMismatch))
    else None
  }

  /** The codec: serialises a value, or parses one back. */
  datatype Codec<!V> = Codec(marshal: V -> Result<seq<byte>, Error>, unmarshal: seq<byte> -> Result<V, Error>)

  /** The codec writes v and reads it back unchanged. */
  ghost predicate RoundTrips<V>(cdc: Codec<V>, v: V) {
    cdc.marshal(v).Success? && cdc.unmarshal(cdc.marshal(v).value) == Success(v)
  }

  /** The codec never reports the package's not-found error itself. */
  ghost predicate NeverNotFound<V>(cdc: Codec<V>) {
    forall b :: cdc.unmarshal(b) != Failure(Registered(NotFound))
  }

  /** The keys of the store that start with p: what an iterator over `PrefixRange(p)` visits. */
  function PrefixRange(store: Store, p: Key): (r: set<Key>)
    ensures forall k :: k in r <==> k in store && IsPrefix(p, k)
  {
    set k | k in store && IsPrefix(p, k)
  }

  /** A row getter as `NewTypeSafeRowGetter` makes it: namespace prefix, model type and codec. */
  datatype RowGetter<!V> = RowGetter(prefixKey: Key, model: string, cdc: Codec<V>)

  function NewTypeSafeRowGetter<V>(prefixKey: Key, model: string, cdc: Codec<V>): (g: RowGetter<V>)
    ensures g.prefixKey == prefixKey && g.model == model && g.cdc == cdc
  {
    RowGetter(prefixKey, model, cdc)
  }

  /**
   The row getter: an empty row ID is an argument error, then a wrong
   destination type is a type error, and only then is the store probed.
   The probe walks the keys under the namespace that start with the row ID
   and decodes the value of the first, so a longer key can answer for a
   missing one. The store is only read.
   */
  function Get<V>(g: RowGetter<V>, store: Store, rowID: RowID, dest: DynType): (r: Result<V, Error>)
    ensures |rowID| == 0 ==> r == Failure(Registered(Argument))
    ensures |rowID| > 0 && AssertCorrectType(g.model, dest).Some? ==> r == Failure(Registered(TypeMismatch))
    ensures |rowID| > 0 && AssertCorrectType(g.model, dest).None? ==>
              if forall k | k in store :: !IsPrefix(g.prefixKey + rowID, k) then r == Failure(Registered(NotFound))
              else exists k | k in store && IsPrefix(g.prefixKey + rowID, k) :: r == g.cdc.unmarshal(store[k])
  {
    if |rowID| == 0 then Failure(Registered(Argument))
    else
      match AssertCorrectType(g.model, dest)
      case Some(e) => Failure(e)
      case None =>
        var range := PrefixRange(store, g.prefixKey + rowID);
        if range == {} then Failure(Registered(NotFound))
        else g.cdc.unmarshal(store[Least(range)])
  }

  /** An empty row ID is rejected whatever the store and the destination. */
  lemma GetRejectsEmptyKey<V>(g: RowGetter<V>, s1: Store, s2: Store, rowID: RowID, d1: DynType, d2: DynType)
    requires |rowID| == 0
    ensures Get(g, s1, rowID, d1) == Get(g, s2, rowID, d2) == Failure(Registered(Argument))
  {
  }

  /** A destination of the wrong type is rejected whatever the store holds. */
  lemma GetRejectsWrongType<V>(g: RowGetter<V>, s1: Store, s2: Store, rowID: RowID, dest: DynType)
    requires |rowID| > 0
    requires !dest.isPointer || dest.name != g.model
    ensures Get(g, s1, rowID, dest) == Get(g, s2, rowID, dest) == Failure(Registered(TypeMismatch))
  {
  }

  /**
   With a valid key and destination, the getter reports not-found exactly
   when no key under the namespace starts with the row ID (the codec's own
   errors being different).
   */
  lemma GetNotFoundIff<V>(g: RowGetter<V>, store: Store, rowID: RowID)
    requires |rowID| > 0 && NeverNotFound(g.cdc)
    ensures Get(g, store, rowID, DynType(g.model, true)) == Failure(Registered(NotFound))
            <==> forall k | k in store :: !IsPrefix(g.prefixKey + rowID, k)
  {
    var range := PrefixRange(store, g.prefixKey + rowID);
    if range != {} {
      var k := Least(range);
      assert g.cdc.unmarshal(store[k]) != Failure(Registered(NotFound));
    }
  }

  /** Otherwise the getter decodes the value of the smallest key starting with the row ID. */
  lemma GetFirstInRange<V>(g: RowGetter<V>, store: Store, rowID: RowID, k: Key)
    requires |rowID| > 0
    requires k in store && IsPrefix(g.prefixKey + rowID, k)
    requires forall k' | k' in store && IsPrefix(g.prefixKey + rowID, k') :: k' == k || Less(k, k')
    ensures Get(g, store, rowID, DynType(g.model, true)) == g.cdc.unmarshal(store[k])
  {
    var range := PrefixRange(store, g.prefixKey + rowID);
    var m := Least(range);
    if m != k {
      assert Less(k, m) && Less(m, k);
      CompareAntisymmetric(k, m);
      assert false;
    }
  }

  /** A key that is a prefix of another sorts first. */
  lemma PrefixSortsFirst(p: Key, k: Key)
    requires IsPrefix(p, k) && p != k
    ensures Less(p, k)
  {
  }

  /** When the exact key is stored it is the first of its range, so the getter decodes its value. */
  lemma GetExactKey<V>(g: RowGetter<V>, store: Store, rowID: RowID)
    requires |rowID| > 0 && g.prefixKey + rowID in store
    ensures Get(g, store, rowID, DynType(g.model, true)) == g.cdc.unmarshal(store[g.prefixKey + rowID])
  {
    var p := g.prefixKey + rowID;
    assert IsPrefix(p, p);
    forall k' | k' in store && IsPrefix(p, k') ensures k' == p || Less(p, k') {
      if k' != p {
        PrefixSortsFirst(p, k');
      }
    }
    GetFirstInRange(g, store, rowID, p);
  }

  /** Only the keys starting with the row ID matter: stores that agree on them give the same answer. */
  lemma GetIsLocal<V>(g: RowGetter<V>, s1: Store, s2: Store, rowID: RowID, dest: DynType)
    requires forall k | IsPrefix(g.prefixKey + rowID, k) :: (k in s1 <==> k in s2)
    requires forall k | k in s1 && k in s2 && IsPrefix(g.prefixKey + rowID, k) :: s1[k] == s2[k]
    ensures Get(g, s1, rowID, dest) == Get(g, s2, rowID, dest)
  {
    assert PrefixRange(s1, g.prefixKey + rowID) == PrefixRange(s2, g.prefixKey + rowID);
  }

  /**
   The probe is not an exact lookup: with only the key `ns ++ rowID ++ [0]`
   stored, the getter finds and decodes its value for rowID.
   */
  lemma GetFindsLongerKey<V>(g: RowGetter<V>, rowID: RowID, v: seq<byte>)
    requires |rowID| > 0
    ensures Get(g, map[g.prefixKey + rowID + [0] := v], rowID, DynType(g.model, true)) == g.cdc.unmarshal(v)
  {
    var p := g.prefixKey + rowID;
    var k := p + [0];
    var store := map[k := v];
    assert IsPrefix(p, k) by {
      assert k[..|p|] == p;
    }
    GetFirstInRange(g, store, rowID, k);
  }
}
