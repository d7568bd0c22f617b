/**
 The typed table: rows of one model type stored under a one-byte prefix,
 written and deleted through a fixed pipeline with interceptors run after
 each write, read through the type-safe row getter, and scanned through
 cursors that resolve every key they visit with that getter.
 */
module Table {
  import opened Wrappers
  import opened Bytes
  import opened Orm

  /** What an interceptor leaves behind: the store as it wrote it, and its error if any. */
  datatype Effect = Effect(store: Store, err: Option<Error>)

  /** Called after `Create` and `Update` with the row ID, the new value and the old one (`None` on create). */
  type SaveInterceptor<!V> = (Store, RowID, V, Option<V>) -> Effect

  /** Called after `Delete` with the row ID and the deleted value. */
  type DeleteInterceptor<!V> = (Store, RowID, V) -> Effect

  /** An interceptor with everything but the store already supplied. */
  type Step = Store -> Effect

  /**
   The interceptor loop from position k on: each step sees the store the
   previous one left; the first error stops the loop and is reported with
   the failing position. Nothing already written is undone.
   */
  function ChainFrom(steps: seq<Step>, k: nat, s: Store): (r: Effect)
    ensures r.err.Some? ==> r.err.value.InterceptorFailed? && k <= r.err.value.index < |steps|
    decreases |steps| - k
  {
    if k >= |steps| then Effect(s, None)
    else
      var e := steps[k](s);
      if e.err.Some? then Effect(e.store, Some(InterceptorFailed(k, e.err.value)))
      else ChainFrom(steps, k + 1, e.store)
  }

  function Chain(steps: seq<Step>, s: Store): (r: Effect)
    ensures r.err.Some? ==> r.err.value.InterceptorFailed? && r.err.value.index < |steps|
  {
    ChainFrom(steps, 0, s)
  }

  /**
   The same loop as a left fold that adds one interceptor at a time at the
   end: the reference reading of "in list order, stopping at the first error".
   */
  function RunInOrder(steps: seq<Step>, s: Store): (r: Effect) {
    if steps == [] then Effect(s, None)
    else
      var n := |steps| - 1;
      var before := RunInOrder(steps[..n], s);
      if before.err.Some? then before
      else
        var e := steps[n](before.store);
        if e.err.Some? then Effect(e.store, Some(InterceptorFailed(n, e.err.value))) else Effect(e.store, None)
  }

  /** Running a + b: first a; only when all of a succeeds, b on the store a left. */
  lemma {:induction false} ChainAppend(a: seq<Step>, b: seq<Step>, k: nat, s: Store)
    requires k <= |a|
    ensures ChainFrom(a + b, k, s) ==
      (var r := ChainFrom(a, k, s); if r.err.Some? then r else ChainFrom(a + b, |a|, r.store))
    decreases |a| - k
  {
    if k < |a| {
      assert (a + b)[k] == a[k];
      var e := a[k](s);
      if e.err.None? {
        ChainAppend(a, b, k + 1, e.store);
      }
    }
  }

  /** The interceptor loop is the in-order left fold. */
  lemma {:induction false} ChainRunsInOrder(steps: seq<Step>, s: Store)
    ensures Chain(steps, s) == RunInOrder(steps, s)
    decreases |steps|
  {
    if steps != [] {
      var n := |steps| - 1;
      var a, b := steps[..n], [steps[n]];
      assert a + b == steps;
      ChainAppend(a, b, 0, s);
      ChainRunsInOrder(a, s);
      var r := ChainFrom(a, 0, s);
      if r.err.None? {
        assert ChainFrom(steps, n + 1, steps[n](r.store).store) == Effect(steps[n](r.store).store, None);
      }
    }
  }

  /**
   When the first i steps succeed and step i fails, the loop reports step
   i's error with its position and the store step i left, whatever follows.
   */
  lemma StopsAtFirstError(steps: seq<Step>, i: nat, s: Store)
    requires i < |steps|
    requires Chain(steps[..i], s).err.None?
    requires steps[i](Chain(steps[..i], s).store).err.Some?
    ensures var e := steps[i](Chain(steps[..i], s).store);
            Chain(steps, s) == Effect(e.store, Some(InterceptorFailed(i, e.err.value)))
  {
    var a, b := steps[..i], steps[i..];
    assert a + b == steps;
    ChainAppend(a, b, 0, s);
    assert steps[i] == (a + b)[|a|];
  }

  /** The save interceptors with the row ID and the values supplied. */
  function SaveSteps<V>(its: seq<SaveInterceptor<V>>, rowID: RowID, newValue: V, oldValue: Option<V>): (r: seq<Step>)
    ensures |r| == |its|
    ensures forall i, s | 0 <= i < |its| :: r[i](s) == its[i](s, rowID, newValue, oldValue)
  {
    seq(|its|, i requires 0 <= i < |its| => (s: Store) => its[i](s, rowID, newValue, oldValue))
  }

  /** The delete interceptors with the row ID and the deleted value supplied. */
  function DeleteSteps<V>(its: seq<DeleteInterceptor<V>>, rowID: RowID, value: V): (r: seq<Step>)
    ensures |r| == |its|
    ensures forall i, s | 0 <= i < |its| :: r[i](s) == its[i](s, rowID, value)
  {
    seq(|its|, i requires 0 <= i < |its| => (s: Store) => its[i](s, rowID, value))
  }

  /** Whether a value implements `ValidateBasic`, and what it answers. */
  datatype Validation = NotValidateable | ValidateBasic(result: Option<Error>)

  /** A value handed to the table: its dynamic type, its content and its validation. */
  datatype Object<V> = Object(typ: DynType, value: V, validation: Validation)

  /** `assertValid`: only a value that implements `ValidateBasic` can fail it. */
  function AssertValid<V>(obj: Object<V>): (r: Option<Error>)
    ensures r.Some? <==> obj.validation.ValidateBasic? && obj.validation.result.Some?
    ensures r.Some? ==> r.value == obj.validation.result.value
  {
    match obj.validation
    case NotValidateable => None
    case ValidateBasic(result) => result
  }

  /** The builder: model type, prefix, index-key codec, both interceptor lists and the codec. */
  datatype Builder<!V, K> = Builder(
    model: string,
    prefixData: byte,
    indexKeyCodec: K,
    afterSave: seq<SaveInterceptor<V>>,
    afterDelete: seq<DeleteInterceptor<V>>,
    cdc: Codec<V>)

  /** The two misconfigurations `NewTableBuilder` panics on. */
  datatype Panic = NilModel | NilIndexKeyCodec

  /**
   `NewTableBuilder`: a nil model or a nil index-key codec is a panic (the
   model checked first); otherwise the builder keeps the model's type, a
   pointer standing for the type it points to, and no interceptors.
   */
  function NewTableBuilder<V, K>(prefixData: byte, model: Option<DynType>, idxKeyCodec: Option<K>, cdc: Codec<V>)
    : (r: Result<Builder<V, K>, Panic>)
    ensures r.Failure? <==> model.None? || idxKeyCodec.None?
    ensures model.None? ==> r == Failure(NilModel)
    ensures model.Some? && idxKeyCodec.None? ==> r == Failure(NilIndexKeyCodec)
    ensures r.Success? ==> r.value.model == model.value.name && r.value.prefixData == prefixData
                           && r.value.indexKeyCodec == idxKeyCodec.value && r.value.cdc == cdc
                           && r.value.afterSave == [] && r.value.afterDelete == []
  {
    if model.None? then Failure(NilModel)
    else if idxKeyCodec.None? then Failure(NilIndexKeyCodec)
    else Success(Builder(model.value.name, prefixData, idxKeyCodec.value, [], [], cdc))
  }

  /** `Builder.AddAfterSaveInterceptor`: appends, nothing else changes. */
  function AddAfterSaveInterceptor<V, K>(b: Builder<V, K>, itc: SaveInterceptor<V>): (r: Builder<V, K>)
    ensures |r.afterSave| == |b.afterSave| + 1
    ensures r.afterSave[..|b.afterSave|] == b.afterSave && r.afterSave[|b.afterSave|] == itc
    ensures r.afterDelete == b.afterDelete && r.model == b.model && r.prefixData == b.prefixData
    ensures r.indexKeyCodec == b.indexKeyCodec && r.cdc == b.cdc
  {
    b.(afterSave := b.afterSave + [itc])
  }

  /** `Builder.AddAfterDeleteInterceptor`: appends, nothing else changes. */
  function AddAfterDeleteInterceptor<V, K>(b: Builder<V, K>, itc: DeleteInterceptor<V>): (r: Builder<V, K>)
    ensures |r.afterDelete| == |b.afterDelete| + 1
    ensures r.afterDelete[..|b.afterDelete|] == b.afterDelete && r.afterDelete[|b.afterDelete|] == itc
    ensures r.afterSave == b.afterSave && r.model == b.model && r.prefixData == b.prefixData
    ensures r.indexKeyCodec == b.indexKeyCodec && r.cdc == b.cdc
  {
    b.(afterDelete := b.afterDelete + [itc])
  }

  /** Registering several save interceptors one by one. */
  function AddSaveAll<V, K>(b: Builder<V, K>, its: seq<SaveInterceptor<V>>): (r: Builder<V, K>)
    ensures r.model == b.model && r.prefixData == b.prefixData && r.indexKeyCodec == b.indexKeyCodec && r.cdc == b.cdc
    ensures r.afterDelete == b.afterDelete && |r.afterSave| == |b.afterSave| + |its|
    decreases |its|
  {
    if its == [] then b else AddSaveAll(AddAfterSaveInterceptor(b, its[0]), its[1..])
  }

  /** Registering several delete interceptors one by one. */
  function AddDeleteAll<V, K>(b: Builder<V, K>, its: seq<DeleteInterceptor<V>>): (r: Builder<V, K>)
    ensures r.model == b.model && r.prefixData == b.prefixData && r.indexKeyCodec == b.indexKeyCodec && r.cdc == b.cdc
    ensures r.afterSave == b.afterSave && |r.afterDelete| == |b.afterDelete| + |its|
    decreases |its|
  {
    if its == [] then b else AddDeleteAll(AddAfterDeleteInterceptor(b, its[0]), its[1..])
  }

  /** Interceptors registered one by one end up in registration order, after the earlier ones. */
  lemma {:induction false} AddSaveAllKeepsOrder<V, K>(b: Builder<V, K>, its: seq<SaveInterceptor<V>>)
    ensures AddSaveAll(b, its) == b.(afterSave := b.afterSave + its)
    decreases |its|
  {
    if its != [] {
      var b1 := AddAfterSaveInterceptor(b, its[0]);
      AddSaveAllKeepsOrder(b1, its[1..]);
      assert b.afterSave + [its[0]] + its[1..] == b.afterSave + its;
    }
  }

  lemma {:induction false} AddDeleteAllKeepsOrder<V, K>(b: Builder<V, K>, its: seq<DeleteInterceptor<V>>)
    ensures AddDeleteAll(b, its) == b.(afterDelete := b.afterDelete + its)
    decreases |its|
  {
    if its != [] {
      var b1 := AddAfterDeleteInterceptor(b, its[0]);
      AddDeleteAllKeepsOrder(b1, its[1..]);
      assert b.afterDelete + [its[0]] + its[1..] == b.afterDelete + its;
    }
  }

  /** A built table: everything of the builder but the index-key codec. */
  datatype Table<!V> = Table(
    model: string,
    prefix: byte,
    afterSave: seq<SaveInterceptor<V>>,
    afterDelete: seq<DeleteInterceptor<V>>,
    cdc: Codec<V>)

  /** `Builder.Build`: copies prefix, model, codec and both lists unchanged. */
  function Build<V, K>(b: Builder<V, K>): (t: Table<V>)
    ensures t.model == b.model && t.prefix == b.prefixData && t.cdc == b.cdc
    ensures t.afterSave == b.afterSave && t.afterDelete == b.afterDelete
  {
    Table(b.model, b.prefixData, b.afterSave, b.afterDelete, b.cdc)
  }

  /** A fresh builder with interceptors registered one by one builds a table holding them in order. */
  lemma BuildKeepsRegistration<V, K>(prefixData: byte, model: DynType, idx: K, cdc: Codec<V>,
                                     saves: seq<SaveInterceptor<V>>, deletes: seq<DeleteInterceptor<V>>)
    ensures NewTableBuilder(prefixData, Some(model), Some(idx), cdc).Success?
    ensures var t := Build(AddDeleteAll(AddSaveAll(NewTableBuilder(prefixData, Some(model), Some(idx), cdc).value, saves), deletes));
            t == Table(model.name, prefixData, saves, deletes, cdc)
  {
    var b := NewTableBuilder(prefixData, Some(model), Some(idx), cdc).value;
    AddSaveAllKeepsOrder(b, saves);
    var b1 := AddSaveAll(b, saves);
    AddDeleteAllKeepsOrder(b1, deletes);
    assert [] + saves == saves && [] + deletes == deletes;
  }

  /** The row getter of a builder or table: one-byte namespace, model type and codec. */
  function BuilderRowGetter<V, K>(b: Builder<V, K>): (g: RowGetter<V>)
    ensures g == Getter(Build(b))
  {
    NewTypeSafeRowGetter([b.prefixData], b.model, b.cdc)
  }

  function Getter<V>(t: Table<V>): (g: RowGetter<V>) {
    NewTypeSafeRowGetter([t.prefix], t.model, t.cdc)
  }

  /** Where a row lives in the store. */
  function TableKey<V>(t: Table<V>, rowID: RowID): (k: Key)
    ensures |k| == |rowID| + 1 && k[0] == t.prefix && k[1..] == rowID
  {
    [t.prefix] + rowID
  }

  /** The destination the table makes for an old value: a new pointer to the model type. */
  function NewModel<V>(t: Table<V>): (d: DynType)
    ensures AssertCorrectType(t.model, d).None?
  {
    DynType(t.model, true)
  }

  /**
   `Table.Create`: the type check, then validation, then serialisation,
   each failure returned with the store untouched; then the row is written
   under the prefixed key, replacing whatever was there, and the save
   interceptors run with no old value. A failing interceptor does not undo
   the write.
   */
  function Create<V>(t: Table<V>, store: Store, rowID: RowID, obj: Object<V>): (r: Effect)
    ensures AssertCorrectType(t.model, obj.typ).Some? ==> r == Effect(store, Some(Registered(TypeMismatch)))
    ensures r.err.Some? && !r.err.value.InterceptorFailed? ==> r.store == store
    ensures t.afterSave == [] ==>
              (r.err.None? <==> AssertCorrectType(t.model, obj.typ).None? && AssertValid(obj).None? && t.cdc.marshal(obj.value).Success?)
    ensures t.afterSave == [] && r.err.None? ==>
              TableKey(t, rowID) in r.store && t.cdc.marshal(obj.value) == Success(r.store[TableKey(t, rowID)])
    ensures t.afterSave == [] ==>
              forall k | k in store && k != TableKey(t, rowID) :: k in r.store && r.store[k] == store[k]
  {
    match AssertCorrectType(t.model, obj.typ)
    case Some(e) => Effect(store, Some(e))
    case None =>
      match AssertValid(obj)
      case Some(e) => Effect(store, Some(e))
      case None =>
        match t.cdc.marshal(obj.value)
        case Failure(e) => Effect(store, Some(e))
        case Success(v) => Chain(SaveSteps(t.afterSave, rowID, obj.value, None), store[TableKey(t, rowID) := v])
  }

  /**
   `Table.GetOne`: the table's row getter. An empty row ID and a wrong
   destination are rejected; otherwise not-found means no key under the
   table prefix starts with the row ID, and a row found is the decode of
   the smallest key that does.
   */
  function GetOne<V>(t: Table<V>, store: Store, rowID: RowID, dest: DynType): (r: Result<V, Error>)
    ensures |rowID| == 0 ==> r == Failure(Registered(Argument))
    ensures |rowID| > 0 && AssertCorrectType(t.model, dest).Some? ==> r == Failure(Registered(TypeMismatch))
    ensures |rowID| > 0 && AssertCorrectType(t.model, dest).None? && (forall k | k in store :: !IsPrefix(TableKey(t, rowID), k)) ==>
              r == Failure(Registered(NotFound))
    ensures |rowID| > 0 && AssertCorrectType(t.model, dest).None? && NeverNotFound(t.cdc) ==>
              (r == Failure(Registered(NotFound)) <==> forall k | k in store :: !IsPrefix(TableKey(t, rowID), k))
    ensures |rowID| > 0 && AssertCorrectType(t.model, dest).None? ==>
              forall k | IsLeast(k, PrefixRange(store, TableKey(t, rowID))) :: r == t.cdc.unmarshal(store[k])
  {
    var g := NewTypeSafeRowGetter([t.prefix], t.model, t.cdc);
    assert |rowID| > 0 && AssertCorrectType(t.model, dest).None? ==>
             forall k | IsLeast(k, PrefixRange(store, TableKey(t, rowID))) :: Get(g, store, rowID, dest) == t.cdc.unmarshal(store[k]) by {
      if |rowID| > 0 && AssertCorrectType(t.model, dest).None? {
        forall k | IsLeast(k, PrefixRange(store, TableKey(t, rowID))) ensures Get(g, store, rowID, dest) == t.cdc.unmarshal(store[k]) {
          GetFirstInRange(g, store, rowID, k);
        }
      }
    }
    assert |rowID| > 0 && AssertCorrectType(t.model, dest).None? && NeverNotFound(t.cdc) ==>
             (Get(g, store, rowID, dest) == Failure(Registered(NotFound)) <==> forall k | k in store :: !IsPrefix(TableKey(t, rowID), k)) by {
      if |rowID| > 0 && AssertCorrectType(t.model, dest).None? && NeverNotFound(t.cdc) {
        GetNotFoundIff(g, store, rowID);
      }
    }
    Get(g, store, rowID, dest)
  }

  /**
   `Table.Update`: the type check and validation, then the old value is
   loaded through the row getter; any failure returns with the store
   untouched. Then the row is written and the save interceptors run with
   the loaded old value.
   */
  function Update<V>(t: Table<V>, store: Store, rowID: RowID, newValue: Object<V>): (r: Effect)
    ensures !Has(t, store, rowID) ==> r.store == store && r.err.Some?
    ensures r.err.Some? && !r.err.value.InterceptorFailed? ==> r.store == store
    ensures t.afterSave == [] && r.err.None? ==>
              TableKey(t, rowID) in r.store && t.cdc.marshal(newValue.value) == Success(r.store[TableKey(t, rowID)])
    ensures t.afterSave == [] ==>
              forall k | k in store && k != TableKey(t, rowID) :: k in r.store && r.store[k] == store[k]
  {
    match AssertCorrectType(t.model, newValue.typ)
    case Some(e) => Effect(store, Some(e))
    case None =>
      match AssertValid(newValue)
      case Some(e) => Effect(store, Some(e))
      case None =>
        match GetOne(t, store, rowID, NewModel(t))
        case Failure(e) => Effect(store, Some(e))
        case Success(prev) =>
          match t.cdc.marshal(newValue.value)
          case Failure(e) => Effect(store, Some(e))
          case Success(v) => Chain(SaveSteps(t.afterSave, rowID, newValue.value, Some(prev)), store[TableKey(t, rowID) := v])
  }

  /**
   `Table.Delete`: the old value is loaded through the row getter (a
   failure returns with the store untouched), the exact prefixed key is
   removed, and the delete interceptors run with the loaded value.
   */
  function Delete<V>(t: Table<V>, store: Store, rowID: RowID): (r: Effect)
    ensures !Has(t, store, rowID) ==> r.store == store && r.err.Some?
    ensures r.err.Some? && !r.err.value.InterceptorFailed? ==> r.store == store
    ensures t.afterDelete == [] && r.err.None? ==> TableKey(t, rowID) !in r.store
    ensures t.afterDelete == [] ==>
              forall k | k in store && k != TableKey(t, rowID) :: k in r.store && r.store[k] == store[k]
  {
    match GetOne(t, store, rowID, NewModel(t))
    case Failure(e) => Effect(store, Some(e))
    case Success(prev) => Chain(DeleteSteps(t.afterDelete, rowID, prev), store - {TableKey(t, rowID)})
  }

  /** `Table.Has`: whether any key under the table prefix starts with the row ID. */
  function Has<V>(t: Table<V>, store: Store, rowID: RowID): (r: bool)
    ensures r <==> exists k :: k in store && IsPrefix(TableKey(t, rowID), k)
  {
    var range := PrefixRange(store, [t.prefix] + rowID);
    assert range != {} ==> var k :| k in range; k in store && IsPrefix(TableKey(t, rowID), k);
    range != {}
  }

  /** A failed type check or validation leaves the store as it was, runs no interceptor, and the type check comes first. */
  lemma CreateRejectsEarly<V>(t: Table<V>, store: Store, rowID: RowID, obj: Object<V>, saves: seq<SaveInterceptor<V>>)
    requires AssertCorrectType(t.model, obj.typ).Some? || AssertValid(obj).Some?
    ensures Create(t, store, rowID, obj).store == store && Create(t, store, rowID, obj).err.Some?
    ensures AssertCorrectType(t.model, obj.typ).Some? ==> Create(t, store, rowID, obj).err == Some(Registered(TypeMismatch))
    ensures Create(t.(afterSave := saves), store, rowID, obj) == Create(t, store, rowID, obj)
  {
  }

  /**
   Once checks and serialisation pass, the row is written under the
   prefixed key and the save interceptors run on that store with no old value.
   */
  lemma CreateWrites<V>(t: Table<V>, store: Store, rowID: RowID, obj: Object<V>, v: seq<byte>)
    requires AssertCorrectType(t.model, obj.typ).None? && AssertValid(obj).None?
    requires t.cdc.marshal(obj.value) == Success(v)
    ensures Create(t, store, rowID, obj) == Chain(SaveSteps(t.afterSave, rowID, obj.value, None), store[[t.prefix] + rowID := v])
    ensures t.afterSave == [] ==> Create(t, store, rowID, obj) == Effect(store[[t.prefix] + rowID := v], None)
  {
  }

  /** `Create` does not look at what the key held: an existing row is overwritten. */
  lemma CreateOverwrites<V>(t: Table<V>, store: Store, rowID: RowID, obj: Object<V>, previous: seq<byte>)
    requires AssertCorrectType(t.model, obj.typ).None? && AssertValid(obj).None?
    requires t.cdc.marshal(obj.value).Success?
    ensures Create(t, store[TableKey(t, rowID) := previous], rowID, obj) == Create(t, store, rowID, obj)
  {
    var k := TableKey(t, rowID);
    var v := t.cdc.marshal(obj.value).value;
    assert store[k := previous][k := v] == store[k := v];
  }

  /** A row created in a table without interceptors is read back by `GetOne` when the codec round-trips. */
  lemma CreateThenGetOne<V>(t: Table<V>, store: Store, rowID: RowID, obj: Object<V>)
    requires |rowID| > 0 && t.afterSave == []
    requires AssertCorrectType(t.model, obj.typ).None? && AssertValid(obj).None?
    requires RoundTrips(t.cdc, obj.value)
    ensures Create(t, store, rowID, obj).err.None?
    ensures GetOne(t, Create(t, store, rowID, obj).store, rowID, NewModel(t)) == Success(obj.value)
  {
    var v := t.cdc.marshal(obj.value).value;
    var s1 := store[[t.prefix] + rowID := v];
    GetExactKey(Getter(t), s1, rowID);
  }

  /**
   A failing first interceptor does not undo the write: the row stays
   written, and the error names interceptor 0.
   */
  lemma CreateNoRollback<V>(t: Table<V>, store: Store, rowID: RowID, obj: Object<V>, v: seq<byte>, e: Error)
    requires AssertCorrectType(t.model, obj.typ).None? && AssertValid(obj).None?
    requires t.cdc.marshal(obj.value) == Success(v)
    requires |t.afterSave| > 0
    requires var s1 := store[TableKey(t, rowID) := v]; t.afterSave[0](s1, rowID, obj.value, None) == Effect(s1, Some(e))
    ensures Create(t, store, rowID, obj) == Effect(store[TableKey(t, rowID) := v], Some(InterceptorFailed(0, e)))
  {
    var steps := SaveSteps(t.afterSave, rowID, obj.value, None);
    var s1 := store[TableKey(t, rowID) := v];
    assert steps[0](s1) == Effect(s1, Some(e));
  }

  /** When loading the old value fails, `Update` returns that error with the store untouched and runs no interceptor. */
  lemma UpdateLoadFails<V>(t: Table<V>, store: Store, rowID: RowID, newValue: Object<V>, e: Error, saves: seq<SaveInterceptor<V>>)
    requires AssertCorrectType(t.model, newValue.typ).None? && AssertValid(newValue).None?
    requires GetOne(t, store, rowID, NewModel(t)) == Failure(e)
    ensures Update(t, store, rowID, newValue) == Effect(store, Some(e))
    ensures Update(t.(afterSave := saves), store, rowID, newValue) == Effect(store, Some(e))
  {
  }

  /** `Update` of a row ID with no key under it fails with not-found and changes nothing. */
  lemma UpdateMissingRow<V>(t: Table<V>, store: Store, rowID: RowID, newValue: Object<V>)
    requires |rowID| > 0 && NeverNotFound(t.cdc)
    requires AssertCorrectType(t.model, newValue.typ).None? && AssertValid(newValue).None?
    requires forall k | k in store :: !IsPrefix(TableKey(t, rowID), k)
    ensures Update(t, store, rowID, newValue) == Effect(store, Some(Registered(NotFound)))
  {
    GetNotFoundIff(Getter(t), store, rowID);
  }

  /** Otherwise `Update` writes the row and hands the loaded old value to every interceptor. */
  lemma UpdateWrites<V>(t: Table<V>, store: Store, rowID: RowID, newValue: Object<V>, prev: V, v: seq<byte>)
    requires AssertCorrectType(t.model, newValue.typ).None? && AssertValid(newValue).None?
    requires GetOne(t, store, rowID, NewModel(t)) == Success(prev)
    requires t.cdc.marshal(newValue.value) == Success(v)
    ensures Update(t, store, rowID, newValue) == Chain(SaveSteps(t.afterSave, rowID, newValue.value, Some(prev)), store[TableKey(t, rowID) := v])
  {
  }

  /**
   The old value is found by prefix, so `Update` of a row ID whose exact
   key is absent succeeds when a longer key exists, and creates the row.
   */
  lemma UpdateViaLongerKey<V>(t: Table<V>, rowID: RowID, w: seq<byte>, newValue: Object<V>, prev: V, v: seq<byte>)
    requires |rowID| > 0 && t.afterSave == []
    requires AssertCorrectType(t.model, newValue.typ).None? && AssertValid(newValue).None?
    requires t.cdc.unmarshal(w) == Success(prev) && t.cdc.marshal(newValue.value) == Success(v)
    ensures var store := map[TableKey(t, rowID) + [0] := w];
            Update(t, store, rowID, newValue) == Effect(store[TableKey(t, rowID) := v], None)
  {
    var g := Getter(t);
    GetFindsLongerKey(g, rowID, w);
    assert [t.prefix] + rowID + [0] == TableKey(t, rowID) + [0];
  }

  /**
   A row updated in a table without save interceptors is read back by
   `GetOne` with its new value when the codec round-trips.
   */
  lemma UpdateThenGetOne<V>(t: Table<V>, store: Store, rowID: RowID, newValue: Object<V>, prev: V)
    requires |rowID| > 0 && t.afterSave == []
    requires AssertCorrectType(t.model, newValue.typ).None? && AssertValid(newValue).None?
    requires GetOne(t, store, rowID, NewModel(t)) == Success(prev)
    requires RoundTrips(t.cdc, newValue.value)
    ensures Update(t, store, rowID, newValue).err.None?
    ensures GetOne(t, Update(t, store, rowID, newValue).store, rowID, NewModel(t)) == Success(newValue.value)
  {
  }

  /** When loading fails, `Delete` returns that error with the store untouched. */
  lemma DeleteLoadFails<V>(t: Table<V>, store: Store, rowID: RowID, e: Error)
    requires GetOne(t, store, rowID, NewModel(t)) == Failure(e)
    ensures Delete(t, store, rowID) == Effect(store, Some(e))
  {
  }

  /**
   Otherwise `Delete` removes exactly the prefixed key, keeps every other
   entry, and hands the loaded value to the delete interceptors.
   */
  lemma DeleteRemovesExactKey<V>(t: Table<V>, store: Store, rowID: RowID, prev: V)
    requires GetOne(t, store, rowID, NewModel(t)) == Success(prev)
    ensures Delete(t, store, rowID) == Chain(DeleteSteps(t.afterDelete, rowID, prev), store - {TableKey(t, rowID)})
    ensures t.afterDelete == [] ==> var s := Delete(t, store, rowID).store;
            TableKey(t, rowID) !in s && forall k | k in store && k != TableKey(t, rowID) :: k in s && s[k] == store[k]
  {
  }

  /**
   The load is by prefix but the removal is exact: with only a longer key
   stored, `Delete` succeeds and removes nothing.
   */
  lemma DeleteViaLongerKey<V>(t: Table<V>, rowID: RowID, w: seq<byte>, prev: V)
    requires |rowID| > 0 && t.afterDelete == []
    requires t.cdc.unmarshal(w) == Success(prev)
    ensures var store := map[TableKey(t, rowID) + [0] := w];
            Delete(t, store, rowID) == Effect(store, None)
  {
    var g := Getter(t);
    GetFindsLongerKey(g, rowID, w);
    var k := TableKey(t, rowID);
    var store := map[k + [0] := w];
    assert k + [0] != k;
    assert store - {k} == store;
  }

  /**
   With no longer key under the row, a row created and then deleted in a
   table without interceptors is gone: `Has` is false afterwards.
   */
  lemma CreateThenDelete<V>(t: Table<V>, store: Store, rowID: RowID, obj: Object<V>)
    requires |rowID| > 0 && t.afterSave == [] && t.afterDelete == []
    requires AssertCorrectType(t.model, obj.typ).None? && AssertValid(obj).None?
    requires RoundTrips(t.cdc, obj.value)
    requires forall k | k in store && IsPrefix(TableKey(t, rowID), k) :: k == TableKey(t, rowID)
    ensures var s1 := Create(t, store, rowID, obj).store;
            Delete(t, s1, rowID).err.None? && !Has(t, Delete(t, s1, rowID).store, rowID)
  {
    CreateThenGetOne(t, store, rowID, obj);
    var s1 := Create(t, store, rowID, obj).store;
    var s2 := s1 - {TableKey(t, rowID)};
    assert Delete(t, s1, rowID) == Effect(s2, None);
    forall k | k in s2 ensures !IsPrefix(TableKey(t, rowID), k) {
      assert k in store;
    }
  }

  /**
   An empty row ID: `GetOne`, `Update` and `Delete` reject it as an argument
   error before touching the store. `Create` has no such check of its own,
   so over this model's store, which accepts any key, it writes the row
   under the bare prefix.
   */
  lemma EmptyRowID<V>(t: Table<V>, store: Store, obj: Object<V>, dest: DynType, v: seq<byte>)
    requires AssertCorrectType(t.model, obj.typ).None? && AssertValid(obj).None?
    ensures GetOne(t, store, [], dest) == Failure(Registered(Argument))
    ensures Update(t, store, [], obj) == Effect(store, Some(Registered(Argument)))
    ensures Delete(t, store, []) == Effect(store, Some(Registered(Argument)))
    ensures t.cdc.marshal(obj.value) == Success(v) && t.afterSave == [] ==>
              Create(t, store, [], obj) == Effect(store[[t.prefix] := v], None)
  {
    assert [t.prefix] + [] == [t.prefix];
  }

  /** `Has` is true exactly when `GetOne` finds something to decode. */
  lemma HasIffFound<V>(t: Table<V>, store: Store, rowID: RowID)
    requires |rowID| > 0 && NeverNotFound(t.cdc)
    ensures Has(t, store, rowID) <==> GetOne(t, store, rowID, NewModel(t)) != Failure(Registered(NotFound))
  {
    GetNotFoundIff(Getter(t), store, rowID);
  }

  /** `Has` is true for a stored row, and also when only a longer key starts with it. */
  lemma HasStoredOrLonger<V>(t: Table<V>, store: Store, rowID: RowID, w: seq<byte>)
    ensures TableKey(t, rowID) in store ==> Has(t, store, rowID)
    ensures Has(t, map[TableKey(t, rowID) + [0] := w], rowID)
  {
    var k := TableKey(t, rowID);
    assert IsPrefix(k, k);
    assert IsPrefix(k, k + [0]) by {
      assert (k + [0])[..|k|] == k;
    }
  }

  /** A cursor: the row getter that loads each key, and the keys still to visit. `Invalid` never yields. */
  datatype Iterator<!V> = Invalid | Cursor(getter: RowGetter<V>, keys: seq<Key>)

  /** A key within [start, end); a missing bound does not limit. */
  predicate InRange(k: Key, start: Option<Key>, end: Option<Key>) {
    (start.None? || !Less(k, start.value)) && (end.None? || Less(k, end.value))
  }

  function Domain(store: Store, start: Option<Key>, end: Option<Key>): (d: set<Key>)
    ensures forall k :: k in d <==> k in store && InRange(k, start, end)
  {
    set k | k in store && InRange(k, start, end)
  }

  /** Both bounds given and start not before end. */
  predicate BadRange(start: Option<Key>, end: Option<Key>) {
    start.Some? && end.Some? && Compare(start.value, end.value) >= 0
  }

  /**
   `Table.PrefixScan`: an argument error and the invalid iterator when both
   bounds are given and start is not before end; otherwise a cursor over the
   keys of the given store in [start, end), ascending, without the table
   prefix being added, each resolved later through the table's row getter.
   */
  function PrefixScan<V>(t: Table<V>, store: Store, start: Option<Key>, end: Option<Key>): (r: (Iterator<V>, Option<Error>))
    ensures r.1.Some? <==> start.Some? && end.Some? && !Less(start.value, end.value)
    ensures r.1.Some? ==> r.0.Invalid? && r.1 == Some(Registered(Argument))
    ensures r.1.None? ==> r.0.Cursor? && r.0.getter == Getter(t) && StrictlyAscending(r.0.keys)
                          && forall k :: k in r.0.keys <==> k in store && InRange(k, start, end)
  {
    if BadRange(start, end) then (Invalid, Some(Registered(Argument)))
    else (Cursor(Getter(t), Ascending(Domain(store, start, end))), None)
  }

  /** `Table.ReversePrefixScan`: the same check, and the same keys in descending order. */
  function ReversePrefixScan<V>(t: Table<V>, store: Store, start: Option<Key>, end: Option<Key>): (r: (Iterator<V>, Option<Error>))
    ensures r.1.Some? <==> start.Some? && end.Some? && !Less(start.value, end.value)
    ensures r.1.Some? ==> r.0.Invalid? && r.1 == Some(Registered(Argument))
    ensures r.1.None? ==> r.0.Cursor? && r.0.getter == Getter(t) && StrictlyDescending(r.0.keys)
                          && forall k :: k in r.0.keys <==> k in store && InRange(k, start, end)
  {
    if BadRange(start, end) then (Invalid, Some(Registered(Argument)))
    else (Cursor(Getter(t), Descending(Domain(store, start, end))), None)
  }

  /** The two scans visit the same keys, one in the reverse order of the other. */
  lemma ScansMirror<V>(t: Table<V>, store: Store, start: Option<Key>, end: Option<Key>)
    requires !BadRange(start, end)
    ensures ReversePrefixScan(t, store, start, end).0.keys == Reverse(PrefixScan(t, store, start, end).0.keys)
  {
  }

  /** What `LoadNext` gives: the row ID (`None` for nil), the load's outcome and the cursor after the call. */
  datatype Next<!V> = Next(rowID: Option<RowID>, loaded: Result<V, Error>, rest: Iterator<V>)

  predicate Valid<V>(it: Iterator<V>) {
    it.Cursor? && |it.keys| > 0
  }

  /** The keys a cursor has yet to yield. */
  function Remaining<V>(it: Iterator<V>): seq<Key> {
    if it.Cursor? then it.keys else []
  }

  /**
   `typeSafeIterator.LoadNext`: on an exhausted cursor, done and no move;
   otherwise the current key is taken, the cursor moves once, and the key is
   loaded through the row getter. The invalid iterator answers
   iterator-invalid every time.
   */
  function LoadNext<V>(it: Iterator<V>, store: Store, dest: DynType): (r: Next<V>)
    ensures r.rowID.None? <==> !Valid(it)
    ensures !Valid(it) ==> r.rest == it && r.loaded.Failure?
    ensures it.Cursor? && !Valid(it) ==> r.loaded == Failure(Registered(IteratorDone))
    ensures Valid(it) ==> r.rowID == Some(it.keys[0]) && Remaining(it) == [it.keys[0]] + Remaining(r.rest)
                          && r.rest.Cursor? && r.rest.getter == it.getter
                          && r.loaded == Get(it.getter, store, it.keys[0], dest)
  {
    match it
    case Invalid => Next(None, Failure(Registered(IteratorInvalid)), it)
    case Cursor(getter, keys) =>
      if |keys| == 0 then Next(None, Failure(Registered(IteratorDone)), it)
      else Next(Some(keys[0]), Get(getter, store, keys[0], dest), Cursor(getter, keys[1..]))
  }

  /**
   Calling `LoadNext` until it yields no row ID: the row IDs come out in
   the cursor's order, each with the row getter's answer for it.
   */
  method Drain<V>(it: Iterator<V>, store: Store, dest: DynType) returns (ids: seq<RowID>, loaded: seq<Result<V, Error>>)
    ensures ids == Remaining(it) && |loaded| == |ids|
    ensures it.Cursor? ==> forall i | 0 <= i < |ids| :: loaded[i] == Get(it.getter, store, ids[i], dest)
  {
    ids, loaded := [], [];
    if it.Invalid? {
      return;
    }
    var keys := it.keys;
    var cur := it;
    var j := 0;
    while Valid(cur)
      invariant 0 <= j <= |keys| && cur == Cursor(it.getter, keys[j..])
      invariant ids == keys[..j] && |loaded| == j
      invariant forall i | 0 <= i < j :: loaded[i] == Get(it.getter, store, keys[i], dest)
      decreases |keys| - j
    {
      var next := LoadNext(cur, store, dest);
      ids := ids + [next.rowID.value];
      loaded := loaded + [next.loaded];
      cur := next.rest;
      j := j + 1;
    }
  }

  /**
   A forward scan read to the end: every key of the store within the bounds,
   ascending, each looked up under the table prefix.
   */
  method ScanAll<V>(t: Table<V>, store: Store, start: Option<Key>, end: Option<Key>, dest: DynType)
    returns (ids: seq<RowID>, loaded: seq<Result<V, Error>>, err: Option<Error>)
    ensures err.Some? <==> BadRange(start, end)
    ensures err.Some? ==> ids == [] && err == Some(Registered(Argument))
    ensures StrictlyAscending(ids) && forall k :: k in ids <==> k in store && InRange(k, start, end) && err.None?
    ensures |loaded| == |ids| && forall i | 0 <= i < |ids| :: loaded[i] == GetOne(t, store, ids[i], dest)
  {
    var scan := PrefixScan(t, store, start, end);
    err := scan.1;
    ids, loaded := Drain(scan.0, store, dest);
  }

  /**
   The scan walks the store it is given, not the table's namespace: a row
   stored under `[p, 7]` is yielded as row ID `[p, 7]`, which is then looked
   up as `[p, p, 7]` and not found.
   */
  lemma ScanKeysNotUnprefixed<V>(t: Table<V>, w: seq<byte>, dest: DynType)
    requires AssertCorrectType(t.model, dest).None?
    ensures var store := map[[t.prefix, 7] := w];
            var next := LoadNext(PrefixScan(t, store, None, None).0, store, dest);
            next.rowID == Some([t.prefix, 7]) && next.loaded == Failure(Registered(NotFound))
  {
    var store := map[[t.prefix, 7] := w];
    var it := PrefixScan(t, store, None, None).0;
    assert [t.prefix, 7] in it.keys;
    assert |it.keys| == 1;
    var p := [t.prefix] + [t.prefix, 7];
    assert !IsPrefix(p, [t.prefix, 7]);
    assert PrefixRange(store, p) == {};
  }
}
