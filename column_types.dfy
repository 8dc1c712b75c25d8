/**
 * `_fnColumnTypes` (`src/core/core.columns.js`): every column without a
 * type takes its manual type, else the first registered detector that
 * accepts its data, else `"string"`. Detectors are opaque; `impl` gives the
 * model each registered detector's `init`, `oneOf` and `allOf` functions.
 */
module ColumnTypes {
  import opened Wrappers
  import opened JsValue
  import opened Table
  import Data
  import TypeRegistry

  /**
   * A detector's functions: `init(settings, column, index)` (optional),
   * `oneOf(value)` (optional) and `allOf(value)`, which is the detector
   * itself when it is a plain function.
   */
  datatype DetectFns = DetectFns(init: Option<(Column, nat) -> Value>,
                                 oneOf: Option<Value -> Value>,
                                 allOf: Value -> Value)

  /** `_typeResult`: `true` stands for the detector's own type name. */
  function TypeResult(name: string, res: Value): (r: Value)
    ensures res != Bool(true) ==> r == res
    ensures res == Bool(true) ==> r == Str(name)
  {
    if res == Bool(true) then Str(name) else res
  }

  /** The `"type"` data of a cell, which detection looks at. */
  function TypeData(t: TableState, env: Env, types: TypeRegistry.Types, k: nat, i: nat): Value
    requires i < |t.columns|
  {
    Data.CellData(t, env, types, k, i, Some("type"))
  }

  /**
   * The state of one detector's pass over the rows: the `oneOf` verdict so
   * far, the last `allOf` verdict, the per-column cache of type data and the
   * rows whose type data was fetched, in fetch order.
   */
  datatype Scan = Scan(one: Value, det: Value, cache: map<nat, Value>, log: seq<nat>)

  /** `cache[k]`, fetched first when it is `undefined`. */
  function Fetch(t: TableState, env: Env, types: TypeRegistry.Types, i: nat, k: nat,
                 cache: map<nat, Value>, log: seq<nat>): (Value, map<nat, Value>, seq<nat>)
    requires i < |t.columns|
  {
    if k in cache && cache[k] != Undefined then (cache[k], cache, log)
    else
      var v := TypeData(t, env, types, k, i);
      (v, cache[k := v], log + [k])
  }

  /** One live row `k`: the new state, and whether the scan breaks out after it. */
  function ScanStep(t: TableState, env: Env, types: TypeRegistry.Types, i: nat, name: string, d: DetectFns,
                    htmlSlot: bool, k: nat, st: Scan): (Scan, bool)
    requires i < |t.columns|
  {
    var f := Fetch(t, env, types, i, k, st.cache, st.log);
    var c := f.0;
    var one := if d.oneOf.Some? && !Truthy(st.one) then TypeResult(name, d.oneOf.value(c)) else st.one;
    var det := TypeResult(name, d.allOf(c));
    var stop := (!Truthy(det) && !htmlSlot) || (det == Str("html") && !IsEmpty(c));
    (Scan(one, det, f.1, f.2), stop)
  }

  /**
   * The loop over rows `k..` for one detector: null slots are skipped; a
   * failing `allOf` ends the scan except in the `html` slot (third from the
   * end), and a non-empty `html` match ends it there.
   */
  function ScanFrom(t: TableState, env: Env, types: TypeRegistry.Types, i: nat, name: string, d: DetectFns,
                    htmlSlot: bool, k: nat, st: Scan): Scan
    requires i < |t.columns| && k <= |t.data|
    decreases |t.data| - k
  {
    if k == |t.data| then st
    else if !Live(t, k) then ScanFrom(t, env, types, i, name, d, htmlSlot, k + 1, st)
    else
      var step := ScanStep(t, env, types, i, name, d, htmlSlot, k, st);
      if step.1 then step.0 else ScanFrom(t, env, types, i, name, d, htmlSlot, k + 1, step.0)
  }

  /** A detector with `oneOf` needs one match and an `allOf` match; without, the `allOf` match alone. */
  predicate Accepted(d: DetectFns, st: Scan) {
    (d.oneOf.Some? && Truthy(st.one) && Truthy(st.det)) || (d.oneOf.None? && Truthy(st.det))
  }

  /**
   * Detector `j` for column `i`: whether it accepts, the type it gives, and
   * the cache and fetch log afterwards. A truthy `init` result is taken
   * without looking at the data.
   */
  function DetectOne(t: TableState, env: Env, types: TypeRegistry.Types, impl: Value -> DetectFns,
                     i: nat, j: nat, cache: map<nat, Value>, log: seq<nat>): (bool, Value, map<nat, Value>, seq<nat>)
    requires i < |t.columns| && j < |types.detect|
  {
    var name := types.detect[j].name;
    var d := impl(types.detect[j].fn);
    var init := if d.init.Some? then TypeResult(name, d.init.value(t.columns[i], i)) else Null;
    if Truthy(init) then (true, init, cache, log)
    else
      var st := ScanFrom(t, env, types, i, name, d, j == |types.detect| - 3, 0,
                         Scan(Bool(false), init, cache, log));
      (Accepted(d, st), st.det, st.cache, st.log)
  }

  /**
   * Detectors `j..` for column `i`: the type found (`null` when none) with
   * the cache and fetch log afterwards.
   */
  function DetectFrom(t: TableState, env: Env, types: TypeRegistry.Types, impl: Value -> DetectFns,
                      i: nat, j: nat, cache: map<nat, Value>, log: seq<nat>): (Value, map<nat, Value>, seq<nat>)
    requires i < |t.columns| && j <= |types.detect|
    decreases |types.detect| - j
  {
    if j == |types.detect| then (Null, cache, log)
    else
      var o := DetectOne(t, env, types, impl, i, j, cache, log);
      if o.0 then (o.1, o.2, o.3)
      else DetectFrom(t, env, types, impl, i, j + 1, o.2, o.3)
  }

  /** The type detected for column `i`, with `"string"` as the fall-back. */
  function ColumnType(t: TableState, env: Env, types: TypeRegistry.Types, impl: Value -> DetectFns, i: nat): (r: Value)
    requires i < |t.columns|
    ensures Truthy(r)
  {
    var found := DetectFrom(t, env, types, impl, i, 0, map[], []).0;
    if Truthy(found) then found else Str("string")
  }

  function SetType(t: TableState, i: nat, v: Value): (r: TableState)
    requires i < |t.columns|
  {
    t.(columns := t.columns[i := t.columns[i].(sType := v)])
  }

  /**
   * Column `i` of the columns loop: an untyped column takes its manual type,
   * else the detected one; `None` when detection is off and the column has
   * neither, which ends the whole function.
   */
  function TypeStep(t: TableState, env: Env, types: TypeRegistry.Types, impl: Value -> DetectFns, i: nat): (r: Option<TableState>)
    requires i < |t.columns|
    ensures r.Some? ==> |r.value.columns| == |t.columns|
  {
    var col := t.columns[i];
    if Truthy(col.sType) then Some(t)
    else if Truthy(col.manualType) then Some(SetType(t, i, col.manualType))
    else if !t.features.typeDetect then None
    else Some(SetType(t, i, ColumnType(t, env, types, impl, i)))
  }

  /** The columns loop from column `i`. */
  function TypesFrom(t: TableState, env: Env, types: TypeRegistry.Types, impl: Value -> DetectFns, i: nat): TableState
    requires i <= |t.columns|
    decreases |t.columns| - i
  {
    if i == |t.columns| then t
    else match TypeStep(t, env, types, impl, i)
      case None => t
      case Some(t1) => TypesFrom(t1, env, types, impl, i + 1)
  }

  // ---- the columns loop ----

  /** Detection reads only the data, the column itself and the registry. */
  lemma {:induction false} ColumnTypeLocal(t: TableState, t': TableState, env: Env, types: TypeRegistry.Types,
                                           impl: Value -> DetectFns, i: nat)
    requires i < |t.columns| == |t'.columns| && t.data == t'.data && t.columns[i] == t'.columns[i]
    ensures ColumnType(t, env, types, impl, i) == ColumnType(t', env, types, impl, i)
  {
    DetectLocal(t, t', env, types, impl, i, 0, map[], []);
  }

  lemma {:induction false} ScanLocal(t: TableState, t': TableState, env: Env, types: TypeRegistry.Types, i: nat,
                                     name: string, d: DetectFns, h: bool, k: nat, st: Scan)
    requires i < |t.columns| == |t'.columns| && t.data == t'.data && t.columns[i] == t'.columns[i]
    requires k <= |t.data|
    ensures ScanFrom(t, env, types, i, name, d, h, k, st) == ScanFrom(t', env, types, i, name, d, h, k, st)
    decreases |t.data| - k
  {
    if k < |t.data| {
      assert TypeData(t, env, types, k, i) == TypeData(t', env, types, k, i);
      var step := ScanStep(t, env, types, i, name, d, h, k, st);
      assert step == ScanStep(t', env, types, i, name, d, h, k, st);
      ScanLocal(t, t', env, types, i, name, d, h, k + 1, st);
      ScanLocal(t, t', env, types, i, name, d, h, k + 1, step.0);
    }
  }

  lemma DetectOneLocal(t: TableState, t': TableState, env: Env, types: TypeRegistry.Types,
                       impl: Value -> DetectFns, i: nat, j: nat, cache: map<nat, Value>, log: seq<nat>)
    requires i < |t.columns| == |t'.columns| && t.data == t'.data && t.columns[i] == t'.columns[i]
    requires j < |types.detect|
    ensures DetectOne(t, env, types, impl, i, j, cache, log) == DetectOne(t', env, types, impl, i, j, cache, log)
  {
    var name := types.detect[j].name;
    var d := impl(types.detect[j].fn);
    var init := if d.init.Some? then TypeResult(name, d.init.value(t.columns[i], i)) else Null;
    ScanLocal(t, t', env, types, i, name, d, j == |types.detect| - 3, 0, Scan(Bool(false), init, cache, log));
  }

  lemma {:induction false} DetectLocal(t: TableState, t': TableState, env: Env, types: TypeRegistry.Types,
                                       impl: Value -> DetectFns, i: nat, j: nat, cache: map<nat, Value>, log: seq<nat>)
    requires i < |t.columns| == |t'.columns| && t.data == t'.data && t.columns[i] == t'.columns[i]
    requires j <= |types.detect|
    ensures DetectFrom(t, env, types, impl, i, j, cache, log) == DetectFrom(t', env, types, impl, i, j, cache, log)
    decreases |types.detect| - j
  {
    if j < |types.detect| {
      DetectOneLocal(t, t', env, types, impl, i, j, cache, log);
      var o := DetectOne(t, env, types, impl, i, j, cache, log);
      DetectLocal(t, t', env, types, impl, i, j + 1, o.2, o.3);
    }
  }

  /** The type column `i` ends up with when the loop does not stop there. */
  function NewType(t: TableState, env: Env, types: TypeRegistry.Types, impl: Value -> DetectFns, i: nat): Value
    requires i < |t.columns|
  {
    var col := t.columns[i];
    if Truthy(col.sType) then col.sType
    else if Truthy(col.manualType) then col.manualType
    else ColumnType(t, env, types, impl, i)
  }

  /**
   * One column of the loop stops exactly on an untyped column without a
   * manual type when detection is off, and otherwise sets that column's
   * `sType` to its new type and changes nothing else.
   */
  lemma TypeStepShape(t: TableState, env: Env, types: TypeRegistry.Types, impl: Value -> DetectFns, i: nat)
    requires i < |t.columns|
    ensures var r := TypeStep(t, env, types, impl, i);
            (r.None? <==> !Truthy(t.columns[i].sType) && !Truthy(t.columns[i].manualType) && !t.features.typeDetect) &&
            (r.Some? ==> r.value == SetType(t, i, NewType(t, env, types, impl, i)))
  {
    var col := t.columns[i];
    if Truthy(col.sType) {
      assert t.columns[i := col.(sType := col.sType)] == t.columns;
    }
  }

  /**
   * `r` is `t` with only `sType` changed, only on columns that had none and
   * only from column `i` on.
   */
  ghost predicate OnlyTypesSet(t: TableState, r: TableState, i: nat) {
    && r == t.(columns := r.columns) && |r.columns| == |t.columns|
    && (forall c :: 0 <= c < |t.columns| ==> r.columns[c] == t.columns[c].(sType := r.columns[c].sType))
    && (forall c :: 0 <= c < |t.columns| && c < i ==> r.columns[c] == t.columns[c])
    && (forall c :: i <= c < |t.columns| && Truthy(t.columns[c].sType) ==> r.columns[c] == t.columns[c])
  }

  lemma OnlyTypesSetStep(t: TableState, t1: TableState, r: TableState, i: nat, v: Value)
    requires i < |t.columns| && t1 == SetType(t, i, v) && (Truthy(t.columns[i].sType) ==> v == t.columns[i].sType)
    requires OnlyTypesSet(t1, r, i + 1)
    ensures OnlyTypesSet(t, r, i)
  {
  }

  /**
   * Only `sType` changes, only on columns that had none, and every other
   * part of the settings is untouched; columns before `i` are not visited.
   */
  lemma {:induction false} TypesFromShape(t: TableState, env: Env, types: TypeRegistry.Types,
                                          impl: Value -> DetectFns, i: nat)
    requires i <= |t.columns|
    ensures OnlyTypesSet(t, TypesFrom(t, env, types, impl, i), i)
    decreases |t.columns| - i
  {
    if i < |t.columns| {
      TypeStepShape(t, env, types, impl, i);
      var o := TypeStep(t, env, types, impl, i);
      if o.Some? {
        TypesFromShape(o.value, env, types, impl, i + 1);
        OnlyTypesSetStep(t, o.value, TypesFrom(o.value, env, types, impl, i + 1), i, NewType(t, env, types, impl, i));
      }
    }
  }

  lemma {:induction false} TypesFromNew(t: TableState, env: Env, types: TypeRegistry.Types,
                                        impl: Value -> DetectFns, i: nat)
    requires i <= |t.columns| && t.features.typeDetect
    ensures var r := TypesFrom(t, env, types, impl, i);
            |r.columns| == |t.columns| &&
            forall c :: i <= c < |t.columns| ==> r.columns[c].sType == NewType(t, env, types, impl, c)
    decreases |t.columns| - i
  {
    TypesFromShape(t, env, types, impl, i);
    if i < |t.columns| {
      TypeStepShape(t, env, types, impl, i);
      var t1 := TypeStep(t, env, types, impl, i).value;
      TypesFromNew(t1, env, types, impl, i + 1);
      TypesFromShape(t1, env, types, impl, i + 1);
      NewTypeLater(t, t1, env, types, impl, i);
    }
  }

  /** Setting column `i`'s type leaves the new types of the later columns as they were. */
  lemma NewTypeLater(t: TableState, t1: TableState, env: Env, types: TypeRegistry.Types,
                     impl: Value -> DetectFns, i: nat)
    requires i < |t.columns| && t1 == SetType(t, i, NewType(t, env, types, impl, i))
    ensures forall c :: i < c < |t.columns| ==> NewType(t1, env, types, impl, c) == NewType(t, env, types, impl, c)
  {
    forall c | i < c < |t.columns|
      ensures NewType(t1, env, types, impl, c) == NewType(t, env, types, impl, c)
    {
      ColumnTypeLocal(t1, t, env, types, impl, c);
    }
  }

  /**
   * With detection on, every column ends up typed: a typed column keeps its
   * type, an untyped one takes its manual type when it has one and the
   * detected type otherwise.
   */
  lemma TypesAssigned(t: TableState, env: Env, types: TypeRegistry.Types,
                      impl: Value -> DetectFns, i: nat)
    requires i <= |t.columns| && t.features.typeDetect
    ensures var r := TypesFrom(t, env, types, impl, i);
            |r.columns| == |t.columns| &&
            forall c :: i <= c < |t.columns| ==>
              Truthy(r.columns[c].sType) &&
              r.columns[c].sType == (if Truthy(t.columns[c].sType) then t.columns[c].sType
                                     else if Truthy(t.columns[c].manualType) then t.columns[c].manualType
                                     else ColumnType(t, env, types, impl, c))
  {
    TypesFromNew(t, env, types, impl, i);
  }

  /** The first column from `i` that has neither a type nor a manual type. */
  predicate StopsAt(t: TableState, i: nat, c0: nat) {
    i <= c0 < |t.columns| && !Truthy(t.columns[c0].sType) && !Truthy(t.columns[c0].manualType) &&
    forall c :: i <= c < c0 ==> Truthy(t.columns[c].sType) || Truthy(t.columns[c].manualType)
  }

  /** Column `c0` and all after it are as in `t`, and the columns `i..c0` have a type. */
  ghost predicate StoppedAt(t: TableState, r: TableState, i: nat, c0: nat) {
    && |r.columns| == |t.columns|
    && (forall c :: c0 <= c < |t.columns| ==> r.columns[c] == t.columns[c])
    && (forall c :: i <= c < c0 && c < |t.columns| ==> Truthy(r.columns[c].sType))
  }

  lemma StopsAtSet(t: TableState, i: nat, c0: nat, v: Value)
    requires StopsAt(t, i, c0) && i < c0
    ensures StopsAt(SetType(t, i, v), i + 1, c0)
  {
  }

  lemma StoppedStep(t: TableState, t1: TableState, r: TableState, i: nat, c0: nat, v: Value)
    requires StopsAt(t, i, c0) && i < c0 && t1 == SetType(t, i, v) && Truthy(v)
    requires StoppedAt(t1, r, i + 1, c0) && OnlyTypesSet(t1, r, i + 1)
    ensures StoppedAt(t, r, i, c0)
  {
  }

  /**
   * With detection off, the function returns at the first column with
   * neither a type nor a manual type: that column and all after it are left
   * as they were, while the columns before it have a type.
   */
  lemma {:induction false} DetectionOffStops(t: TableState, env: Env, types: TypeRegistry.Types,
                                             impl: Value -> DetectFns, i: nat, c0: nat)
    requires !t.features.typeDetect && StopsAt(t, i, c0)
    ensures StoppedAt(t, TypesFrom(t, env, types, impl, i), i, c0)
    decreases c0 - i
  {
    TypeStepShape(t, env, types, impl, i);
    if i < c0 {
      var v := NewType(t, env, types, impl, i);
      var t1 := TypeStep(t, env, types, impl, i).value;
      StopsAtSet(t, i, c0, v);
      DetectionOffStops(t1, env, types, impl, i + 1, c0);
      TypesFromShape(t1, env, types, impl, i + 1);
      StoppedStep(t, t1, TypesFrom(t1, env, types, impl, i + 1), i, c0, v);
    }
  }

  // ---- the cache ----

  /**
   * The cache holds the type data of live rows only, a row is cached iff it
   * was fetched, and a row whose type data is defined was fetched once.
   */
  ghost predicate CacheOk(t: TableState, env: Env, types: TypeRegistry.Types, i: nat, cache: map<nat, Value>, log: seq<nat>)
    requires i < |t.columns|
  {
    && (forall k :: k in cache ==> Live(t, k) && cache[k] == TypeData(t, env, types, k, i))
    && (forall k :: k in cache <==> k in log)
    && (forall k :: k in cache && cache[k] != Undefined ==> multiset(log)[k] == 1)
  }

  /** A fetch from a sound cache gives the row's type data and keeps the cache sound. */
  lemma FetchOk(t: TableState, env: Env, types: TypeRegistry.Types, i: nat, k: nat, cache: map<nat, Value>, log: seq<nat>)
    requires i < |t.columns| && Live(t, k) && CacheOk(t, env, types, i, cache, log)
    ensures var f := Fetch(t, env, types, i, k, cache, log);
            f.0 == TypeData(t, env, types, k, i) && CacheOk(t, env, types, i, f.1, f.2)
  {
    if !(k in cache && cache[k] != Undefined) {
      var v := TypeData(t, env, types, k, i);
      var log' := log + [k];
      assert multiset(log') == multiset(log) + multiset{k};
      if k !in cache {
        assert k !in log;
        assert multiset(log)[k] == 0;
      }
    }
  }

  /** Every cached value is the row's type data; all that the scans' answers rely on. */
  ghost predicate CacheAgrees(t: TableState, env: Env, types: TypeRegistry.Types, i: nat, cache: map<nat, Value>)
    requires i < |t.columns|
  {
    forall k :: k in cache ==> cache[k] == TypeData(t, env, types, k, i)
  }

  /** A fetch through an agreeing cache gives the row's type data and keeps the cache agreeing. */
  lemma FetchAgrees(t: TableState, env: Env, types: TypeRegistry.Types, i: nat, k: nat, cache: map<nat, Value>, log: seq<nat>)
    requires i < |t.columns| && CacheAgrees(t, env, types, i, cache)
    ensures var f := Fetch(t, env, types, i, k, cache, log);
            f.0 == TypeData(t, env, types, k, i) && CacheAgrees(t, env, types, i, f.1)
  {
  }

  lemma {:induction false} ScanOk(t: TableState, env: Env, types: TypeRegistry.Types, i: nat, name: string,
                                  d: DetectFns, h: bool, k: nat, st: Scan)
    requires i < |t.columns| && k <= |t.data| && CacheOk(t, env, types, i, st.cache, st.log)
    ensures var r := ScanFrom(t, env, types, i, name, d, h, k, st);
            CacheOk(t, env, types, i, r.cache, r.log)
    decreases |t.data| - k
  {
    if k < |t.data| {
      if Live(t, k) {
        FetchOk(t, env, types, i, k, st.cache, st.log);
        ScanOk(t, env, types, i, name, d, h, k + 1, ScanStep(t, env, types, i, name, d, h, k, st).0);
      } else {
        ScanOk(t, env, types, i, name, d, h, k + 1, st);
      }
    }
  }

  lemma DetectOneOk(t: TableState, env: Env, types: TypeRegistry.Types, impl: Value -> DetectFns,
                    i: nat, j: nat, cache: map<nat, Value>, log: seq<nat>)
    requires i < |t.columns| && j < |types.detect| && CacheOk(t, env, types, i, cache, log)
    ensures var o := DetectOne(t, env, types, impl, i, j, cache, log);
            CacheOk(t, env, types, i, o.2, o.3)
  {
    var name := types.detect[j].name;
    var d := impl(types.detect[j].fn);
    var init := if d.init.Some? then TypeResult(name, d.init.value(t.columns[i], i)) else Null;
    ScanOk(t, env, types, i, name, d, j == |types.detect| - 3, 0, Scan(Bool(false), init, cache, log));
  }

  lemma {:induction false} DetectOk(t: TableState, env: Env, types: TypeRegistry.Types, impl: Value -> DetectFns,
                                    i: nat, j: nat, cache: map<nat, Value>, log: seq<nat>)
    requires i < |t.columns| && j <= |types.detect| && CacheOk(t, env, types, i, cache, log)
    ensures var r := DetectFrom(t, env, types, impl, i, j, cache, log);
            CacheOk(t, env, types, i, r.1, r.2)
    decreases |types.detect| - j
  {
    if j < |types.detect| {
      DetectOneOk(t, env, types, impl, i, j, cache, log);
      var o := DetectOne(t, env, types, impl, i, j, cache, log);
      if !o.0 {
        DetectOk(t, env, types, impl, i, j + 1, o.2, o.3);
      }
    }
  }

  /**
   * Over all detectors tried for a column, null slots are never fetched and
   * a cell whose type data is defined is fetched exactly once.
   */
  lemma FetchedOnce(t: TableState, env: Env, types: TypeRegistry.Types, impl: Value -> DetectFns, i: nat)
    requires i < |t.columns|
    ensures var r := DetectFrom(t, env, types, impl, i, 0, map[], []);
            (forall k :: k in r.2 ==> Live(t, k)) &&
            (forall k :: k in r.2 && TypeData(t, env, types, k, i) != Undefined ==> multiset(r.2)[k] == 1)
  {
    DetectOk(t, env, types, impl, i, 0, map[], []);
  }

  // ---- what a detector accepts ----

  /** The built-in `html` detector: both tests answer with a boolean. */
  function HtmlDetector(): DetectFns {
    DetectFns(None, Some(v => Bool(TypeRegistry.HtmlOneOf(v))), v => Bool(TypeRegistry.HtmlAllOf(v)))
  }

  predicate SomeHtml(t: TableState, env: Env, types: TypeRegistry.Types, i: nat, k: nat)
    requires i < |t.columns|
  {
    exists k' :: k <= k' < |t.data| && Live(t, k') && TypeRegistry.HtmlOneOf(TypeData(t, env, types, k', i))
  }

  /** One live row in the `html` slot, before any `oneOf` match: a match stops the scan and accepts. */
  lemma HtmlStep(t: TableState, env: Env, types: TypeRegistry.Types, i: nat, k: nat, st: Scan)
    requires i < |t.columns| && CacheAgrees(t, env, types, i, st.cache) && !Truthy(st.one)
    ensures var step := ScanStep(t, env, types, i, "html", HtmlDetector(), true, k, st);
            (TypeRegistry.HtmlOneOf(TypeData(t, env, types, k, i)) ==> step.1 && Accepted(HtmlDetector(), step.0)) &&
            (!TypeRegistry.HtmlOneOf(TypeData(t, env, types, k, i)) ==>
               !step.1 && !Truthy(step.0.one) && CacheAgrees(t, env, types, i, step.0.cache))
  {
    FetchAgrees(t, env, types, i, k, st.cache, st.log);
  }

  lemma {:induction false} HtmlScanFound(t: TableState, env: Env, types: TypeRegistry.Types, i: nat, k: nat, st: Scan)
    requires i < |t.columns| && k <= |t.data| && CacheAgrees(t, env, types, i, st.cache) && !Truthy(st.one)
    ensures Accepted(HtmlDetector(), ScanFrom(t, env, types, i, "html", HtmlDetector(), true, k, st)) ==>
            SomeHtml(t, env, types, i, k)
    decreases |t.data| - k
  {
    if k < |t.data| {
      if Live(t, k) {
        HtmlStep(t, env, types, i, k, st);
        if !TypeRegistry.HtmlOneOf(TypeData(t, env, types, k, i)) {
          HtmlScanFound(t, env, types, i, k + 1, ScanStep(t, env, types, i, "html", HtmlDetector(), true, k, st).0);
        }
      } else {
        HtmlScanFound(t, env, types, i, k + 1, st);
      }
    }
  }

  lemma {:induction false} HtmlScanReached(t: TableState, env: Env, types: TypeRegistry.Types, i: nat, k: nat, st: Scan, w: nat)
    requires i < |t.columns| && k <= w < |t.data| && CacheAgrees(t, env, types, i, st.cache) && !Truthy(st.one)
    requires Live(t, w) && TypeRegistry.HtmlOneOf(TypeData(t, env, types, w, i))
    ensures Accepted(HtmlDetector(), ScanFrom(t, env, types, i, "html", HtmlDetector(), true, k, st))
    decreases w - k
  {
    if Live(t, k) {
      HtmlStep(t, env, types, i, k, st);
      if k < w && !TypeRegistry.HtmlOneOf(TypeData(t, env, types, k, i)) {
        HtmlScanReached(t, env, types, i, k + 1, ScanStep(t, env, types, i, "html", HtmlDetector(), true, k, st).0, w);
      }
    } else {
      HtmlScanReached(t, env, types, i, k + 1, st, w);
    }
  }

  lemma HtmlScan(t: TableState, env: Env, types: TypeRegistry.Types, i: nat, k: nat, st: Scan)
    requires i < |t.columns| && k <= |t.data| && CacheAgrees(t, env, types, i, st.cache) && !Truthy(st.one)
    ensures Accepted(HtmlDetector(), ScanFrom(t, env, types, i, "html", HtmlDetector(), true, k, st)) <==>
            SomeHtml(t, env, types, i, k)
  {
    HtmlScanFound(t, env, types, i, k, st);
    if SomeHtml(t, env, types, i, k) {
      var w :| k <= w < |t.data| && Live(t, w) && TypeRegistry.HtmlOneOf(TypeData(t, env, types, w, i));
      HtmlScanReached(t, env, types, i, k, st, w);
    }
  }

  /**
   * In the `html` slot the detector accepts iff some live cell is a
   * non-empty string containing `<`: plain strings mixed in do not stop it.
   */
  lemma HtmlAccepted(t: TableState, env: Env, types: TypeRegistry.Types, i: nat)
    requires i < |t.columns|
    ensures Accepted(HtmlDetector(), ScanFrom(t, env, types, i, "html", HtmlDetector(), true, 0,
                                              Scan(Bool(false), Null, map[], []))) <==>
            exists k :: 0 <= k < |t.data| && Live(t, k) && TypeRegistry.HtmlOneOf(TypeData(t, env, types, k, i))
  {
    HtmlScan(t, env, types, i, 0, Scan(Bool(false), Null, map[], []));
  }

  predicate Passes(t: TableState, env: Env, types: TypeRegistry.Types, i: nat, name: string, d: DetectFns, k: nat)
    requires i < |t.columns|
  {
    Truthy(TypeResult(name, d.allOf(TypeData(t, env, types, k, i))))
  }

  predicate PassesOne(t: TableState, env: Env, types: TypeRegistry.Types, i: nat, name: string, d: DetectFns, k: nat)
    requires i < |t.columns| && d.oneOf.Some?
  {
    Truthy(TypeResult(name, d.oneOf.value(TypeData(t, env, types, k, i))))
  }

  predicate AllPass(t: TableState, env: Env, types: TypeRegistry.Types, i: nat, name: string, d: DetectFns, k: nat)
    requires i < |t.columns|
  {
    forall k' :: k <= k' < |t.data| && Live(t, k') ==> Passes(t, env, types, i, name, d, k')
  }

  predicate SomeLive(t: TableState, k: nat) {
    exists k' :: k <= k' < |t.data| && Live(t, k')
  }

  predicate SomeOne(t: TableState, env: Env, types: TypeRegistry.Types, i: nat, name: string, d: DetectFns, k: nat)
    requires i < |t.columns| && d.oneOf.Some?
  {
    exists k' :: k <= k' < |t.data| && Live(t, k') && PassesOne(t, env, types, i, name, d, k')
  }

  /** A detector that can never be mistaken for the `html` one. */
  ghost predicate NotHtml(name: string, d: DetectFns) {
    name != "html" && forall v :: d.allOf(v) != Str("html")
  }

  /** One row outside the `html` slot: it stops the scan iff it fails `allOf`. */
  lemma PlainStep(t: TableState, env: Env, types: TypeRegistry.Types, i: nat, name: string, d: DetectFns, k: nat, st: Scan)
    requires i < |t.columns| && CacheAgrees(t, env, types, i, st.cache) && NotHtml(name, d)
    ensures var step := ScanStep(t, env, types, i, name, d, false, k, st);
            (step.1 <==> !Passes(t, env, types, i, name, d, k)) &&
            (Truthy(step.0.det) <==> Passes(t, env, types, i, name, d, k)) &&
            (Truthy(st.one) ==> Truthy(step.0.one)) &&
            (d.oneOf.Some? ==> (Truthy(step.0.one) <==> Truthy(st.one) || PassesOne(t, env, types, i, name, d, k))) &&
            (d.oneOf.None? ==> step.0.one == st.one) &&
            CacheAgrees(t, env, types, i, step.0.cache)
  {
    FetchAgrees(t, env, types, i, k, st.cache, st.log);
    assert TypeResult(name, d.allOf(TypeData(t, env, types, k, i))) != Str("html");
  }

  /** A live row at or after `k` that fails `allOf` makes the answer falsy. */
  lemma {:induction false} PlainFails(t: TableState, env: Env, types: TypeRegistry.Types, i: nat, name: string,
                                      d: DetectFns, k: nat, st: Scan, w: nat)
    requires i < |t.columns| && k <= w < |t.data| && CacheAgrees(t, env, types, i, st.cache) && NotHtml(name, d)
    requires Live(t, w) && !Passes(t, env, types, i, name, d, w)
    ensures !Truthy(ScanFrom(t, env, types, i, name, d, false, k, st).det)
    decreases w - k
  {
    if Live(t, k) {
      PlainStep(t, env, types, i, name, d, k, st);
      if Passes(t, env, types, i, name, d, k) {
        PlainFails(t, env, types, i, name, d, k + 1, ScanStep(t, env, types, i, name, d, false, k, st).0, w);
      }
    } else {
      PlainFails(t, env, types, i, name, d, k + 1, st, w);
    }
  }

  /** When every remaining live row passes, the answer is truthy iff it was or some row is left. */
  lemma {:induction false} PlainPasses(t: TableState, env: Env, types: TypeRegistry.Types, i: nat, name: string,
                                       d: DetectFns, k: nat, st: Scan)
    requires i < |t.columns| && k <= |t.data| && CacheAgrees(t, env, types, i, st.cache) && NotHtml(name, d)
    requires AllPass(t, env, types, i, name, d, k)
    ensures Truthy(ScanFrom(t, env, types, i, name, d, false, k, st).det) <==> Truthy(st.det) || SomeLive(t, k)
    decreases |t.data| - k
  {
    if k < |t.data| {
      if Live(t, k) {
        PlainStep(t, env, types, i, name, d, k, st);
        PlainPasses(t, env, types, i, name, d, k + 1, ScanStep(t, env, types, i, name, d, false, k, st).0);
        assert SomeLive(t, k);
      } else {
        PlainPasses(t, env, types, i, name, d, k + 1, st);
        if SomeLive(t, k) {
          var k' :| k <= k' < |t.data| && Live(t, k');
          assert SomeLive(t, k + 1);
        }
      }
    }
  }

  /** A recorded `oneOf` match is never lost. */
  lemma {:induction false} PlainOneKept(t: TableState, env: Env, types: TypeRegistry.Types, i: nat, name: string,
                                        d: DetectFns, k: nat, st: Scan)
    requires i < |t.columns| && k <= |t.data| && CacheAgrees(t, env, types, i, st.cache) && NotHtml(name, d)
    requires Truthy(st.one)
    ensures Truthy(ScanFrom(t, env, types, i, name, d, false, k, st).one)
    decreases |t.data| - k
  {
    if k < |t.data| {
      if Live(t, k) {
        PlainStep(t, env, types, i, name, d, k, st);
        PlainOneKept(t, env, types, i, name, d, k + 1, ScanStep(t, env, types, i, name, d, false, k, st).0);
      } else {
        PlainOneKept(t, env, types, i, name, d, k + 1, st);
      }
    }
  }

  /** Without `oneOf` the scan leaves its `oneOf` verdict alone. */
  lemma {:induction false} PlainOneUnused(t: TableState, env: Env, types: TypeRegistry.Types, i: nat, name: string,
                                          d: DetectFns, k: nat, st: Scan)
    requires i < |t.columns| && k <= |t.data| && CacheAgrees(t, env, types, i, st.cache) && NotHtml(name, d)
    requires d.oneOf.None?
    ensures ScanFrom(t, env, types, i, name, d, false, k, st).one == st.one
    decreases |t.data| - k
  {
    if k < |t.data| {
      if Live(t, k) {
        PlainStep(t, env, types, i, name, d, k, st);
        PlainOneUnused(t, env, types, i, name, d, k + 1, ScanStep(t, env, types, i, name, d, false, k, st).0);
      } else {
        PlainOneUnused(t, env, types, i, name, d, k + 1, st);
      }
    }
  }

  /** A truthy `oneOf` verdict was there before or comes from a live row. */
  lemma {:induction false} PlainOneFound(t: TableState, env: Env, types: TypeRegistry.Types, i: nat, name: string,
                                         d: DetectFns, k: nat, st: Scan)
    requires i < |t.columns| && k <= |t.data| && CacheAgrees(t, env, types, i, st.cache) && NotHtml(name, d)
    requires d.oneOf.Some?
    ensures Truthy(ScanFrom(t, env, types, i, name, d, false, k, st).one) ==> Truthy(st.one) || SomeOne(t, env, types, i, name, d, k)
    decreases |t.data| - k
  {
    if k < |t.data| {
      if Live(t, k) {
        PlainStep(t, env, types, i, name, d, k, st);
        if PassesOne(t, env, types, i, name, d, k) {
          assert SomeOne(t, env, types, i, name, d, k);
        } else {
          PlainOneFound(t, env, types, i, name, d, k + 1, ScanStep(t, env, types, i, name, d, false, k, st).0);
        }
      } else {
        PlainOneFound(t, env, types, i, name, d, k + 1, st);
      }
    }
  }

  /** When every remaining live row passes, a live row passing `oneOf` is recorded. */
  lemma {:induction false} PlainOneReached(t: TableState, env: Env, types: TypeRegistry.Types, i: nat, name: string,
                                           d: DetectFns, k: nat, st: Scan, w: nat)
    requires i < |t.columns| && k <= w < |t.data| && CacheAgrees(t, env, types, i, st.cache) && NotHtml(name, d)
    requires d.oneOf.Some? && AllPass(t, env, types, i, name, d, k) && Live(t, w) && PassesOne(t, env, types, i, name, d, w)
    ensures Truthy(ScanFrom(t, env, types, i, name, d, false, k, st).one)
    decreases w - k
  {
    if Live(t, k) {
      PlainStep(t, env, types, i, name, d, k, st);
      var next := ScanStep(t, env, types, i, name, d, false, k, st).0;
      if PassesOne(t, env, types, i, name, d, k) {
        PlainOneKept(t, env, types, i, name, d, k + 1, next);
      } else {
        PlainOneReached(t, env, types, i, name, d, k + 1, next, w);
      }
    } else {
      PlainOneReached(t, env, types, i, name, d, k + 1, st, w);
    }
  }

  lemma PlainScan(t: TableState, env: Env, types: TypeRegistry.Types, i: nat, name: string,
                  d: DetectFns, k: nat, st: Scan)
    requires i < |t.columns| && k <= |t.data| && CacheAgrees(t, env, types, i, st.cache) && NotHtml(name, d)
    ensures var r := ScanFrom(t, env, types, i, name, d, false, k, st);
            (Truthy(r.det) <==> if SomeLive(t, k) then AllPass(t, env, types, i, name, d, k) else Truthy(st.det)) &&
            (d.oneOf.Some? && AllPass(t, env, types, i, name, d, k) ==>
              (Truthy(r.one) <==> Truthy(st.one) || SomeOne(t, env, types, i, name, d, k))) &&
            (d.oneOf.None? ==> r.one == st.one)
  {
    if AllPass(t, env, types, i, name, d, k) {
      PlainPasses(t, env, types, i, name, d, k, st);
      if d.oneOf.Some? {
        PlainOneFound(t, env, types, i, name, d, k, st);
        if Truthy(st.one) {
          PlainOneKept(t, env, types, i, name, d, k, st);
        } else if SomeOne(t, env, types, i, name, d, k) {
          var w :| k <= w < |t.data| && Live(t, w) && PassesOne(t, env, types, i, name, d, w);
          PlainOneReached(t, env, types, i, name, d, k, st, w);
        }
      }
    } else {
      var w :| k <= w < |t.data| && Live(t, w) && !Passes(t, env, types, i, name, d, w);
      PlainFails(t, env, types, i, name, d, k, st, w);
      assert SomeLive(t, k);
    }
    if d.oneOf.None? {
      PlainOneUnused(t, env, types, i, name, d, k, st);
    }
  }

  /**
   * Outside the `html` slot a detector without `init` accepts a column iff
   * it has at least one row, every live cell passes `allOf`, and, when the
   * detector has `oneOf`, at least one live cell passes that.
   */
  lemma PlainAccepted(t: TableState, env: Env, types: TypeRegistry.Types, i: nat, name: string, d: DetectFns)
    requires i < |t.columns| && NotHtml(name, d)
    ensures Accepted(d, ScanFrom(t, env, types, i, name, d, false, 0, Scan(Bool(false), Null, map[], []))) <==>
            SomeLive(t, 0) && AllPass(t, env, types, i, name, d, 0) &&
            (d.oneOf.Some? ==> SomeOne(t, env, types, i, name, d, 0))
  {
    PlainScan(t, env, types, i, name, d, 0, Scan(Bool(false), Null, map[], []));
  }

  // ---- the methods ----

  /** The loop over rows for detector `j` of column `i`. */
  method ScanRows(s: Settings, env: Env, types: TypeRegistry.Types, i: nat, name: string, d: DetectFns,
                  htmlSlot: bool, st: Scan) returns (r: Scan)
    requires i < |s.aoColumns|
    ensures r == ScanFrom(s.Contents(), env, types, i, name, d, htmlSlot, 0, st)
  {
    ghost var t := s.Contents();
    r := st;
    var k := 0;
    while k < |s.aoData|
      invariant 0 <= k <= |s.aoData|
      invariant ScanFrom(t, env, types, i, name, d, htmlSlot, 0, st) == ScanFrom(t, env, types, i, name, d, htmlSlot, k, r)
    {
      if s.aoData[k].Some? {
        var c;
        if k in r.cache && r.cache[k] != Undefined {
          c := r.cache[k];
        } else {
          c := Data.CellData(s.Contents(), env, types, k, i, Some("type"));
          r := r.(cache := r.cache[k := c], log := r.log + [k]);
        }
        if d.oneOf.Some? && !Truthy(r.one) {
          r := r.(one := TypeResult(name, d.oneOf.value(c)));
        }
        r := r.(det := TypeResult(name, d.allOf(c)));
        if !Truthy(r.det) && !htmlSlot {
          return;
        }
        if r.det == Str("html") && !IsEmpty(c) {
          return;
        }
      }
      k := k + 1;
    }
  }

  /** The loop over detectors for column `i`, with its fall-back. */
  method DetectType(s: Settings, env: Env, types: TypeRegistry.Types, impl: Value -> DetectFns, i: nat)
    returns (sType: Value)
    requires i < |s.aoColumns|
    ensures sType == ColumnType(s.Contents(), env, types, impl, i)
  {
    ghost var t := s.Contents();
    var cache: map<nat, Value> := map[];
    var log: seq<nat> := [];
    sType := Null;
    var j := 0;
    while j < |types.detect|
      invariant 0 <= j <= |types.detect|
      invariant DetectFrom(t, env, types, impl, i, 0, map[], []) == DetectFrom(t, env, types, impl, i, j, cache, log)
    {
      var name := types.detect[j].name;
      var d := impl(types.detect[j].fn);
      var detected := Null;
      if d.init.Some? {
        detected := TypeResult(name, d.init.value(s.aoColumns[i], i));
        if Truthy(detected) {
          sType := detected;
          break;
        }
      }
      var st := ScanRows(s, env, types, i, name, d, j == |types.detect| - 3, Scan(Bool(false), detected, cache, log));
      if Accepted(d, st) {
        sType := st.det;
        break;
      }
      cache, log := st.cache, st.log;
      j := j + 1;
    }
    if !Truthy(sType) {
      sType := Str("string");
    }
  }

  /**
   * `_fnColumnTypes(settings)`. Setting header classes and the type's
   * renderer is not part of this model.
   */
  method ColumnTypes(s: Settings, env: Env, types: TypeRegistry.Types, impl: Value -> DetectFns)
    modifies s
    ensures s.Contents() == TypesFrom(old(s.Contents()), env, types, impl, 0)
  {
    var i := 0;
    while i < |s.aoColumns|
      invariant 0 <= i <= |s.aoColumns|
      invariant TypesFrom(old(s.Contents()), env, types, impl, 0) == TypesFrom(s.Contents(), env, types, impl, i)
    {
      var col := s.aoColumns[i];
      if !Truthy(col.sType) && Truthy(col.manualType) {
        s.aoColumns := s.aoColumns[i := col.(sType := col.manualType)];
      } else if !Truthy(col.sType) {
        if !s.oFeatures.typeDetect {
          return;
        }
        var detected := DetectType(s, env, types, impl, i);
        s.aoColumns := s.aoColumns[i := col.(sType := detected)];
      }
      i := i + 1;
    }
  }
}
