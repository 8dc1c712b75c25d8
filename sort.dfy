/**
 * The sort engine of `src/core/core.sort.js`: the per-cell sort-key cache
 * (`_fnSortData`), the multi-key comparator and the sort of the master list
 * (`_fnSort`), re-ordering a display list to follow the master
 * (`_fnSortDisplay`), and the click-to-sort state machine (`_fnSortAdd`).
 */
module Sort {
  import opened Wrappers
  import opened JsValue
  import opened Table
  import Internal
  import Text
  import TypeRegistry
  import Sorting
  import Data
  import Columns
  import ColumnTypes
  import SortAlgo

  // ---- _fnSortData ----

  /** A row's cached sort key for a column: `row._aSortData[colIdx]`, `undefined` when absent. */
  function KeyAt(row: Row, colIdx: nat): Value {
    match row.sortData
    case None => Undefined
    case Some(m) => if colIdx in m then m[colIdx] else Undefined
  }

  /**
   * How a cached key is recognised. The source tests the key's truthiness,
   * so a falsy key (`''`, `0`) counts as absent; `Presence` is the test for
   * the key being stored at all.
   */
  datatype CacheTest = Truthiness | Presence

  predicate Reusable(test: CacheTest, row: Row, colIdx: nat) {
    match test
    case Truthiness => Truthy(KeyAt(row, colIdx))
    case Presence => row.sortData.Some? && colIdx in row.sortData.value
  }

  /**
   * What `_fnSortData` looks up once per call: the custom ordering function
   * registered for the column's `sSortDataType`, the data it returned, and
   * the `-pre` formatter of the column's type.
   */
  datatype KeySource = KeySource(custom: Value, customData: Value, formatter: Value)

  function KeySourceOf(t: TableState, env: Env, types: TypeRegistry.Types, ext: Value -> Value, colIdx: nat): KeySource
    requires colIdx < |t.columns|
  {
    var column := t.columns[colIdx];
    var custom := ext(column.sSortDataType);
    var vis := match Columns.ColumnIndexToVisible(t.columns, colIdx) { case Some(v) => Num(v) case None => Null };
    var customData := if Truthy(custom) then env.call(custom, Undefined, [Num(colIdx), vis]) else Undefined;
    KeySource(custom, customData, TypeRegistry.Lookup(types.order, Text.ToJsString(column.sType) + "-pre"))
  }

  /**
   * The key computed for a row: its custom data or its `sort` cell data,
   * through the `-pre` formatter when there is one.
   */
  function FreshKey(t: TableState, env: Env, types: TypeRegistry.Types, src: KeySource, colIdx: nat, rowIdx: nat): Value {
    var cell :=
      if Truthy(src.custom) then Prop(src.customData, NatToString(rowIdx))
      else if colIdx < |t.columns| then Data.CellData(t, env, types, rowIdx, colIdx, Some("sort"))
      else Undefined;
    if Truthy(src.formatter) then env.call(src.formatter, Undefined, [cell]) else cell
  }

  /** `FreshKey` as a function of the row, read from the table as it was when the pass began. */
  function Fresher(t: TableState, env: Env, types: TypeRegistry.Types, src: KeySource, colIdx: nat): nat -> Value {
    (r: nat) => FreshKey(t, env, types, src, colIdx, r)
  }

  /** The row arena after the pass, the rows whose key was computed (in order), and whether it threw. */
  datatype KeyPass = KeyPass(data: seq<Option<Row>>, calls: seq<nat>, failed: bool)

  /** The same slots are live in two arenas. */
  predicate SameSlots(a: seq<Option<Row>>, b: seq<Option<Row>>) {
    |a| == |b| && forall r :: 0 <= r < |a| ==> (a[r].Some? <==> b[r].Some?)
  }

  /** A row with its key cache created when it was `null`. */
  function WithCache(row: Row): (r: Row)
    ensures r.sortData.Some?
  {
    if row.sortData.None? then row.(sortData := Some(map[])) else row
  }

  /** Whether the pass computes row `row`'s key. */
  predicate Computes(test: CacheTest, src: KeySource, row: Row, colIdx: nat) {
    !Reusable(test, WithCache(row), colIdx) || Truthy(src.custom)
  }

  /** The loop of `_fnSortData` from row `i` on; `keyOf` computes a row's key. */
  function KeysFrom(src: KeySource, test: CacheTest, colIdx: nat, keyOf: nat -> Value, i: nat, p: KeyPass): KeyPass
    requires i <= |p.data|
    decreases |p.data| - i
  {
    if i == |p.data| || p.failed then p
    else KeysFrom(src, test, colIdx, keyOf, i + 1, KeyStep(src, test, colIdx, keyOf, i, p))
  }

  /**
   * One slot of that loop: an empty slot is skipped; a live row gets its
   * cache, then unless the cache test lets it keep its key, either throws (a
   * custom ordering function without custom data) or stores `keyOf(i)`.
   */
  function KeyStep(src: KeySource, test: CacheTest, colIdx: nat, keyOf: nat -> Value, i: nat, p: KeyPass): (r: KeyPass)
    requires i < |p.data|
    ensures |r.data| == |p.data|
  {
    if p.data[i].None? then p
    else
      var row := WithCache(p.data[i].value);
      if !Computes(test, src, p.data[i].value, colIdx) then p.(data := p.data[i := Some(row)])
      else if Truthy(src.custom) && IsNullish(src.customData) then KeyPass(p.data[i := Some(row)], p.calls, true)
      else KeyPass(p.data[i := Some(row.(sortData := Some(row.sortData.value[colIdx := keyOf(i)])))], p.calls + [i], false)
  }

  /** `_fnSortData(settings, colIdx)` with the given cache test: the new arena, the computed rows, whether it threw. */
  function SortDataSpec(t: TableState, env: Env, types: TypeRegistry.Types, ext: Value -> Value, test: CacheTest,
                        colIdx: nat): KeyPass
    requires colIdx < |t.columns|
  {
    var src := KeySourceOf(t, env, types, ext, colIdx);
    KeysFrom(src, test, colIdx, Fresher(t, env, types, src, colIdx), 0, KeyPass(t.data, [], false))
  }

  /**
   * `_fnSortData(settings, colIdx)`: fills `_aSortData[colIdx]` for every
   * live row whose cached key is falsy (every live row when the column has
   * a custom ordering function). Returns false when reading the custom data
   * throws.
   */
  method SortData(s: Settings, env: Env, types: TypeRegistry.Types, ext: Value -> Value, colIdx: nat) returns (ok: bool)
    requires colIdx < |s.aoColumns|
    modifies s
    ensures var p := SortDataSpec(old(s.Contents()), env, types, ext, Truthiness, colIdx);
            s.Contents() == old(s.Contents()).(data := p.data) && ok == !p.failed
  {
    var t := s.Contents();
    var src := KeySourceOf(t, env, types, ext, colIdx);
    var keyOf := Fresher(t, env, types, src, colIdx);
    ghost var calls: seq<nat> := [];
    var rowIdx := 0;
    while rowIdx < |s.aoData|
      invariant 0 <= rowIdx <= |s.aoData|
      invariant s.Contents() == t.(data := s.aoData)
      invariant SortDataSpec(t, env, types, ext, Truthiness, colIdx) ==
                KeysFrom(src, Truthiness, colIdx, keyOf, rowIdx, KeyPass(s.aoData, calls, false))
    {
      ok, calls := KeyRow(s, src, colIdx, keyOf, rowIdx, calls);
      if !ok {
        return;
      }
      rowIdx := rowIdx + 1;
    }
    return true;
  }

  /** The body of the loop of `_fnSortData` for slot `rowIdx`. */
  method KeyRow(s: Settings, src: KeySource, colIdx: nat, keyOf: nat -> Value, rowIdx: nat, ghost calls: seq<nat>)
    returns (ok: bool, ghost calls': seq<nat>)
    requires rowIdx < |s.aoData|
    modifies s
    ensures s.Contents() == old(s.Contents()).(data := s.aoData) && |s.aoData| == old(|s.aoData|)
    ensures var p := KeysFrom(src, Truthiness, colIdx, keyOf, rowIdx, KeyPass(old(s.aoData), calls, false));
            if ok then p == KeysFrom(src, Truthiness, colIdx, keyOf, rowIdx + 1, KeyPass(s.aoData, calls', false))
            else p.failed && p.data == s.aoData
  {
    ok, calls' := true, calls;
    if s.aoData[rowIdx].Some? {
      var row0 := s.aoData[rowIdx].value;
      var row := WithCache(row0);
      if !Computes(Truthiness, src, row0, colIdx) {
        s.aoData := s.aoData[rowIdx := Some(row)];
      } else if Truthy(src.custom) && IsNullish(src.customData) {
        s.aoData := s.aoData[rowIdx := Some(row)];
        return false, calls;
      } else {
        s.aoData := s.aoData[rowIdx := Some(row.(sortData := Some(row.sortData.value[colIdx := keyOf(rowIdx)])))];
        calls' := calls + [rowIdx];
      }
    }
  }

  // ---- properties of the key cache ----

  /** The live rows from `i` on whose key a pass computes, in ascending order. */
  function Needing(data: seq<Option<Row>>, test: CacheTest, src: KeySource, colIdx: nat, i: nat): (r: seq<nat>)
    decreases |data| - i
  {
    if i >= |data| then []
    else (if data[i].Some? && Computes(test, src, data[i].value, colIdx) then [i] else [])
         + Needing(data, test, src, colIdx, i + 1)
  }

  /**
   * A pass touches only the key caches of live rows: no slot is revived or
   * emptied, no other row field and no other column's key changes, and
   * unless it throws every live row ends up holding a key for the column.
   */
  lemma {:induction false} KeysFrame(src: KeySource, test: CacheTest, colIdx: nat, keyOf: nat -> Value, i: nat, p: KeyPass)
    requires i <= |p.data|
    ensures var r := KeysFrom(src, test, colIdx, keyOf, i, p);
            && SameSlots(r.data, p.data)
            && (forall q :: 0 <= q < i ==> r.data[q] == p.data[q])
            && (forall q :: 0 <= q < |p.data| && p.data[q].Some? ==>
                  r.data[q].value == p.data[q].value.(sortData := r.data[q].value.sortData))
            && (forall q, c :: 0 <= q < |p.data| && p.data[q].Some? && c != colIdx ==>
                  KeyAt(r.data[q].value, c) == KeyAt(p.data[q].value, c))
            && (!r.failed && !p.failed ==> forall q :: i <= q < |p.data| && p.data[q].Some? ==>
                  r.data[q].value.sortData.Some? && colIdx in r.data[q].value.sortData.value)
    decreases |p.data| - i
  {
    KeysPrefix(src, test, colIdx, keyOf, i, p);
    if i < |p.data| && !p.failed {
      var p' := KeyStep(src, test, colIdx, keyOf, i, p);
      KeyStepFrame(src, test, colIdx, keyOf, i, p);
      KeysFrame(src, test, colIdx, keyOf, i + 1, p');
    }
  }

  /** A pass leaves the slots before `i` and the arena's length as they were. */
  lemma {:induction false} KeysPrefix(src: KeySource, test: CacheTest, colIdx: nat, keyOf: nat -> Value, i: nat, p: KeyPass)
    requires i <= |p.data|
    ensures var r := KeysFrom(src, test, colIdx, keyOf, i, p);
            |r.data| == |p.data| && forall q :: 0 <= q < i ==> r.data[q] == p.data[q]
    decreases |p.data| - i
  {
    if i < |p.data| && !p.failed {
      KeysPrefix(src, test, colIdx, keyOf, i + 1, KeyStep(src, test, colIdx, keyOf, i, p));
    }
  }

  /** One slot changes only the key cache of row `i`, and only its entry for the column. */
  lemma KeyStepFrame(src: KeySource, test: CacheTest, colIdx: nat, keyOf: nat -> Value, i: nat, p: KeyPass)
    requires i < |p.data| && !p.failed
    ensures var r := KeyStep(src, test, colIdx, keyOf, i, p);
            && SameSlots(r.data, p.data)
            && (forall q :: 0 <= q < |p.data| && q != i ==> r.data[q] == p.data[q])
            && (p.data[i].Some? ==> r.data[i].value == p.data[i].value.(sortData := r.data[i].value.sortData))
            && (forall c :: p.data[i].Some? && c != colIdx ==> KeyAt(r.data[i].value, c) == KeyAt(p.data[i].value, c))
            && (!r.failed && p.data[i].Some? ==> r.data[i].value.sortData.Some? && colIdx in r.data[i].value.sortData.value)
  {
  }

  /** Unless it throws, a pass computes the keys of exactly the live rows that need one, in row order. */
  lemma {:induction false} KeysCalls(src: KeySource, test: CacheTest, colIdx: nat, keyOf: nat -> Value, i: nat, p: KeyPass)
    requires i <= |p.data| && !p.failed
    ensures var r := KeysFrom(src, test, colIdx, keyOf, i, p);
            !r.failed ==> r.calls == p.calls + Needing(p.data, test, src, colIdx, i)
    decreases |p.data| - i
  {
    if i < |p.data| {
      var p' := KeyStep(src, test, colIdx, keyOf, i, p);
      if !p'.failed {
        KeysCalls(src, test, colIdx, keyOf, i + 1, p');
        KeyStepCalls(src, test, colIdx, keyOf, i, p);
      }
    }
  }

  /** One slot adds row `i` to the calls exactly when `Needing` lists it, and leaves the later slots to list. */
  lemma KeyStepCalls(src: KeySource, test: CacheTest, colIdx: nat, keyOf: nat -> Value, i: nat, p: KeyPass)
    requires i < |p.data| && !p.failed
    ensures var r := KeyStep(src, test, colIdx, keyOf, i, p);
            !r.failed ==>
              r.calls + Needing(r.data, test, src, colIdx, i + 1) == p.calls + Needing(p.data, test, src, colIdx, i)
  {
    var r := KeyStep(src, test, colIdx, keyOf, i, p);
    if !r.failed {
      var here := if p.data[i].Some? && Computes(test, src, p.data[i].value, colIdx) then [i] else [];
      var rest := Needing(p.data, test, src, colIdx, i + 1);
      assert r.calls == p.calls + here;
      assert Needing(p.data, test, src, colIdx, i) == here + rest;
      assert forall q :: i + 1 <= q < |p.data| ==> p.data[q] == r.data[q];
      NeedingSkip(p.data, r.data, test, src, colIdx, i + 1);
      assert p.calls + here + rest == p.calls + (here + rest);
    }
  }

  /** Unless it throws, a pass stores the keyOf key for the rows it computes and keeps the others' cached key. */
  lemma {:induction false} KeysStored(src: KeySource, test: CacheTest, colIdx: nat, keyOf: nat -> Value, i: nat, p: KeyPass)
    requires i <= |p.data| && !p.failed
    ensures var r := KeysFrom(src, test, colIdx, keyOf, i, p);
            !r.failed ==>
              forall q :: i <= q < |p.data| && p.data[q].Some? ==>
                |r.data| == |p.data| && r.data[q].Some? &&
                KeyAt(r.data[q].value, colIdx) ==
                  if Computes(test, src, p.data[q].value, colIdx) then keyOf(q) else KeyAt(p.data[q].value, colIdx)
    decreases |p.data| - i
  {
    if i < |p.data| {
      var p' := KeyStep(src, test, colIdx, keyOf, i, p);
      if !p'.failed {
        KeysStored(src, test, colIdx, keyOf, i + 1, p');
        KeysPrefix(src, test, colIdx, keyOf, i + 1, p');
        KeyStepFrame(src, test, colIdx, keyOf, i, p);
        if p.data[i].Some? {
          KeyStepStores(src, test, colIdx, keyOf, i, p);
        }
      }
    }
  }

  /** One slot stores the fresh key of a row it computes and keeps the cached key of any other. */
  lemma KeyStepStores(src: KeySource, test: CacheTest, colIdx: nat, keyOf: nat -> Value, i: nat, p: KeyPass)
    requires i < |p.data| && !p.failed && p.data[i].Some?
    ensures var r := KeyStep(src, test, colIdx, keyOf, i, p);
            !r.failed ==>
              r.data[i].Some? &&
              KeyAt(r.data[i].value, colIdx) ==
                if Computes(test, src, p.data[i].value, colIdx) then keyOf(i) else KeyAt(p.data[i].value, colIdx)
  {
  }

  /** `Needing` from `i` on reads only the slots from `i` on. */
  lemma {:induction false} NeedingSkip(a: seq<Option<Row>>, b: seq<Option<Row>>, test: CacheTest, src: KeySource,
                                       colIdx: nat, i: nat)
    requires |a| == |b| && forall q :: i <= q < |a| ==> a[q] == b[q]
    ensures Needing(a, test, src, colIdx, i) == Needing(b, test, src, colIdx, i)
    decreases |a| - i
  {
    if i < |a| {
      NeedingSkip(a, b, test, src, colIdx, i + 1);
    }
  }

  /** The rows `Needing` lists are exactly the live rows from `i` on whose key the pass computes. */
  lemma {:induction false} NeedingMembers(data: seq<Option<Row>>, test: CacheTest, src: KeySource, colIdx: nat, i: nat)
    ensures forall q :: q in Needing(data, test, src, colIdx, i) <==>
                          i <= q < |data| && data[q].Some? && Computes(test, src, data[q].value, colIdx)
    decreases |data| - i
  {
    if i < |data| {
      NeedingMembers(data, test, src, colIdx, i + 1);
    }
  }

  /** `r` holds numbers no smaller than `lo`, in strictly increasing order. */
  predicate AscendingFrom(r: seq<nat>, lo: nat)
  {
    (forall k :: 0 <= k < |r| ==> lo <= r[k]) && forall j, k :: 0 <= j < k < |r| ==> r[j] < r[k]
  }

  /** `Needing` lists rows from `i` on, in strictly increasing order. */
  lemma {:induction false} NeedingIncreasing(data: seq<Option<Row>>, test: CacheTest, src: KeySource, colIdx: nat, i: nat)
    ensures AscendingFrom(Needing(data, test, src, colIdx, i), i)
    decreases |data| - i
  {
    if i < |data| {
      NeedingIncreasing(data, test, src, colIdx, i + 1);
      var rest := Needing(data, test, src, colIdx, i + 1);
      if data[i].Some? && Computes(test, src, data[i].value, colIdx) {
        assert [i] + rest == Needing(data, test, src, colIdx, i);
        ConsAscending(i, rest);
      } else {
        assert rest == Needing(data, test, src, colIdx, i);
      }
    }
  }

  /** Putting `i` in front of numbers above `i`, in increasing order, keeps them increasing. */
  lemma ConsAscending(i: nat, rest: seq<nat>)
    requires AscendingFrom(rest, i + 1)
    ensures AscendingFrom([i] + rest, i)
  {
    var r := [i] + rest;
    forall k | 0 <= k < |r| ensures i <= r[k] {
      if k > 0 { assert r[k] == rest[k - 1]; }
    }
    forall j, k | 0 <= j < k < |r| ensures r[j] < r[k] {
      assert r[k] == rest[k - 1];
      if j > 0 { assert r[j] == rest[j - 1]; }
    }
  }

  /**
   * Over rows whose caches are all empty (new or invalidated rows), a pass
   * on a column without a custom ordering function computes every live
   * row's key exactly once.
   */
  lemma EmptyCachesComputeAll(src: KeySource, test: CacheTest, colIdx: nat, keyOf: nat -> Value, data: seq<Option<Row>>)
    requires !Truthy(src.custom)
    requires forall q :: 0 <= q < |data| && data[q].Some? ==> data[q].value.sortData.None?
    ensures var r := KeysFrom(src, test, colIdx, keyOf, 0, KeyPass(data, [], false));
            && !r.failed
            && (forall q :: q in r.calls <==> 0 <= q < |data| && data[q].Some?)
            && Internal.NoDuplicates(r.calls)
  {
    var p := KeyPass(data, [], false);
    KeysComplete(src, test, colIdx, keyOf, 0, p);
    KeysCalls(src, test, colIdx, keyOf, 0, p);
    NeedingMembers(data, test, src, colIdx, 0);
    NeedingIncreasing(data, test, src, colIdx, 0);
    forall q | 0 <= q < |data| && data[q].Some? ensures Computes(test, src, data[q].value, colIdx) {
      assert KeyAt(WithCache(data[q].value), colIdx) == Undefined;
    }
  }

  /** Without a custom ordering function nothing can throw, so a pass always completes. */
  lemma {:induction false} KeysComplete(src: KeySource, test: CacheTest, colIdx: nat, keyOf: nat -> Value, i: nat, p: KeyPass)
    requires i <= |p.data| && !p.failed && !Truthy(src.custom)
    ensures !KeysFrom(src, test, colIdx, keyOf, i, p).failed
    decreases |p.data| - i
  {
    if i < |p.data| {
      KeysComplete(src, test, colIdx, keyOf, i + 1, KeyStep(src, test, colIdx, keyOf, i, p));
    }
  }

  /** A presence-checked pass over rows that all hold a key changes nothing and computes nothing. */
  lemma {:induction false} KeysIdle(src: KeySource, colIdx: nat, keyOf: nat -> Value, i: nat, p: KeyPass)
    requires i <= |p.data| && !p.failed && !Truthy(src.custom)
    requires forall q :: i <= q < |p.data| && p.data[q].Some? ==>
               p.data[q].value.sortData.Some? && colIdx in p.data[q].value.sortData.value
    ensures KeysFrom(src, Presence, colIdx, keyOf, i, p) == p
    decreases |p.data| - i
  {
    if i < |p.data| {
      if p.data[i].Some? {
        assert p.data[i := Some(WithCache(p.data[i].value))] == p.data;
      }
      assert KeyStep(src, Presence, colIdx, keyOf, i, p) == p;
      KeysIdle(src, colIdx, keyOf, i + 1, p);
    }
  }

  /**
   * Corrected cache: after any pass over a column without a custom ordering
   * function, a pass that tests for the key's presence computes no key and
   * leaves every row as it was.
   */
  lemma CachedKeysReused(src: KeySource, test: CacheTest, colIdx: nat, keyOf: nat -> Value, data: seq<Option<Row>>)
    requires !Truthy(src.custom)
    ensures var first := KeysFrom(src, test, colIdx, keyOf, 0, KeyPass(data, [], false));
            && !first.failed
            && KeysFrom(src, Presence, colIdx, keyOf, 0, KeyPass(first.data, [], false)) == KeyPass(first.data, [], false)
  {
    var p := KeyPass(data, [], false);
    var first := KeysFrom(src, test, colIdx, keyOf, 0, p);
    KeysComplete(src, test, colIdx, keyOf, 0, p);
    KeysFrame(src, test, colIdx, keyOf, 0, p);
    KeysIdle(src, colIdx, keyOf, 0, KeyPass(first.data, [], false));
  }

  /**
   * Cache as written: after a pass over a column without a custom ordering
   * function, the next truthiness-checked pass recomputes the key of every
   * live row whose key came out falsy, and of no other row; the recomputed
   * key is the one already cached.
   */
  lemma FalsyKeysRecomputed(src: KeySource, colIdx: nat, keyOf: nat -> Value, data: seq<Option<Row>>)
    requires !Truthy(src.custom)
    ensures var first := KeysFrom(src, Truthiness, colIdx, keyOf, 0, KeyPass(data, [], false));
            var second := KeysFrom(src, Truthiness, colIdx, keyOf, 0, KeyPass(first.data, [], false));
            && !first.failed && !second.failed
            && SameSlots(first.data, data)
            && (forall q :: q in second.calls ==> 0 <= q < |data| && data[q].Some?)
            && (forall q :: 0 <= q < |data| && data[q].Some? ==>
                  && (q in second.calls <==> !Truthy(KeyAt(first.data[q].value, colIdx)))
                  && (q in second.calls ==> KeyAt(first.data[q].value, colIdx) == keyOf(q)))
  {
    var p := KeyPass(data, [], false);
    var first := KeysFrom(src, Truthiness, colIdx, keyOf, 0, p);
    KeysComplete(src, Truthiness, colIdx, keyOf, 0, p);
    KeysFrame(src, Truthiness, colIdx, keyOf, 0, p);
    KeysStored(src, Truthiness, colIdx, keyOf, 0, p);
    var p2 := KeyPass(first.data, [], false);
    KeysComplete(src, Truthiness, colIdx, keyOf, 0, p2);
    KeysCalls(src, Truthiness, colIdx, keyOf, 0, p2);
    NeedingMembers(first.data, Truthiness, src, colIdx, 0);
  }

  /**
   * The discrepancy on one row whose key is the empty string: as written the
   * second pass computes the key again, a presence test does not.
   */
  lemma EmptyKeyCounterexample()
    ensures var src := KeySource(Undefined, Undefined, Undefined);
            var keyOf := (q: nat) => Str("");
            var data := [Some(Row(Arr([]), 0, FromData, None, None, None))];
            var first := KeysFrom(src, Truthiness, 0, keyOf, 0, KeyPass(data, [], false));
            && KeysFrom(src, Truthiness, 0, keyOf, 0, KeyPass(first.data, [], false)).calls == [0]
            && KeysFrom(src, Presence, 0, keyOf, 0, KeyPass(first.data, [], false)).calls == []
  {
  }

  // ---- _fnSort: the comparator ----

  /** `ToNumber` of a comparator's return value, where the model knows it; anything else counts as a tie. */
  function ToOrder(v: Value): (r: int)
    ensures v.Num? ==> r == v.n
    ensures !v.Num? ==> 0 <= r <= 1
    ensures !v.Num? && !v.Bool? ==> r == 0
  {
    match v
    case Num(n) => n
    case Bool(b) => if b then 1 else 0
    case _ => 0
  }

  /** `x < y ? -1 : x > y ? 1 : 0` on integers. */
  function Sign(n: int): (r: int)
    ensures r == -1 || r == 0 || r == 1
    ensures (r < 0 <==> n < 0) && (r > 0 <==> n > 0)
  {
    if n < 0 then -1 else if n > 0 then 1 else 0
  }

  /** The number a non-string key coerces to for `<`; `undefined`, objects and functions give `NaN`. */
  function NumberOf(v: Value): Option<int> {
    match v
    case Num(n) => Some(n)
    case Bool(b) => Some(if b then 1 else 0)
    case Null => Some(0)
    case _ => None
  }

  /** `<` on two strings: character by character, a proper prefix first. */
  predicate StrLess(a: string, b: string)
    decreases |a|
  {
    if |a| == 0 then |b| > 0
    else if |b| == 0 then false
    else if a[0] != b[0] then a[0] < b[0]
    else StrLess(a[1..], b[1..])
  }

  /** `ToPrimitive` with the number hint: an array, object, function or node becomes its string form. */
  function Primitive(v: Value): (r: Value)
    ensures r.Str? <==> v.Str? || v.Arr? || v.Obj? || v.Fn? || v.Node?
    ensures !r.Str? ==> r == v
  {
    match v
    case Arr(_) => Str(Text.ToJsString(v))
    case Obj(_) => Str(Text.ToJsString(v))
    case Fn(_) => Str(Text.ToJsString(v))
    case Node(_) => Str(Text.ToJsString(v))
    case _ => v
  }

  /**
   * `x < y` on two sort keys: both are made primitive; two strings compare
   * character by character, other keys numerically, `NaN` below nothing.
   */
  predicate JsLess(x: Value, y: Value): (b: bool)
    ensures Primitive(x).Str? != Primitive(y).Str? ==> !b
    ensures (x == Undefined || y == Undefined) ==> !b
    ensures Primitive(x).Str? && Primitive(y).Str? ==> (b <==> StrLess(Text.ToJsString(x), Text.ToJsString(y)))
    ensures b && !Primitive(x).Str? ==> NumberOf(x).Some? && NumberOf(y).Some? && NumberOf(x).value < NumberOf(y).value
  {
    var a, c := Primitive(x), Primitive(y);
    if a.Str? && c.Str? then StrLess(a.s, c.s)
    else if a.Str? || c.Str? then false
    else NumberOf(a).Some? && NumberOf(c).Some? && NumberOf(a).value < NumberOf(c).value
  }

  /** Array keys compare as their joined strings: `[1] < "2"` and `[1] < [2]`, but `[10] < [9]` too. */
  lemma ArrayKeysCompareAsStrings()
    ensures JsLess(Arr([Num(1)]), Str("2"))
    ensures JsLess(Arr([Num(1)]), Arr([Num(2)]))
    ensures JsLess(Arr([Num(10)]), Arr([Num(9)]))
  {
    assert Text.ToJsString(Arr([Num(1)])) == "1";
    assert Text.ToJsString(Arr([Num(2)])) == "2";
    assert Text.ToJsString(Arr([Num(10)])) == "10";
    assert Text.ToJsString(Arr([Num(9)])) == "9";
  }

  /** The generic test `x < y ? -1 : x > y ? 1 : 0`. */
  function GenericTest(x: Value, y: Value): (r: int)
    ensures r == -1 || r == 0 || r == 1
  {
    if JsLess(x, y) then -1 else if JsLess(y, x) then 1 else 0
  }

  /** What one sort instruction says about two keys: a decision, or go on to the next instruction. */
  datatype Step = Decided(v: int) | Next

  /**
   * One instruction of the comparator: the type's `-asc`/`-desc` sorter when
   * there is one (any result but the number 0 decides), else the generic
   * test, negated unless the direction is `'asc'`.
   */
  function KeyTest(env: Env, spec: SortSpec, x: Value, y: Value): Step {
    if Truthy(spec.sorter) then
      var test := env.call(spec.sorter, Undefined, [x, y]);
      if test == Num(0) then Next else Decided(ToOrder(test))
    else
      var test := GenericTest(x, y);
      if test == 0 then Next else Decided(if spec.dir == Str("asc") then test else -test)
  }

  /** `aoData[r]._aSortData[col]`. */
  function SortKey(data: seq<Option<Row>>, r: nat, col: nat): Value {
    if r < |data| && data[r].Some? then KeyAt(data[r].value, col) else Undefined
  }

  /** The comparator's loop over the instructions from `k` on: the first decision, `None` when every key ties. */
  function KeysCmp(data: seq<Option<Row>>, env: Env, aSort: seq<SortSpec>, a: nat, b: nat, k: nat): Option<int>
    decreases |aSort| - k
  {
    if k >= |aSort| then None
    else
      match KeyTest(env, aSort[k], SortKey(data, a, aSort[k].col), SortKey(data, b, aSort[k].col))
      case Decided(v) => Some(v)
      case Next => KeysCmp(data, env, aSort, a, b, k + 1)
  }

  /** The comparator handed to `displayMaster.sort`, given its tie-break. */
  function RowCmp(data: seq<Option<Row>>, env: Env, aSort: seq<SortSpec>, tie: (nat, nat) -> int): (nat, nat) -> int {
    (a: nat, b: nat) =>
      match KeysCmp(data, env, aSort, a, b, 0)
      case Some(v) => v
      case None => tie(a, b)
  }

  /**
   * The tie-break as written: `aiOrig[a]` against `aiOrig[b]`, where `a`
   * and `b` are row indexes; a row index past the end of `aiOrig` reads
   * `undefined`, which ties with everything.
   */
  function OrigTie(aiOrig: seq<nat>): (nat, nat) -> int {
    (a: nat, b: nat) => if a < |aiOrig| && b < |aiOrig| then Sign(aiOrig[a] as int - aiOrig[b]) else 0
  }

  /** `aiOrig`: `0 .. n - 1`, reversed when the first instruction is descending and `orderDescReverse` is set. */
  function Orig(n: nat, rev: bool): (r: seq<nat>)
    ensures |r| == n
    ensures forall i :: 0 <= i < n ==> r[i] == if rev then n - 1 - i else i
  {
    var up := seq(n, i requires 0 <= i => i as nat);
    if rev then Sorting.Reverse(up) else up
  }

  /** The intended tie-break: the rows' order in the arena, reversed together with `aiOrig`. */
  function IndexTie(rev: bool): (nat, nat) -> int {
    (a: nat, b: nat) => if rev then Sign(b as int - a) else Sign(a as int - b)
  }

  /** The index order applied when there is nothing to sort on. */
  function IndexOrder(): (nat, nat) -> int {
    (x: nat, y: nat) => Sign(x as int - y)
  }

  /** `aiOrig` is reversed for this run. */
  predicate Reversed(t: TableState, aSort: seq<SortSpec>) {
    |aSort| > 0 && aSort[0].dir == Str("desc") && t.features.orderDescReverse
  }

  /** The master list after the sort step of `_fnSort`, with `t` the state once every key is cached. */
  function Ordered(t: TableState, env: Env, aSort: seq<SortSpec>, master: seq<nat>): (r: seq<nat>)
    ensures multiset(r) == multiset(master)
  {
    if !t.features.serverSide && |aSort| > 0 then
      Sorting.InsertionSort(master, RowCmp(t.data, env, aSort, OrigTie(Orig(|master|, Reversed(t, aSort)))))
    else if |aSort| == 0 then Sorting.InsertionSort(master, IndexOrder())
    else master
  }

  // ---- _fnSort: the run ----

  /** The state after the key passes for instructions `k ..`, and whether one threw. */
  datatype Passes = Passes(t: TableState, failed: bool)

  /** `_fnSortData` for every instruction from `k` on; a column that does not exist throws. */
  function PassesFrom(t: TableState, env: Env, types: TypeRegistry.Types, ext: Value -> Value, aSort: seq<SortSpec>, k: nat): Passes
    decreases |aSort| - k
  {
    if k >= |aSort| then Passes(t, false)
    else if aSort[k].col >= |t.columns| then Passes(t, true)
    else
      var p := SortDataSpec(t, env, types, ext, Truthiness, aSort[k].col);
      if p.failed then Passes(t.(data := p.data), true)
      else PassesFrom(t.(data := p.data), env, types, ext, aSort, k + 1)
  }

  /** The single instruction `_fnSort(settings, col, dir)` sorts on: the column's own `sType`, no default. */
  function ColumnSpec(cols: seq<Column>, types: TypeRegistry.Types, col: nat, dir: Value): SortSpec
    requires col < |cols|
  {
    var ty := cols[col].sType;
    SortSpec(col, col, dir, 0, ty,
             TypeRegistry.Lookup(types.order, Text.ToJsString(ty) + "-pre"),
             TypeRegistry.Lookup(types.order, Text.ToJsString(ty) + "-" + Text.ToJsString(dir)))
  }

  const NullRead := "Cannot read properties of null"

  /** What `_fnSort` leaves behind: the new state and what it returns or throws. */
  datatype SortOutcome = SortOutcome(t: TableState, r: Result<seq<nat>>)

  /**
   * `_fnSort(settings, col, dir)`: type the columns, build the instructions
   * (one for `col` when given, else the flattened ordering), cache the keys,
   * then sort a copy of the master (`col` given) or the master itself,
   * marking the table sorted and recording the instructions.
   */
  function SortRunSpec(t: TableState, env: Env, types: TypeRegistry.Types, impl: Value -> ColumnTypes.DetectFns,
                       ext: Value -> Value, col: Option<nat>, dir: Value): SortOutcome
    requires ColumnsWf(t.columns) && (col.Some? ==> col.value < |t.columns|)
  {
    var t1 := ColumnTypes.TypesFrom(t, env, types, impl, 0);
    ColumnTypes.TypesFromShape(t, env, types, impl, 0);
    if col.Some? then
      var aSort := [ColumnSpec(t1.columns, types, col.value, dir)];
      var p := PassesFrom(t1, env, types, ext, aSort, 0);
      if p.failed then SortOutcome(p.t, Throw(NullRead))
      else SortOutcome(p.t, Ok(Ordered(p.t, env, aSort, t1.master)))
    else
      var f := SortAlgo.SortFlattenSpec(t1, types);
      var t2 := t1.(sorting := f.sorting);
      if f.failed then SortOutcome(t2, Throw(NullRead))
      else
        var p := PassesFrom(t2, env, types, ext, f.specs, 0);
        if p.failed then SortOutcome(p.t, Throw(NullRead))
        else
          var m := Ordered(p.t, env, f.specs, t2.master);
          SortOutcome(p.t.(master := m, sorted := true, details := f.specs), Ok(m))
  }

  /** `_fnSort(settings, col, dir)`; `None` for `col` is `undefined`. */
  method SortRun(s: Settings, env: Env, types: TypeRegistry.Types, impl: Value -> ColumnTypes.DetectFns,
                 ext: Value -> Value, col: Option<nat>, dir: Value) returns (r: Result<seq<nat>>)
    requires ColumnsWf(s.aoColumns) && (col.Some? ==> col.value < |s.aoColumns|)
    modifies s
    ensures var o := SortRunSpec(old(s.Contents()), env, types, impl, ext, col, dir);
            s.Contents() == o.t && r == o.r
  {
    ghost var t0 := s.Contents();
    ColumnTypes.ColumnTypes(s, env, types, impl);
    ColumnTypes.TypesFromShape(t0, env, types, impl, 0);
    if col.Some? {
      r := SortByColumn(s, env, types, ext, col.value, dir);
    } else {
      r := SortByInstructions(s, env, types, ext);
    }
  }

  /** `_fnSort` with a column given: one instruction, and the master list left as it is. */
  method SortByColumn(s: Settings, env: Env, types: TypeRegistry.Types, ext: Value -> Value, col: nat, dir: Value)
    returns (r: Result<seq<nat>>)
    requires col < |s.aoColumns|
    modifies s
    ensures var aSort := [ColumnSpec(old(s.aoColumns), types, col, dir)];
            var p := PassesFrom(old(s.Contents()), env, types, ext, aSort, 0);
            s.Contents() == p.t &&
            r == (if p.failed then Throw(NullRead) else Ok(Ordered(p.t, env, aSort, old(s.aiDisplayMaster))))
  {
    var aSort := [ColumnSpec(s.aoColumns, types, col, dir)];
    var displayMaster := s.aiDisplayMaster;
    var ok := RunPasses(s, env, types, ext, aSort);
    if !ok {
      return Throw(NullRead);
    }
    displayMaster := OrderMaster(s, env, aSort, displayMaster);
    return Ok(displayMaster);
  }

  /** `_fnSort` without a column: the flattened instructions, and the master list sorted in place. */
  method SortByInstructions(s: Settings, env: Env, types: TypeRegistry.Types, ext: Value -> Value)
    returns (r: Result<seq<nat>>)
    requires ColumnsWf(s.aoColumns)
    modifies s
    ensures var f := SortAlgo.SortFlattenSpec(old(s.Contents()), types);
            var t2 := old(s.Contents()).(sorting := f.sorting);
            if f.failed then s.Contents() == t2 && r == Throw(NullRead)
            else
              var p := PassesFrom(t2, env, types, ext, f.specs, 0);
              if p.failed then s.Contents() == p.t && r == Throw(NullRead)
              else
                var m := Ordered(p.t, env, f.specs, t2.master);
                s.Contents() == p.t.(master := m, sorted := true, details := f.specs) && r == Ok(m)
  {
    var displayMaster := s.aiDisplayMaster;
    var f := SortAlgo.SortFlatten(s, types);
    if f.Throw? {
      return Throw(f.message);
    }
    var aSort := f.value;
    var ok := RunPasses(s, env, types, ext, aSort);
    if !ok {
      return Throw(NullRead);
    }
    displayMaster := OrderMaster(s, env, aSort, displayMaster);
    s.aiDisplayMaster, s.bSorted, s.sortDetails := displayMaster, true, aSort;
    return Ok(displayMaster);
  }

  /** The ordering step of `_fnSort`: the multi-column comparison, or index order when there are no instructions. */
  method OrderMaster(s: Settings, env: Env, aSort: seq<SortSpec>, master: seq<nat>) returns (m: seq<nat>)
    ensures m == Ordered(s.Contents(), env, aSort, master)
  {
    m := master;
    if !s.oFeatures.serverSide && |aSort| > 0 {
      var aiOrig := MakeOrig(|master|, aSort[0].dir == Str("desc") && s.oFeatures.orderDescReverse);
      m := Sorting.InsertionSort(master, RowCmp(s.aoData, env, aSort, OrigTie(aiOrig)));
    } else if |aSort| == 0 {
      m := Sorting.InsertionSort(master, IndexOrder());
    }
  }

  /** The loop of `_fnSort` calling `_fnSortData` for each instruction. */
  method RunPasses(s: Settings, env: Env, types: TypeRegistry.Types, ext: Value -> Value, aSort: seq<SortSpec>)
    returns (ok: bool)
    modifies s
    ensures var p := PassesFrom(old(s.Contents()), env, types, ext, aSort, 0);
            s.Contents() == p.t && ok == !p.failed
  {
    ghost var t0 := s.Contents();
    for i := 0 to |aSort|
      invariant s.Contents() == t0.(data := s.aoData)
      invariant PassesFrom(t0, env, types, ext, aSort, 0) == PassesFrom(s.Contents(), env, types, ext, aSort, i)
    {
      if aSort[i].col >= |s.aoColumns| {
        return false;
      }
      ok := SortData(s, env, types, ext, aSort[i].col);
      if !ok {
        return;
      }
    }
    return true;
  }

  /** The loop filling `aiOrig`, then its reversal. */
  method MakeOrig(n: nat, rev: bool) returns (aiOrig: seq<nat>)
    ensures aiOrig == Orig(n, rev)
  {
    aiOrig := [];
    for i := 0 to n
      invariant |aiOrig| == i && forall j :: 0 <= j < i ==> aiOrig[j] == j
    {
      aiOrig := aiOrig + [i];
    }
    if rev {
      aiOrig := Sorting.Reverse(aiOrig);
    }
  }

  // ---- properties of _fnSort ----

  /** The key passes change only the row arena, and keep which slots are live. */
  lemma {:induction false} PassesShape(t: TableState, env: Env, types: TypeRegistry.Types, ext: Value -> Value,
                                       aSort: seq<SortSpec>, k: nat)
    ensures var p := PassesFrom(t, env, types, ext, aSort, k);
            p.t == t.(data := p.t.data) && SameSlots(p.t.data, t.data)
    decreases |aSort| - k
  {
    if k < |aSort| && aSort[k].col < |t.columns| {
      var src := KeySourceOf(t, env, types, ext, aSort[k].col);
      var q := KeyPass(t.data, [], false);
      KeysFrame(src, Truthiness, aSort[k].col, Fresher(t, env, types, src, aSort[k].col), 0, q);
      var p := SortDataSpec(t, env, types, ext, Truthiness, aSort[k].col);
      if !p.failed {
        PassesShape(t.(data := p.data), env, types, ext, aSort, k + 1);
      }
    }
  }

  /**
   * Sorting on one given column works on a copy: the master list, the
   * ordering state and the sorted flag are left as they were, and what is
   * returned is a permutation of the master list.
   */
  lemma ColumnSortLeavesMaster(t: TableState, env: Env, types: TypeRegistry.Types, impl: Value -> ColumnTypes.DetectFns,
                               ext: Value -> Value, col: nat, dir: Value)
    requires ColumnsWf(t.columns) && col < |t.columns|
    ensures var o := SortRunSpec(t, env, types, impl, ext, Some(col), dir);
            && o.t.master == t.master && o.t.sorting == t.sorting
            && o.t.sorted == t.sorted && o.t.details == t.details
            && (o.r.Ok? ==> multiset(o.r.value) == multiset(t.master))
  {
    var t1 := ColumnTypes.TypesFrom(t, env, types, impl, 0);
    ColumnTypes.TypesFromShape(t, env, types, impl, 0);
    PassesShape(t1, env, types, ext, [ColumnSpec(t1.columns, types, col, dir)], 0);
  }

  /**
   * A full sort that succeeds replaces the master list with a permutation
   * of it, marks the table sorted and records the flattened instructions.
   */
  lemma SortReplacesMaster(t: TableState, env: Env, types: TypeRegistry.Types, impl: Value -> ColumnTypes.DetectFns,
                           ext: Value -> Value, dir: Value)
    requires ColumnsWf(t.columns)
    ensures var o := SortRunSpec(t, env, types, impl, ext, None, dir);
            o.r.Ok? ==>
              && o.t.master == o.r.value && multiset(o.t.master) == multiset(t.master)
              && o.t.sorted && SameSlots(o.t.data, t.data)
  {
    var t1 := ColumnTypes.TypesFrom(t, env, types, impl, 0);
    ColumnTypes.TypesFromShape(t, env, types, impl, 0);
    var f := SortAlgo.SortFlattenSpec(t1, types);
    PassesShape(t1.(sorting := f.sorting), env, types, ext, f.specs, 0);
  }

  /**
   * Ordering the table by an `aaSorting` entry whose column lists, in
   * `aDataSort`, a column that does not exist throws and leaves the master
   * list as it was.
   */
  lemma SortOnMissingKeyThrows(t: TableState, env: Env, types: TypeRegistry.Types, impl: Value -> ColumnTypes.DetectFns,
                               ext: Value -> Value, dir: Value, z: nat)
    requires ColumnsWf(t.columns) && t.features.bSort && z < |t.sorting|
    requires SortAlgo.ColumnAt(t.columns, t.sorting[z].col).Some?
    requires !SortAlgo.KeysExist(t.columns, SortAlgo.ColumnAt(t.columns, t.sorting[z].col).value)
    ensures var o := SortRunSpec(t, env, types, impl, ext, None, dir);
            o.r.Throw? && o.t.master == t.master
  {
    var t1 := ColumnTypes.TypesFrom(t, env, types, impl, 0);
    ColumnTypes.TypesFromShape(t, env, types, impl, 0);
    var src := SortAlgo.ColumnAt(t.columns, t.sorting[z].col).value;
    assert t1.columns[src].aDataSort == t.columns[src].aDataSort;
    SortAlgo.MissingKeyThrows(t1, types, z);
  }

  /**
   * `_fnSort` keeps every displayed row in the master: the master is left as
   * it was, or replaced by a permutation of itself on a full sort.
   */
  lemma SortRunDisplayInMaster(t: TableState, env: Env, types: TypeRegistry.Types, impl: Value -> ColumnTypes.DetectFns,
                               ext: Value -> Value, col: Option<nat>, dir: Value)
    requires ColumnsWf(t.columns) && (col.Some? ==> col.value < |t.columns|) && DisplayInMaster(t)
    ensures DisplayInMaster(SortRunSpec(t, env, types, impl, ext, col, dir).t)
  {
    var o := SortRunSpec(t, env, types, impl, ext, col, dir);
    var t1 := ColumnTypes.TypesFrom(t, env, types, impl, 0);
    ColumnTypes.TypesFromShape(t, env, types, impl, 0);
    if col.Some? {
      PassesShape(t1, env, types, ext, [ColumnSpec(t1.columns, types, col.value, dir)], 0);
      assert o.t.display == t.display && o.t.master == t.master;
    } else {
      var f := SortAlgo.SortFlattenSpec(t1, types);
      PassesShape(t1.(sorting := f.sorting), env, types, ext, f.specs, 0);
      SortReplacesMaster(t, env, types, impl, ext, dir);
      assert o.t.display == t.display;
      forall k | 0 <= k < |o.t.display|
        ensures o.t.display[k] in o.t.master
      {
        var x := t.display[k];
        assert x in t.master;
        assert x in multiset(t.master);
      }
    }
  }

  lemma IndexOrderConsistent()
    ensures Sorting.Consistent(IndexOrder()) && Sorting.Strict(IndexOrder())
  {
    var cmp := IndexOrder();
    forall a: nat, b: nat ensures (cmp(a, b) < 0 <==> cmp(b, a) > 0) && (cmp(a, b) == 0 ==> a == b) {
      assert cmp(a, b) == Sign(a as int - b) && cmp(b, a) == Sign(b as int - a);
    }
    forall a: nat, b: nat, c: nat | cmp(a, b) <= 0 && cmp(b, c) <= 0 ensures cmp(a, c) <= 0 {
      assert cmp(a, b) == Sign(a as int - b) && cmp(b, c) == Sign(b as int - c) && cmp(a, c) == Sign(a as int - c);
    }
  }

  /** With nothing to sort on, the master list comes out in ascending row order. */
  lemma NoInstructionsIndexOrder(t: TableState, env: Env, master: seq<nat>)
    requires Internal.NoDuplicates(master)
    ensures var r := Ordered(t, env, [], master);
            forall i, j :: 0 <= i < j < |r| ==> r[i] < r[j]
  {
    var r := Ordered(t, env, [], master);
    IndexOrderConsistent();
    Sorting.InsertionSortSorted(master, IndexOrder());
    Internal.NoDuplicatesPermutation(master, r);
    forall i, j | 0 <= i < j < |r| ensures r[i] < r[j] {
      assert IndexOrder()(r[i], r[j]) <= 0;
    }
  }

  /**
   * A table with ordering switched off: a full sort succeeds and leaves the
   * master list in ascending row order.
   */
  lemma UnorderedTableIndexOrder(t: TableState, env: Env, types: TypeRegistry.Types, impl: Value -> ColumnTypes.DetectFns,
                                 ext: Value -> Value, dir: Value)
    requires Wf(t) && !t.features.bSort
    ensures var o := SortRunSpec(t, env, types, impl, ext, None, dir);
            && o.r.Ok? && o.t.master == o.r.value && multiset(o.t.master) == multiset(t.master)
            && forall i, j :: 0 <= i < j < |o.t.master| ==> o.t.master[i] < o.t.master[j]
  {
    var t1 := ColumnTypes.TypesFrom(t, env, types, impl, 0);
    ColumnTypes.TypesFromShape(t, env, types, impl, 0);
    NoInstructionsIndexOrder(t1, env, t1.master);
  }

  /** Server-side processing with instructions leaves the order to the server. */
  lemma ServerSideKeepsOrder(t: TableState, env: Env, aSort: seq<SortSpec>, master: seq<nat>)
    requires t.features.serverSide && |aSort| > 0
    ensures Ordered(t, env, aSort, master) == master
  {
  }

  // ---- the tie-break ----

  /** The intended comparator: the keys, then the rows' order in the arena. */
  function Lex(data: seq<Option<Row>>, env: Env, aSort: seq<SortSpec>, rev: bool, a: nat, b: nat, k: nat): int {
    match KeysCmp(data, env, aSort, a, b, k)
    case Some(v) => v
    case None => IndexTie(rev)(a, b)
  }

  /** Every instruction uses the generic test, and every row of `d` has a number as its key. */
  ghost predicate NumericKeys(data: seq<Option<Row>>, aSort: seq<SortSpec>, d: set<nat>) {
    && (forall k :: 0 <= k < |aSort| ==> !Truthy(aSort[k].sorter))
    && (forall k, r :: 0 <= k < |aSort| && r in d ==> SortKey(data, r, aSort[k].col).Num?)
  }

  /** One instruction of the intended comparator on two numeric keys. */
  lemma LexUnfold(data: seq<Option<Row>>, env: Env, aSort: seq<SortSpec>, rev: bool, d: set<nat>, k: nat, x: nat, y: nat)
    requires NumericKeys(data, aSort, d) && x in d && y in d && k < |aSort|
    ensures var col := aSort[k].col;
            var vx, vy := SortKey(data, x, col).n, SortKey(data, y, col).n;
            Lex(data, env, aSort, rev, x, y, k) ==
              if vx == vy then Lex(data, env, aSort, rev, x, y, k + 1)
              else if aSort[k].dir == Str("asc") then Sign(vx - vy) else -Sign(vx - vy)
  {
    var col := aSort[k].col;
    assert SortKey(data, x, col).Num? && SortKey(data, y, col).Num?;
  }

  /** Past the last instruction the intended comparator is the rows' index order. */
  lemma LexAtEnd(data: seq<Option<Row>>, env: Env, aSort: seq<SortSpec>, rev: bool, a: nat, b: nat, k: nat)
    requires k >= |aSort|
    ensures Lex(data, env, aSort, rev, a, b, k) == if rev then Sign(b as int - a) else Sign(a as int - b)
  {
  }

  /** On numeric keys the intended comparator is antisymmetric and separates distinct rows. */
  lemma {:induction false} LexAntisymmetric(data: seq<Option<Row>>, env: Env, aSort: seq<SortSpec>, rev: bool,
                                            d: set<nat>, k: nat, a: nat, b: nat)
    requires NumericKeys(data, aSort, d) && a in d && b in d
    ensures Lex(data, env, aSort, rev, a, b, k) < 0 <==> Lex(data, env, aSort, rev, b, a, k) > 0
    ensures Lex(data, env, aSort, rev, a, b, k) == 0 ==> a == b
    decreases |aSort| - k
  {
    if k < |aSort| {
      LexAntisymmetric(data, env, aSort, rev, d, k + 1, a, b);
      LexUnfold(data, env, aSort, rev, d, k, a, b);
      LexUnfold(data, env, aSort, rev, d, k, b, a);
    } else {
      LexAtEnd(data, env, aSort, rev, a, b, k);
      LexAtEnd(data, env, aSort, rev, b, a, k);
    }
  }

  /** On numeric keys the intended comparator is transitive. */
  lemma {:induction false} LexTransitive(data: seq<Option<Row>>, env: Env, aSort: seq<SortSpec>, rev: bool,
                                         d: set<nat>, k: nat, a: nat, b: nat, c: nat)
    requires NumericKeys(data, aSort, d) && a in d && b in d && c in d
    ensures Lex(data, env, aSort, rev, a, b, k) <= 0 && Lex(data, env, aSort, rev, b, c, k) <= 0 ==>
              Lex(data, env, aSort, rev, a, c, k) <= 0
    decreases |aSort| - k
  {
    if k < |aSort| {
      LexTransitive(data, env, aSort, rev, d, k + 1, a, b, c);
      LexUnfold(data, env, aSort, rev, d, k, a, b);
      LexUnfold(data, env, aSort, rev, d, k, b, c);
      LexUnfold(data, env, aSort, rev, d, k, a, c);
    } else {
      LexAtEnd(data, env, aSort, rev, a, b, k);
      LexAtEnd(data, env, aSort, rev, b, c, k);
      LexAtEnd(data, env, aSort, rev, a, c, k);
    }
  }

  /** The intended comparator is a consistent order on rows with numeric keys, with no ties between distinct rows. */
  lemma LexOrder(data: seq<Option<Row>>, env: Env, aSort: seq<SortSpec>, rev: bool, d: set<nat>)
    requires NumericKeys(data, aSort, d)
    ensures var cmp := RowCmp(data, env, aSort, IndexTie(rev));
            Sorting.ConsistentOn(cmp, d) && Sorting.StrictOn(cmp, d)
  {
    var cmp := RowCmp(data, env, aSort, IndexTie(rev));
    forall a, b | a in d && b in d
      ensures (cmp(a, b) < 0 <==> cmp(b, a) > 0) && (cmp(a, b) == 0 ==> a == b)
    {
      LexAntisymmetric(data, env, aSort, rev, d, 0, a, b);
      assert cmp(a, b) == Lex(data, env, aSort, rev, a, b, 0);
      assert cmp(b, a) == Lex(data, env, aSort, rev, b, a, 0);
    }
    forall a, b, c | a in d && b in d && c in d && cmp(a, b) <= 0 && cmp(b, c) <= 0
      ensures cmp(a, c) <= 0
    {
      LexTransitive(data, env, aSort, rev, d, 0, a, b, c);
      assert cmp(a, b) == Lex(data, env, aSort, rev, a, b, 0);
      assert cmp(b, c) == Lex(data, env, aSort, rev, b, c, 0);
      assert cmp(a, c) == Lex(data, env, aSort, rev, a, c, 0);
    }
  }

  /**
   * Corrected tie-break: when every instruction compares numbers, sorting
   * any arrangement of the same rows gives the same order.
   */
  lemma CorrectedOrderIndependent(data: seq<Option<Row>>, env: Env, aSort: seq<SortSpec>, rev: bool,
                                  m1: seq<nat>, m2: seq<nat>)
    requires multiset(m1) == multiset(m2)
    requires NumericKeys(data, aSort, set r | r in m1)
    ensures var cmp := RowCmp(data, env, aSort, IndexTie(rev));
            Sorting.InsertionSort(m1, cmp) == Sorting.InsertionSort(m2, cmp)
  {
    var cmp := RowCmp(data, env, aSort, IndexTie(rev));
    var d := set r | r in m1;
    LexOrder(data, env, aSort, rev, d);
    forall i | 0 <= i < |m2| ensures m2[i] in d {
      assert m2[i] in multiset(m1);
    }
    Sorting.InsertionSortSortedOn(m1, cmp, d);
    Sorting.InsertionSortSortedOn(m2, cmp, d);
    var s1 := Sorting.InsertionSort(m1, cmp);
    forall i | 0 <= i < |s1| ensures s1[i] in d {
      assert s1[i] in multiset(m1);
    }
    Sorting.SortedUniqueOn(s1, Sorting.InsertionSort(m2, cmp), cmp, d);
  }

  /**
   * As written the tie-break reads `aiOrig` by row index, so it agrees with
   * the intended one exactly when every row index is below the length of
   * the master list (an arena without deleted slots).
   */
  lemma DenseTieBreakAgrees(data: seq<Option<Row>>, env: Env, aSort: seq<SortSpec>, rev: bool, master: seq<nat>)
    requires forall k :: 0 <= k < |master| ==> master[k] < |master|
    ensures Sorting.InsertionSort(master, RowCmp(data, env, aSort, OrigTie(Orig(|master|, rev)))) ==
            Sorting.InsertionSort(master, RowCmp(data, env, aSort, IndexTie(rev)))
  {
    var d := set r | r in master;
    var aw := RowCmp(data, env, aSort, OrigTie(Orig(|master|, rev)));
    var fixed := RowCmp(data, env, aSort, IndexTie(rev));
    forall a, b | a in d && b in d ensures aw(a, b) == fixed(a, b) {
      TieAgrees(|master|, rev, a, b);
      SameTieSameCmp(data, env, aSort, OrigTie(Orig(|master|, rev)), IndexTie(rev), a, b);
    }
    Sorting.InsertionSortAgrees(master, aw, fixed, d);
  }

  /** On two row indexes below `n`, the two tie-breaks agree. */
  lemma TieAgrees(n: nat, rev: bool, a: nat, b: nat)
    requires a < n && b < n
    ensures OrigTie(Orig(n, rev))(a, b) == IndexTie(rev)(a, b)
  {
  }

  /** The comparator depends on the tie-break only through its value on the pair compared. */
  lemma SameTieSameCmp(data: seq<Option<Row>>, env: Env, aSort: seq<SortSpec>, t1: (nat, nat) -> int,
                       t2: (nat, nat) -> int, a: nat, b: nat)
    requires t1(a, b) == t2(a, b)
    ensures RowCmp(data, env, aSort, t1)(a, b) == RowCmp(data, env, aSort, t2)(a, b)
  {
  }

  /** The one instruction of the counterexample: ascending on column 0 with the generic test. */
  function AscOnFirst(): SortSpec {
    SortSpec(0, 0, Str("asc"), 0, Str("num"), Undefined, Undefined)
  }

  /** A row whose cached key for column 0 is 5. */
  function KeyedRow(i: nat): Row {
    Row(Arr([]), i, FromData, Some(map[0 := Num(5)]), None, None)
  }

  /** An arena whose slot 0 was deleted, with rows 1 and 2 tying on their key. */
  function TieData(): seq<Option<Row>> {
    [None, Some(KeyedRow(1)), Some(KeyedRow(2))]
  }

  /** The comparator as written, for ascending order on a two-row master list. */
  function AsWrittenCmp(env: Env): (nat, nat) -> int {
    RowCmp(TieData(), env, [AscOnFirst()], OrigTie(Orig(2, false)))
  }

  /** The comparator with the intended tie-break. */
  function IntendedCmp(env: Env): (nat, nat) -> int {
    RowCmp(TieData(), env, [AscOnFirst()], IndexTie(false))
  }

  /** Rows 1 and 2 tie as written, and are ordered by index with the intended tie-break. */
  lemma TieValues(env: Env)
    ensures AsWrittenCmp(env)(2, 1) == 0 && AsWrittenCmp(env)(1, 2) == 0
    ensures IntendedCmp(env)(1, 2) == -1 && IntendedCmp(env)(2, 1) == 1
  {
    var data := TieData();
    assert SortKey(data, 1, 0) == Num(5) && SortKey(data, 2, 0) == Num(5);
    assert KeysCmp(data, env, [AscOnFirst()], 1, 2, 0) == None;
    assert KeysCmp(data, env, [AscOnFirst()], 2, 1, 0) == None;
  }

  /**
   * The tie-break as written: row 2 is past the end of `aiOrig`, so the
   * result keeps whatever order the master list had; the intended
   * tie-break gives `[1, 2]` from either order.
   */
  lemma TieBreakCounterexample(env: Env)
    ensures var down: seq<nat>, up: seq<nat> := [2, 1], [1, 2];
            && Sorting.InsertionSort(down, AsWrittenCmp(env)) == down
            && Sorting.InsertionSort(up, AsWrittenCmp(env)) == up
            && Sorting.InsertionSort(down, IntendedCmp(env)) == up
            && Sorting.InsertionSort(up, IntendedCmp(env)) == up
  {
    TieValues(env);
    SortTwo(2, 1, AsWrittenCmp(env));
    SortTwo(1, 2, AsWrittenCmp(env));
    SortTwo(2, 1, IntendedCmp(env));
    SortTwo(1, 2, IntendedCmp(env));
  }

  /** The stable sort of two elements swaps them exactly when the first compares above the second. */
  lemma SortTwo(x: nat, y: nat, cmp: (nat, nat) -> int)
    ensures Sorting.InsertionSort([x, y], cmp) == if cmp(x, y) <= 0 then [x, y] else [y, x]
  {
    var s: seq<nat> := [x, y];
    assert s[..1] == [x];
    assert Sorting.InsertionSort([x], cmp) == [x];
  }

  // ---- _fnSortDisplay ----

  /** `masterMap`: each row index to its position in the master list (the last one, were it listed twice). */
  function PosMap(master: seq<nat>): (m: map<nat, nat>)
    ensures forall x :: x in m <==> x in master
    ensures forall x :: x in m ==> m[x] < |master| && master[m[x]] == x
    decreases |master|
  {
    if |master| == 0 then map[]
    else PosMap(master[..|master| - 1])[master[|master| - 1] := |master| - 1]
  }

  /** `map[a] - map[b]`; a row missing from the master list reads `undefined`, the difference is `NaN` and counts as a tie. */
  function PosCmp(m: map<nat, nat>): (nat, nat) -> int {
    (a: nat, b: nat) => if a in m && b in m then m[a] as int - m[b] else 0
  }

  /** The contents of `display` after `_fnSortDisplay(settings, display)`. */
  function DisplayOrder(master: seq<nat>, display: seq<nat>): (r: seq<nat>)
    ensures multiset(r) == multiset(display)
  {
    if |display| < 2 then display else Sorting.InsertionSort(display, PosCmp(PosMap(master)))
  }

  /** `_fnSortDisplay(settings, display)`: sorts `display` in place to follow the order of `master`. */
  method SortDisplay(master: seq<nat>, display: array<nat>)
    modifies display
    ensures display[..] == DisplayOrder(master, old(display[..]))
  {
    if display.Length < 2 {
      return;
    }
    var masterMap := MasterPositions(master);
    var pos := DisplayPositions(display[..], masterMap);
    DisplayCmpAgrees(display[..], masterMap, pos);
    var sorted := Sorting.InsertionSort(display[..], DisplayCmp(pos));
    forall i | 0 <= i < display.Length {
      display[i] := sorted[i];
    }
  }

  /** The comparator of `_fnSortDisplay`: `map[a] - map[b]`, a tie when either is `undefined`. */
  function DisplayCmp(pos: map<nat, Option<nat>>): (nat, nat) -> int {
    (a: nat, b: nat) =>
      if a in pos && b in pos && pos[a].Some? && pos[b].Some? then pos[a].value as int - pos[b].value else 0
  }

  /** On the displayed rows, comparing through `map` is comparing master positions. */
  lemma DisplayCmpAgrees(display: seq<nat>, masterMap: map<nat, nat>, pos: map<nat, Option<nat>>)
    requires forall x :: x in pos <==> x in display
    requires forall x :: x in pos ==> pos[x] == if x in masterMap then Some(masterMap[x]) else None
    ensures Sorting.InsertionSort(display, DisplayCmp(pos)) == Sorting.InsertionSort(display, PosCmp(masterMap))
  {
    var d := set x | x in display;
    forall a, b | a in d && b in d ensures DisplayCmp(pos)(a, b) == PosCmp(masterMap)(a, b) {
      assert a in pos && b in pos;
    }
    Sorting.InsertionSortAgrees(display, DisplayCmp(pos), PosCmp(masterMap), d);
  }

  /** The first loop of `_fnSortDisplay`, filling `masterMap`. */
  method MasterPositions(master: seq<nat>) returns (masterMap: map<nat, nat>)
    ensures masterMap == PosMap(master)
  {
    masterMap := map[];
    for i := 0 to |master|
      invariant masterMap == PosMap(master[..i])
    {
      assert master[..i + 1][..i] == master[..i];
      masterMap := masterMap[master[i] := i];
    }
    assert master[..|master|] == master;
  }

  /** The second loop of `_fnSortDisplay`, filling `map` for the displayed rows; `None` is `undefined`. */
  method DisplayPositions(display: seq<nat>, masterMap: map<nat, nat>) returns (pos: map<nat, Option<nat>>)
    ensures forall x :: x in pos <==> x in display
    ensures forall x :: x in pos ==> pos[x] == if x in masterMap then Some(masterMap[x]) else None
  {
    pos := map[];
    for i := 0 to |display|
      invariant forall x :: x in pos <==> x in display[..i]
      invariant forall x :: x in pos ==> pos[x] == if x in masterMap then Some(masterMap[x]) else None
    {
      pos := pos[display[i] := if display[i] in masterMap then Some(masterMap[display[i]]) else None];
    }
    assert display[..|display|] == display;
  }

  /** The rows of `master` that `display` holds, in master order. */
  function Follow(master: seq<nat>, display: seq<nat>): seq<nat>
    decreases |master|
  {
    if |master| == 0 then []
    else Follow(master[..|master| - 1], display) + (if master[|master| - 1] in display then [master[|master| - 1]] else [])
  }

  /** On a master list without duplicates, a row's recorded position is where it stands. */
  lemma PosMapUnique(master: seq<nat>)
    requires Internal.NoDuplicates(master)
    ensures forall k :: 0 <= k < |master| ==> master[k] in PosMap(master) && PosMap(master)[master[k]] == k
  {
    var m := PosMap(master);
    forall k | 0 <= k < |master| ensures master[k] in m && m[master[k]] == k {
      assert master[k] in master;
    }
  }

  /** The first `n` rows of the master that `display` holds come out in strictly increasing master position. */
  lemma {:induction false} FollowSorted(master: seq<nat>, display: seq<nat>, n: nat)
    requires Internal.NoDuplicates(master) && n <= |master|
    ensures var f := Follow(master[..n], display);
            var m := PosMap(master);
            && (forall x :: x in f <==> x in master[..n] && x in display)
            && (forall i :: 0 <= i < |f| ==> f[i] in m && m[f[i]] < n)
            && (forall i, j :: 0 <= i < j < |f| ==> m[f[i]] < m[f[j]])
  {
    FollowMembers(master[..n], display);
    if n > 0 {
      var m := PosMap(master);
      FollowSorted(master, display, n - 1);
      var prefix := master[..n];
      assert prefix[..n - 1] == master[..n - 1];
      var f0 := Follow(master[..n - 1], display);
      var last := master[n - 1];
      var tail := if last in display then [last] else [];
      assert Follow(prefix, display) == f0 + tail;
      PosMapUnique(master);
      assert last in m && m[last] == n - 1;
      AppendByPosition(f0, tail, m, n);
    }
  }

  /** `Follow` keeps exactly the master rows that `display` holds. */
  lemma {:induction false} FollowMembers(master: seq<nat>, display: seq<nat>)
    ensures forall x :: x in Follow(master, display) <==> x in master && x in display
    decreases |master|
  {
    if |master| > 0 {
      var init := master[..|master| - 1];
      FollowMembers(init, display);
      assert master == init + [master[|master| - 1]];
    }
  }

  /** Rows at master positions below `n - 1`, in increasing position, followed by at most the row at `n - 1`. */
  lemma AppendByPosition(f0: seq<nat>, tail: seq<nat>, m: map<nat, nat>, n: nat)
    requires n > 0 && |tail| <= 1
    requires forall i :: 0 <= i < |f0| ==> f0[i] in m && m[f0[i]] < n - 1
    requires forall i, j :: 0 <= i < j < |f0| ==> m[f0[i]] < m[f0[j]]
    requires forall i :: 0 <= i < |tail| ==> tail[i] in m && m[tail[i]] == n - 1
    ensures var f := f0 + tail;
            && (forall i :: 0 <= i < |f| ==> f[i] in m && m[f[i]] < n)
            && (forall i, j :: 0 <= i < j < |f| ==> m[f[i]] < m[f[j]])
  {
    var f := f0 + tail;
    forall i | 0 <= i < |f| ensures f[i] in m && m[f[i]] < n {
      if i < |f0| {
        assert f[i] == f0[i];
      } else {
        assert f[i] == tail[i - |f0|];
      }
    }
    forall i, j | 0 <= i < j < |f| ensures m[f[i]] < m[f[j]] {
      if j < |f0| {
        assert f[i] == f0[i] && f[j] == f0[j];
      } else {
        assert f[j] == tail[j - |f0|];
        assert f[i] == f0[i];
      }
    }
  }

  /** `Follow` lists the displayed rows once each, sorted by master position. */
  lemma FollowPermutes(master: seq<nat>, display: seq<nat>)
    requires Internal.NoDuplicates(master) && Internal.NoDuplicates(display)
    requires forall x :: x in display ==> x in master
    ensures multiset(Follow(master, display)) == multiset(display)
    ensures Sorting.Sorted(Follow(master, display), PosCmp(PosMap(master)))
  {
    var m := PosMap(master);
    var f := Follow(master, display);
    FollowSorted(master, display, |master|);
    assert master[..|master|] == master;
    assert Internal.NoDuplicates(f);
    Internal.NoDuplicatesMultiset(f);
    Internal.NoDuplicatesMultiset(display);
    forall x ensures multiset(f)[x] == multiset(display)[x] {
      assert x in f <==> x in display;
    }
    assert multiset(f) == multiset(display);
  }

  /** Master positions order the rows of the master list consistently, and separate distinct rows. */
  lemma PosCmpOrder(master: seq<nat>, d: set<nat>)
    requires Internal.NoDuplicates(master) && forall x :: x in d ==> x in master
    ensures Sorting.ConsistentOn(PosCmp(PosMap(master)), d) && Sorting.StrictOn(PosCmp(PosMap(master)), d)
  {
    PosMapUnique(master);
  }

  /**
   * With a master list and a display list free of duplicates, every
   * displayed row being in the master, `_fnSortDisplay` leaves `display`
   * holding its rows in master order.
   */
  lemma DisplayFollowsMaster(master: seq<nat>, display: seq<nat>)
    requires Internal.NoDuplicates(master) && Internal.NoDuplicates(display)
    requires forall x :: x in display ==> x in master
    ensures DisplayOrder(master, display) == Follow(master, display)
  {
    var cmp := PosCmp(PosMap(master));
    var d := set x | x in display;
    FollowPermutes(master, display);
    PosCmpOrder(master, d);
    SortIsUnique(display, Follow(master, display), cmp, d);
  }

  /** Under an order consistent and strict on `display`'s elements, its sorted copy is its only sorted permutation. */
  lemma SortIsUnique(display: seq<nat>, f: seq<nat>, cmp: (nat, nat) -> int, d: set<nat>)
    requires d == set x | x in display
    requires Sorting.ConsistentOn(cmp, d) && Sorting.StrictOn(cmp, d)
    requires multiset(f) == multiset(display) && Sorting.Sorted(f, cmp)
    ensures (if |display| < 2 then display else Sorting.InsertionSort(display, cmp)) == f
  {
    var r := if |display| < 2 then display else Sorting.InsertionSort(display, cmp);
    if |display| >= 2 {
      ElementsIn(display, display, d);
      Sorting.InsertionSortSortedOn(display, cmp, d);
    }
    ElementsIn(r, display, d);
    Sorting.SortedUniqueOn(r, f, cmp, d);
  }

  /** The elements of a permutation of `display` are those of `display`. */
  lemma ElementsIn(r: seq<nat>, display: seq<nat>, d: set<nat>)
    requires multiset(r) == multiset(display) && d == set x | x in display
    ensures forall i :: 0 <= i < |r| ==> r[i] in d
  {
    forall i | 0 <= i < |r| ensures r[i] in d {
      assert r[i] in multiset(display);
    }
  }

  // ---- _fnSortAdd ----

  /** `asSorting[n]`: `undefined` outside the list. */
  function AsSortingAt(asSorting: seq<string>, n: int): (r: Value)
    ensures 0 <= n < |asSorting| ==> r == Str(asSorting[n])
  {
    if 0 <= n < |asSorting| then Str(asSorting[n]) else Undefined
  }

  /**
   * `next(a, overflow)`: the position after the entry's `_idx` (or after
   * its direction's place in `asSorting`), wrapping to 0, or `null`
   * (`None`) past the end when `overflow` is set.
   */
  function NextDir(asSorting: seq<string>, e: SortEntry, overflow: bool): (r: Option<int>)
    ensures !overflow ==> r.Some?
  {
    var idx := match e.idx { case Some(i) => i case None => SortAlgo.DirIndex(asSorting, e.dir) };
    if idx + 1 < |asSorting| then Some(idx + 1) else if overflow then None else Some(0)
  }

  /** `sorting[0][0] == colIdx`, with JavaScript's loose equality on the forms an entry's column takes. */
  predicate LooseEqIndex(v: Value, colIdx: nat): (b: bool)
    ensures v == Num(colIdx) ==> b
    ensures v == Str(NatToString(colIdx)) ==> b
    ensures b ==> v.Num? || v.Str? || v.Bool?
  {
    NatToStringRoundTrip(colIdx);
    match v
    case Num(n) => n == colIdx
    case Str(s) => |s| > 0 && AllDigits(s) && DigitsValue(s) == colIdx
    case Bool(b) => (if b then 1 else 0) == colIdx
    case _ => false
  }

  /** `_pluck(sorting, '0')`: the column of each entry. */
  function EntryColumns(sorting: seq<SortEntry>): (r: seq<Value>)
    ensures |r| == |sorting| && forall k :: 0 <= k < |sorting| ==> r[k] == sorting[k].col
  {
    seq(|sorting|, k requires 0 <= k < |sorting| => sorting[k].col)
  }

  /** The ordering state after a click, and what `_fnSortAdd` returns or throws (`false` only for a column that cannot be ordered). */
  datatype AddOutcome = AddOutcome(sorting: seq<SortEntry>, r: Result<bool>)

  /**
   * `_fnSortAdd(settings, colIdx, addIndex, shift)` on `aaSorting`;
   * `addIndex` stands for a non-zero counter.
   */
  function SortAddSpec(cols: seq<Column>, multi: bool, sorting: seq<SortEntry>, colIdx: nat, addIndex: bool, shift: bool): AddOutcome
    requires colIdx < |cols|
  {
    var col := cols[colIdx];
    var asSorting := col.asSorting;
    if !col.bSortable then AddOutcome(sorting, Ok(false))
    else if (shift || addIndex) && multi then
      var sortIdx := Internal.IndexOf(EntryColumns(sorting), Num(colIdx));
      if sortIdx != -1 then
        var n0 := NextDir(asSorting, sorting[sortIdx], true);
        var n := if n0.None? && |sorting| == 1 then Some(0) else n0;
        if n.None? || AsSortingAt(asSorting, n.value) == Str("") then
          AddOutcome(sorting[..sortIdx] + sorting[sortIdx + 1..], Ok(true))
        else
          AddOutcome(sorting[sortIdx := sorting[sortIdx].(dir := AsSortingAt(asSorting, n.value), idx := n)], Ok(true))
      else if shift then
        AddOutcome(sorting + [SortEntry(Num(colIdx), AsSortingAt(asSorting, 0), Some(0))], Ok(true))
      else if |sorting| == 0 then
        AddOutcome(sorting, Throw("Cannot read properties of undefined"))
      else
        AddOutcome(sorting + [SortEntry(Num(colIdx), sorting[0].dir, Some(0))], Ok(true))
    else if |sorting| > 0 && LooseEqIndex(sorting[0].col, colIdx) then
      var n := NextDir(asSorting, sorting[0], false).value;
      AddOutcome([sorting[0].(dir := AsSortingAt(asSorting, n), idx := Some(n))], Ok(true))
    else
      AddOutcome([SortEntry(Num(colIdx), AsSortingAt(asSorting, 0), Some(0))], Ok(true))
  }

  /** `_fnSortAdd(settings, colIdx, addIndex, shift)`: the ordering a header click asks for. */
  method SortAdd(s: Settings, colIdx: nat, addIndex: bool, shift: bool) returns (r: Result<bool>)
    requires colIdx < |s.aoColumns|
    modifies s
    ensures var o := SortAddSpec(old(s.aoColumns), old(s.oFeatures.bSortMulti), old(s.aaSorting), colIdx, addIndex, shift);
            s.Contents() == old(s.Contents()).(sorting := o.sorting) && r == o.r
  {
    var col := s.aoColumns[colIdx];
    var sorting := s.aaSorting;
    var asSorting := col.asSorting;
    if !col.bSortable {
      return Ok(false);
    }
    if (shift || addIndex) && s.oFeatures.bSortMulti {
      var sortIdx := Internal.IndexOf(EntryColumns(sorting), Num(colIdx));
      if sortIdx != -1 {
        var nextSortIdx := NextDir(asSorting, sorting[sortIdx], true);
        if nextSortIdx.None? && |sorting| == 1 {
          nextSortIdx := Some(0);
        }
        if nextSortIdx.None? || AsSortingAt(asSorting, nextSortIdx.value) == Str("") {
          s.aaSorting := sorting[..sortIdx] + sorting[sortIdx + 1..];
        } else {
          s.aaSorting := sorting[sortIdx := sorting[sortIdx].(dir := AsSortingAt(asSorting, nextSortIdx.value), idx := nextSortIdx)];
        }
      } else if shift {
        s.aaSorting := sorting + [SortEntry(Num(colIdx), AsSortingAt(asSorting, 0), Some(0))];
      } else {
        if |sorting| == 0 {
          return Throw("Cannot read properties of undefined");
        }
        s.aaSorting := sorting + [SortEntry(Num(colIdx), sorting[0].dir, Some(0))];
      }
    } else if |sorting| > 0 && LooseEqIndex(sorting[0].col, colIdx) {
      var nextSortIdx := NextDir(asSorting, sorting[0], false).value;
      s.aaSorting := [sorting[0].(dir := AsSortingAt(asSorting, nextSortIdx), idx := Some(nextSortIdx))];
    } else {
      s.aaSorting := [SortEntry(Num(colIdx), AsSortingAt(asSorting, 0), Some(0))];
    }
    return Ok(true);
  }

  // ---- properties of _fnSortAdd ----

  /** A column that cannot be ordered: the click returns `false` and changes nothing. */
  lemma NotSortableUnchanged(cols: seq<Column>, multi: bool, sorting: seq<SortEntry>, colIdx: nat, addIndex: bool, shift: bool)
    requires colIdx < |cols| && !cols[colIdx].bSortable
    ensures SortAddSpec(cols, multi, sorting, colIdx, addIndex, shift) == AddOutcome(sorting, Ok(false))
  {
  }

  /** A plain click is a single-column click: multi-column ordering is off, or neither shift nor a counter asks for it. */
  predicate SingleClick(multi: bool, addIndex: bool, shift: bool) {
    !((shift || addIndex) && multi)
  }

  /**
   * Clicking again on the column the table is ordered by keeps a single
   * entry and advances its direction one step through `asSorting`,
   * wrapping from the last back to the first.
   */
  lemma ReclickAdvances(cols: seq<Column>, multi: bool, sorting: seq<SortEntry>, colIdx: nat, addIndex: bool, shift: bool, i: nat)
    requires colIdx < |cols| && cols[colIdx].bSortable && SingleClick(multi, addIndex, shift)
    requires |sorting| > 0 && sorting[0].col == Num(colIdx) && sorting[0].idx == Some(i)
    requires i < |cols[colIdx].asSorting|
    ensures var n := (i + 1) % |cols[colIdx].asSorting|;
            SortAddSpec(cols, multi, sorting, colIdx, addIndex, shift) ==
              AddOutcome([sorting[0].(dir := Str(cols[colIdx].asSorting[n]), idx := Some(n))], Ok(true))
  {
  }

  /** Clicking a column the table is not ordered by first orders it by that column alone, in its first direction. */
  lemma ClickOtherColumn(cols: seq<Column>, multi: bool, sorting: seq<SortEntry>, colIdx: nat, addIndex: bool, shift: bool)
    requires colIdx < |cols| && cols[colIdx].bSortable && SingleClick(multi, addIndex, shift)
    requires |sorting| == 0 || (sorting[0].col.Num? && sorting[0].col.n != colIdx)
    ensures SortAddSpec(cols, multi, sorting, colIdx, addIndex, shift) ==
              AddOutcome([SortEntry(Num(colIdx), AsSortingAt(cols[colIdx].asSorting, 0), Some(0))], Ok(true))
  {
  }

  /**
   * A shift-click on a column already in the ordering, whose direction is
   * the last in `asSorting`, removes it, unless it is the only entry, which
   * then goes back to the first direction (or is removed too, when that
   * direction is `''`).
   */
  lemma ShiftClickOverflow(cols: seq<Column>, multi: bool, sorting: seq<SortEntry>, colIdx: nat, addIndex: bool, k: nat)
    requires colIdx < |cols| && cols[colIdx].bSortable && multi
    requires k < |sorting| && sorting[k].col == Num(colIdx) && forall j :: 0 <= j < k ==> sorting[j].col != Num(colIdx)
    requires sorting[k].idx == Some(|cols[colIdx].asSorting| - 1)
    ensures var o := SortAddSpec(cols, multi, sorting, colIdx, addIndex, true);
            var asSorting := cols[colIdx].asSorting;
            && o.r == Ok(true)
            && (|sorting| > 1 || AsSortingAt(asSorting, 0) == Str("") ==> o.sorting == sorting[..k] + sorting[k + 1..])
            && (|sorting| == 1 && AsSortingAt(asSorting, 0) != Str("") ==>
                  o.sorting == [sorting[0].(dir := AsSortingAt(asSorting, 0), idx := Some(0))])
  {
    var sortIdx := Internal.IndexOf(EntryColumns(sorting), Num(colIdx));
    assert sortIdx == k;
  }

  /** A shift-click on a column not yet in the ordering appends it in its first direction. */
  lemma ShiftClickAppends(cols: seq<Column>, multi: bool, sorting: seq<SortEntry>, colIdx: nat, addIndex: bool)
    requires colIdx < |cols| && cols[colIdx].bSortable && multi
    requires forall j :: 0 <= j < |sorting| ==> sorting[j].col != Num(colIdx)
    ensures SortAddSpec(cols, multi, sorting, colIdx, addIndex, true) ==
              AddOutcome(sorting + [SortEntry(Num(colIdx), AsSortingAt(cols[colIdx].asSorting, 0), Some(0))], Ok(true))
  {
    assert Num(colIdx) !in EntryColumns(sorting);
  }

  /** `n` plain clicks on the ordering column, from direction `i`. */
  function Clicks(cols: seq<Column>, sorting: seq<SortEntry>, colIdx: nat, n: nat): seq<SortEntry>
    requires colIdx < |cols|
  {
    if n == 0 then sorting else SortAddSpec(cols, false, Clicks(cols, sorting, colIdx, n - 1), colIdx, false, false).sorting
  }

  /**
   * Clicking the ordering column `n` times, up to once per direction, from
   * direction `i` moves it `n` steps forward around `asSorting`; after one
   * click per direction it is back where it started.
   */
  lemma {:induction false} ClicksCycle(cols: seq<Column>, sorting: seq<SortEntry>, colIdx: nat, i: nat, n: nat)
    requires colIdx < |cols| && cols[colIdx].bSortable
    requires |sorting| > 0 && sorting[0].col == Num(colIdx) && sorting[0].idx == Some(i)
    requires i < |cols[colIdx].asSorting| && 0 < n <= |cols[colIdx].asSorting|
    ensures var len := |cols[colIdx].asSorting|;
            var m := if i + n < len then i + n else i + n - len;
            Clicks(cols, sorting, colIdx, n) == [sorting[0].(dir := Str(cols[colIdx].asSorting[m]), idx := Some(m))]
    ensures n == |cols[colIdx].asSorting| ==> Clicks(cols, sorting, colIdx, n)[0].idx == sorting[0].idx
  {
    var len := |cols[colIdx].asSorting|;
    var prev := Clicks(cols, sorting, colIdx, n - 1);
    var j := if i + n - 1 < len then i + n - 1 else i + n - 1 - len;
    if n > 1 {
      ClicksCycle(cols, sorting, colIdx, i, n - 1);
    }
    assert prev[0].col == Num(colIdx) && prev[0].idx == Some(j);
    ReclickAdvances(cols, false, prev, colIdx, false, false, j);
    if j + 1 < len {
      assert (j + 1) % len == j + 1;
    } else {
      assert (j + 1) % len == 0;
    }
  }


}
