/**
 * The selector machinery behind `rows()`, `columns()` and `cells()`:
 * `_selector_opts`, `_selector_run`, `_selector_first` and
 * `_selector_row_indexes` of `src/api/api.base.js` (the same code is repeated
 * in `src/api/api.all.js`), and the row, column and cell selectors of
 * `src/api/api.all.js`. A selector is a list of atoms; each atom resolves to
 * a list of results, the lists are concatenated in atom order, passed through
 * the selector extensions and de-duplicated.
 */
module Selector {
  import opened Wrappers
  import opened JsValue
  import opened Table
  import Internal
  import Jq
  import Sorting
  import TypeRegistry
  import ColumnTypes
  import Columns
  import Data
  import Sort

  /**
   * What the selectors hand to code outside the model: the jQuery filter of
   * a selector over the candidate rows' `tr` nodes (the `_DT_RowIndex` of each
   * match), over the header cells (column indexes, ascending) and over the
   * body cells (their `_DT_CellIndex`); the column data a function column
   * selector is given (`__columnData` over the candidate rows), the
   * column's header cell, and whether a jQuery selector keeps that header
   * cell.
   */
  datatype Dom = Dom(
    rowQuery: (Value, seq<nat>) -> seq<Option<nat>>,
    columnQuery: Value -> seq<Option<int>>,
    cellQuery: Value -> seq<CellPos>,
    columnData: (nat, seq<nat>) -> Value,
    columnHeader: nat -> Value,
    headerFilter: (string, nat) -> bool)

  /**
   * A cell index object. `Made` is one the selector builds (`{row, column}`),
   * new each time, which `stamp` tells apart; `Given` is a plain object the
   * caller passed in and gets back as it is.
   */
  datatype CellObj = Made(row: nat, column: int, stamp: (nat, nat, nat)) | Given(obj: Value)

  /**
   * Everything a selection reads besides the table: the configured
   * functions, the type registry, the detectors, `_dt_ext_types.order`, the
   * DOM, and the selector extensions `_dt_ext_selector` for each kind.
   */
  datatype Ctx = Ctx(env: Env, types: TypeRegistry.Types, impl: Value -> ColumnTypes.DetectFns,
                     ext: Value -> Value, dom: Dom,
                     rowExt: seq<seq<nat> -> seq<nat>>, columnExt: seq<seq<int> -> seq<int>>,
                     cellExt: seq<seq<CellObj> -> seq<CellObj>>)

  // ---- _selector_opts ----

  function OptDefaults(): seq<Field> {
    [Field("columnOrder", Str("implied")), Field("search", Str("none")),
     Field("order", Str("current")), Field("page", Str("all"))]
  }

  /** The caller's options after a legacy `filter` is copied to an undefined `search`. */
  function WithLegacyFilter(opts: Value): Value {
    if opts.Obj? && Truthy(Get(opts.fields, "filter")) && Get(opts.fields, "search") == Undefined
    then Obj(Put(opts.fields, "search", Get(opts.fields, "filter")))
    else opts
  }

  /** `_selector_opts(opts)`: the defaults, overridden by every option the caller defines. */
  function SelectorOpts(opts: Value): (r: seq<Field>)
    ensures !Truthy(opts) ==> r == OptDefaults()
  {
    var o := if Truthy(opts) then opts else Obj([]);
    assert !Truthy(opts) ==>
             WithLegacyFilter(o) == Obj([]) &&
             Jq.Extend(false, OptDefaults(), [Obj([])]) == Jq.Extend(false, Jq.MergeFields(false, OptDefaults(), []), []);
    Jq.Extend(false, OptDefaults(), [WithLegacyFilter(o)])
  }

  /**
   * Each of `columnOrder`, `order` and `page` is the caller's when defined and
   * the default otherwise; `search` falls back to a truthy legacy `filter`
   * before its default. Missing options (`undefined`, `null`) give the defaults.
   */
  lemma OptsLookup(opts: Value, k: string)
    requires !Truthy(opts) || (opts.Obj? && UniqueKeys(opts.fields))
    requires k in {"columnOrder", "search", "order", "page"}
    ensures var f := if opts.Obj? then opts.fields else [];
            var given := Get(f, k);
            Get(SelectorOpts(opts), k) ==
              if given != Undefined then given
              else if k == "search" && Truthy(Get(f, "filter")) then Get(f, "filter")
              else Get(OptDefaults(), k)
  {
    var o := if Truthy(opts) then opts else Obj([]);
    var w := WithLegacyFilter(o);
    assert w.Obj? && UniqueKeys(w.fields);
    Jq.ShallowLookup(OptDefaults(), w.fields, k);
    assert Jq.Extend(false, OptDefaults(), [w]) == Jq.MergeFields(false, OptDefaults(), w.fields);
  }

  // ---- _selector_run ----

  /** A list is its elements; anything else (falsy, a string, a function, no `length`) is one atom. */
  function Atoms(selector: Value): seq<Value> {
    if selector.Arr? then selector.items else [selector]
  }

  /** String atoms are trimmed before they are resolved. */
  function Trimmed(v: Value): Value {
    if v.Str? then Str(Trim(v.s)) else v
  }

  /** One atom's results without the `null`/`undefined` entries, in order. */
  function Present<T(!new)>(res: seq<Option<T>>): (r: seq<T>)
    ensures |r| <= |res|
    ensures forall x :: x in r <==> Some(x) in res
  {
    if |res| == 0 then []
    else
      var init := res[..|res| - 1];
      assert res == init + [res[|res| - 1]];
      Present(init) + (if res[|res| - 1].Some? then [res[|res| - 1].value] else [])
  }

  /** The results of atoms `0 .. i-1` concatenated, or the first exception. */
  function Gathered<T(!new)>(atoms: seq<Value>, run: (nat, Value) -> Result<seq<Option<T>>>, i: nat): Result<seq<T>>
    requires i <= |atoms|
  {
    if i == 0 then Ok([])
    else match Gathered(atoms, run, i - 1)
      case Throw(m) => Throw(m)
      case Ok(out) =>
        match run(i - 1, Trimmed(atoms[i - 1]))
        case Throw(m) => Throw(m)
        case Ok(res) => Ok(out + Present(res))
  }

  /** The selector extensions applied in turn. */
  function Extended<T>(out: seq<T>, exts: seq<seq<T> -> seq<T>>): seq<T> {
    if |exts| == 0 then out else exts[|exts| - 1](Extended(out, exts[..|exts| - 1]))
  }

  /** `_selector_run(type, selector, selectFn, settings, opts)`; `run` receives the atom's position too. */
  function RunSpec<T(==,!new)>(selector: Value, run: (nat, Value) -> Result<seq<Option<T>>>,
                               exts: seq<seq<T> -> seq<T>>): (r: Result<seq<T>>)
    ensures r.Ok? ==> Internal.NoDuplicates(r.value)
  {
    var atoms := Atoms(selector);
    match Gathered(atoms, run, |atoms|)
    case Throw(m) => Throw(m)
    case Ok(out) => Ok(Internal.Distinct(Extended(out, exts)))
  }

  /** Once an atom throws, the selection throws that exception. */
  lemma {:induction false} GatheredThrows<T(!new)>(atoms: seq<Value>, run: (nat, Value) -> Result<seq<Option<T>>>,
                                             i: nat, j: nat)
    requires i <= j <= |atoms| && Gathered(atoms, run, i).Throw?
    ensures Gathered(atoms, run, j) == Gathered(atoms, run, i)
    decreases j - i
  {
    if i < j {
      GatheredThrows(atoms, run, i, j - 1);
    }
  }

  /** The loop of `_selector_run`. */
  method SelectorRun<T(==,!new)>(selector: Value, run: (nat, Value) -> Result<seq<Option<T>>>,
                                 exts: seq<seq<T> -> seq<T>>) returns (r: Result<seq<T>>)
    ensures r == RunSpec(selector, run, exts)
  {
    var atoms := Atoms(selector);
    var out: seq<T> := [];
    for i := 0 to |atoms|
      invariant Gathered(atoms, run, i) == Ok(out)
    {
      var res := run(i, Trimmed(atoms[i]));
      if res.Throw? {
        GatheredThrows(atoms, run, i + 1, |atoms|);
        return Throw(res.message);
      }
      out := out + Present(res.value);
    }
    ghost var gathered := out;
    for k := 0 to |exts|
      invariant out == Extended(gathered, exts[..k])
    {
      assert exts[..k + 1][..k] == exts[..k];
      out := exts[k](out);
    }
    assert exts[..|exts|] == exts;
    r := Ok(Internal.Distinct(out));
  }

  /**
   * Without extensions, a selection holds exactly what some atom resolved
   * to (and nothing twice).
   */
  lemma {:induction false} GatheredMembers<T(!new)>(atoms: seq<Value>, run: (nat, Value) -> Result<seq<Option<T>>>, i: nat)
    requires i <= |atoms| && Gathered(atoms, run, i).Ok?
    ensures forall k :: 0 <= k < i ==> run(k, Trimmed(atoms[k])).Ok?
    ensures forall x :: x in Gathered(atoms, run, i).value <==>
              exists k :: 0 <= k < i && Some(x) in run(k, Trimmed(atoms[k])).value
  {
    if i > 0 {
      GatheredMembers(atoms, run, i - 1);
      var out := Gathered(atoms, run, i - 1).value;
      var res := run(i - 1, Trimmed(atoms[i - 1])).value;
      assert Gathered(atoms, run, i).value == out + Present(res);
      forall x | x in out + Present(res)
        ensures exists k :: 0 <= k < i && Some(x) in run(k, Trimmed(atoms[k])).value
      {
        if x !in out {
          assert Some(x) in run(i - 1, Trimmed(atoms[i - 1])).value;
        }
      }
    }
  }

  lemma RunMembers<T(!new)>(selector: Value, run: (nat, Value) -> Result<seq<Option<T>>>)
    requires RunSpec(selector, run, []).Ok?
    ensures var atoms := Atoms(selector);
            forall x :: x in RunSpec(selector, run, []).value <==>
              exists k :: 0 <= k < |atoms| && run(k, Trimmed(atoms[k])).Ok? && Some(x) in run(k, Trimmed(atoms[k])).value
  {
    GatheredMembers(Atoms(selector), run, |Atoms(selector)|);
  }

  /** Naming the same atom twice selects what naming it once does: `[A, A]` resolves like `A`. */
  lemma RepeatedAtom<T(!new)>(a: Value, run: (nat, Value) -> Result<seq<Option<T>>>)
    requires !a.Arr? && run(1, Trimmed(a)) == run(0, Trimmed(a))
    ensures RunSpec(Arr([a, a]), run, []) == RunSpec(a, run, [])
  {
    assert Atoms(Arr([a, a])) == [a, a];
    PairGathered(a, run);
    match run(0, Trimmed(a))
    case Ok(res) =>
      SingleAtom(a, run, res);
      Internal.DistinctTwice(Present(res));
    case Throw(m) =>
      SingleAtomThrows(a, run);
  }

  /** Two copies of one atom gather its results twice over, or throw as it does. */
  lemma PairGathered<T(!new)>(a: Value, run: (nat, Value) -> Result<seq<Option<T>>>)
    requires run(1, Trimmed(a)) == run(0, Trimmed(a))
    ensures Gathered([a, a], run, 2) ==
            match run(0, Trimmed(a))
            case Ok(res) => Ok(Present(res) + Present(res))
            case Throw(m) => Throw(m)
  {
    assert [a, a][0] == a && [a, a][1] == a;
    var first := Gathered([a, a], run, 1);
    assert Gathered([a, a], run, 0) == Ok([]);
    match run(0, Trimmed(a))
    case Ok(res) =>
      assert first == Ok([] + Present(res));
      assert [] + Present(res) == Present(res);
    case Throw(m) =>
      assert first == Throw(m);
  }

  lemma SingleAtomThrows<T(!new)>(a: Value, run: (nat, Value) -> Result<seq<Option<T>>>)
    requires !a.Arr? && run(0, Trimmed(a)).Throw?
    ensures Gathered(Atoms(a), run, |Atoms(a)|) == Throw(run(0, Trimmed(a)).message)
  {
    assert Gathered(Atoms(a), run, 0) == Ok([]);
  }

  // ---- _selector_first ----

  /** `_selector_first`: the first table's result only, cut down to its first element. */
  function SelectorFirst<T>(res: seq<seq<T>>): (r: seq<seq<T>>)
    ensures |r| == (if |res| == 0 then 0 else 1)
    ensures |res| > 0 ==> (|r[0]| == 0 <==> |res[0]| == 0) && |r[0]| <= 1 && r[0] == res[0][..|r[0]|]
  {
    if |res| == 0 then [] else if |res[0]| > 1 then [res[0][..1]] else [res[0]]
  }

  /** Taking the first of a first changes nothing. */
  lemma FirstIdempotent<T>(res: seq<seq<T>>)
    ensures SelectorFirst(SelectorFirst(res)) == SelectorFirst(res)
  {
  }

  // ---- _selector_row_indexes ----

  /** The row indexes `0 .. n-1`. */
  function Indices(n: nat): (r: seq<nat>)
    ensures |r| == n && forall i :: 0 <= i < n ==> r[i] == i
  {
    seq(n, i requires 0 <= i < n => i)
  }

  /** The elements of `xs` that `p` keeps, in order. */
  function Keep(xs: seq<nat>, p: nat -> bool): (r: seq<nat>)
    ensures |r| <= |xs|
    ensures forall x :: x in r <==> x in xs && p(x)
  {
    if |xs| == 0 then []
    else
      var init := xs[..|xs| - 1];
      assert xs == init + [xs[|xs| - 1]];
      Keep(init, p) + (if p(xs[|xs| - 1]) then [xs[|xs| - 1]] else [])
  }

  predicate Increasing(s: seq<nat>) {
    forall i, j :: 0 <= i < j < |s| ==> s[i] < s[j]
  }

  /** `Keep` preserves a strictly increasing order. */
  lemma {:induction false} KeepIncreasing(xs: seq<nat>, p: nat -> bool)
    requires Increasing(xs)
    ensures Increasing(Keep(xs, p))
  {
    if |xs| > 0 {
      var init := xs[..|xs| - 1];
      var last := xs[|xs| - 1];
      KeepIncreasing(init, p);
      var k := Keep(init, p);
      var r := Keep(xs, p);
      assert r == k + (if p(last) then [last] else []);
      forall i | 0 <= i < |k| ensures k[i] < last {
        assert k[i] in init;
      }
      forall i, j | 0 <= i < j < |r| ensures r[i] < r[j] {
        if j < |k| {
          assert r[i] == k[i] && r[j] == k[j];
        } else {
          assert r[i] == k[i] && r[j] == last;
        }
      }
    }
  }

  /**
   * The `search` option for one row: every row for `none`, the rows in
   * `aiDisplay` for `applied`, the others for `removed`, and none for any
   * other value.
   */
  predicate InSearch(search: Value, display: seq<nat>, i: nat) {
    search == Str("none") || (search == Str("applied") && i in display) || (search == Str("removed") && i !in display)
  }

  function SearchFilter(search: Value, display: seq<nat>): nat -> bool {
    (i: nat) => InSearch(search, display, i)
  }

  function IndexFilter(data: seq<Option<Row>>, search: Value, display: seq<nat>): nat -> bool {
    (i: nat) => i < |data| && data[i].Some? && InSearch(search, display, i)
  }

  /**
   * `settings.fnDisplayEnd()` outside server-side processing: the end of the
   * current page within `aiDisplay`, or all of it when paging is off or the
   * length is -1.
   */
  function DisplayEnd(t: TableState): (r: int)
    ensures r <= |t.display|
    ensures !t.features.bPaginate || t.length == -1 ==> r == |t.display|
  {
    var stop := t.start + t.length;
    if !t.features.bPaginate || stop > |t.display| || t.length == -1 then |t.display| else stop
  }

  /** The rows of the current page: `aiDisplay[_iDisplayStart .. fnDisplayEnd())`. */
  function PageRows(t: TableState): (r: seq<nat>)
  {
    if t.start < DisplayEnd(t) then t.display[t.start..DisplayEnd(t)] else []
  }

  const UndefinedRead := "Cannot read properties of undefined"

  /** What a step that may sort leaves behind: the new state and the rows (or the exception). */
  datatype RowsOutcome = RowsOutcome(t: TableState, rows: Result<seq<nat>>)

  /**
   * `_selector_row_indexes(settings, opts)`. A numeric `order` sorts a copy
   * of the master list on that column (`_fnSort(settings, order, 'asc')`),
   * which types the columns and fills the key caches on the way.
   */
  function RowIndexesSpec(t: TableState, c: Ctx, opts: seq<Field>): RowsOutcome
    requires ColumnsWf(t.columns)
  {
    var search, order, page := Get(opts, "search"), Get(opts, "order"), Get(opts, "page");
    if t.features.serverSide then
      RowsOutcome(t, Ok(if search == Str("removed") then [] else Indices(|t.master|)))
    else if page == Str("current") then RowsOutcome(t, Ok(PageRows(t)))
    else if order == Str("current") || order == Str("applied") then
      RowsOutcome(t, Ok(if search == Str("none") then t.master
                        else if search == Str("applied") then t.display
                        else if search == Str("removed") then Keep(t.master, SearchFilter(search, t.display))
                        else []))
    else if order == Str("index") || order == Str("original") then
      RowsOutcome(t, Ok(Keep(Indices(|t.data|), IndexFilter(t.data, search, t.display))))
    else if order.Num? then
      if 0 <= order.n < |t.columns| then
        var o := Sort.SortRunSpec(t, c.env, c.types, c.impl, c.ext, Some(order.n), Str("asc"));
        match o.r
        case Throw(m) => RowsOutcome(o.t, Throw(m))
        case Ok(ordered) =>
          RowsOutcome(o.t, Ok(if search == Str("none") then ordered else Keep(ordered, SearchFilter(search, o.t.display))))
      else
        // `aoColumns[order]` is undefined: reading its type throws, after the columns were typed
        RowsOutcome(ColumnTypes.TypesFrom(t, c.env, c.types, c.impl, 0), Throw(UndefinedRead))
    else RowsOutcome(t, Ok([]))
  }

  /** The filtering loops of `_selector_row_indexes`. */
  method KeepLoop(xs: seq<nat>, p: nat -> bool) returns (a: seq<nat>)
    ensures a == Keep(xs, p)
  {
    a := [];
    for i := 0 to |xs|
      invariant a == Keep(xs[..i], p)
    {
      assert xs[..i + 1][..i] == xs[..i];
      if p(xs[i]) {
        a := a + [xs[i]];
      }
    }
    assert xs[..|xs|] == xs;
  }

  /** The loop over the current page of `_selector_row_indexes`. */
  method PageLoop(s: Settings) returns (a: seq<nat>)
    ensures a == PageRows(s.Contents())
  {
    a := [];
    var end := DisplayEnd(s.Contents());
    if s.iDisplayStart < end {
      for i := s.iDisplayStart to end
        invariant a == s.aiDisplay[s.iDisplayStart..i]
      {
        a := a + [s.aiDisplay[i]];
      }
    }
  }

  /** `_selector_row_indexes(settings, opts)`. */
  method RowIndexes(s: Settings, c: Ctx, opts: seq<Field>) returns (r: Result<seq<nat>>)
    requires ColumnsWf(s.aoColumns)
    modifies s
    ensures var o := RowIndexesSpec(old(s.Contents()), c, opts);
            s.Contents() == o.t && r == o.rows
  {
    var search, order, page := Get(opts, "search"), Get(opts, "order"), Get(opts, "page");
    if s.oFeatures.serverSide {
      return Ok(if search == Str("removed") then [] else Indices(|s.aiDisplayMaster|));
    }
    var a: seq<nat> := [];
    if page == Str("current") {
      a := PageLoop(s);
    } else if order == Str("current") || order == Str("applied") {
      if search == Str("none") {
        a := s.aiDisplayMaster;
      } else if search == Str("applied") {
        a := s.aiDisplay;
      } else if search == Str("removed") {
        a := KeepLoop(s.aiDisplayMaster, SearchFilter(search, s.aiDisplay));
      }
    } else if order == Str("index") || order == Str("original") {
      a := KeepLoop(Indices(|s.aoData|), IndexFilter(s.aoData, search, s.aiDisplay));
    } else if order.Num? {
      if !(0 <= order.n < |s.aoColumns|) {
        ColumnTypes.ColumnTypes(s, c.env, c.types, c.impl);
        return Throw(UndefinedRead);
      }
      var ordered := Sort.SortRun(s, c.env, c.types, c.impl, c.ext, Some(order.n), Str("asc"));
      if ordered.Throw? {
        return ordered;
      }
      if search == Str("none") {
        a := ordered.value;
      } else {
        a := KeepLoop(ordered.value, SearchFilter(search, s.aiDisplay));
      }
    }
    r := Ok(a);
  }

  // ---- properties of _selector_row_indexes ----

  lemma IndicesIncreasing(n: nat)
    ensures Increasing(Indices(n))
  {
  }

  /**
   * `order: 'index'` (or `'original'`) lists the live rows that pass the
   * `search` option, in ascending index order, and changes nothing.
   */
  lemma IndexOrderRows(t: TableState, c: Ctx, opts: seq<Field>)
    requires ColumnsWf(t.columns) && !t.features.serverSide && Get(opts, "page") != Str("current")
    requires Get(opts, "order") == Str("index") || Get(opts, "order") == Str("original")
    ensures var o := RowIndexesSpec(t, c, opts);
            && o.t == t && o.rows.Ok? && Increasing(o.rows.value)
            && forall i: nat :: i in o.rows.value <==> Live(t, i) && InSearch(Get(opts, "search"), t.display, i)
  {
    IndicesIncreasing(|t.data|);
    forall i: nat | i < |t.data| ensures i in Indices(|t.data|) {
      assert Indices(|t.data|)[i] == i;
    }
    KeepIncreasing(Indices(|t.data|), IndexFilter(t.data, Get(opts, "search"), t.display));
  }

  /**
   * With the current order, `search: 'applied'` and `search: 'removed'` split
   * the master list: when every displayed row is in the master list, each
   * master row comes back under exactly one of the two, and nothing else does.
   */
  lemma SearchSplitsMaster(t: TableState, c: Ctx, applied: seq<Field>, removed: seq<Field>)
    requires ColumnsWf(t.columns) && !t.features.serverSide
    requires forall x :: x in t.display ==> x in t.master
    requires Get(applied, "search") == Str("applied") && Get(removed, "search") == Str("removed")
    requires Get(applied, "page") != Str("current") && Get(removed, "page") != Str("current")
    requires Get(applied, "order") in {Str("current"), Str("applied")}
    requires Get(removed, "order") in {Str("current"), Str("applied")}
    ensures var a := RowIndexesSpec(t, c, applied).rows;
            var r := RowIndexesSpec(t, c, removed).rows;
            && a.Ok? && r.Ok?
            && (forall x :: x in t.master <==> x in a.value || x in r.value)
            && (forall x :: !(x in a.value && x in r.value))
  {
  }

  /** `page: 'current'` lists the current page of `aiDisplay`, whatever `order` and `search` say. */
  lemma CurrentPageRows(t: TableState, c: Ctx, opts: seq<Field>)
    requires ColumnsWf(t.columns) && !t.features.serverSide && Get(opts, "page") == Str("current")
    ensures var o := RowIndexesSpec(t, c, opts);
            && o.t == t && o.rows.Ok?
            && (t.start <= |t.display| ==> o.rows.value == t.display[t.start..t.start + |o.rows.value|])
            && (t.start > |t.display| ==> o.rows.value == [])
            && (t.features.bPaginate && t.length > 0 ==> |o.rows.value| <= t.length)
            && (!t.features.bPaginate || t.length == -1 ==>
                  o.rows.value == (if t.start <= |t.display| then t.display[t.start..] else []))
  {
  }

  /**
   * A numeric `order` lists every master row once, ordered on that column,
   * and leaves the master list and the ordering state as they were.
   */
  lemma ColumnOrderRows(t: TableState, c: Ctx, opts: seq<Field>, col: nat)
    requires ColumnsWf(t.columns) && !t.features.serverSide && Get(opts, "page") != Str("current")
    requires Get(opts, "order") == Num(col) && col < |t.columns| && Get(opts, "search") == Str("none")
    ensures var o := RowIndexesSpec(t, c, opts);
            && o.t.master == t.master && o.t.sorting == t.sorting && o.t.sorted == t.sorted
            && (o.rows.Ok? ==> multiset(o.rows.value) == multiset(t.master))
  {
    Sort.ColumnSortLeavesMaster(t, c.env, c.types, c.impl, c.ext, col, Str("asc"));
  }

  /** In server-side processing the options other than `search` make no difference. */
  lemma ServerSideRows(t: TableState, c: Ctx, opts: seq<Field>, other: seq<Field>)
    requires ColumnsWf(t.columns) && t.features.serverSide && Get(opts, "search") == Get(other, "search")
    ensures RowIndexesSpec(t, c, opts) == RowIndexesSpec(t, c, other)
    ensures RowIndexesSpec(t, c, opts).t == t
    ensures var r := RowIndexesSpec(t, c, opts).rows;
            r.Ok? && Increasing(r.value) && forall i: nat :: i in r.value ==> i < |t.master|
  {
  }

  // ---- __row_selector ----

  /** Every candidate, as the results of one atom. */
  function AllOf<T>(xs: seq<T>): (r: seq<Option<T>>)
    ensures |r| == |xs| && forall i :: 0 <= i < |xs| ==> r[i] == Some(xs[i])
  {
    seq(|xs|, i requires 0 <= i < |xs| => Some(xs[i]))
  }

  /** `sel(idx, row._aData, row.nTr)` is truthy; the row's `tr` node is passed as `null`. */
  function RowPicked(t: TableState, env: Env, f: Value): nat -> bool {
    (i: nat) => Live(t, i) && Truthy(env.call(f, Undefined, [Num(i), t.data[i].value.data, Null]))
  }

  /**
   * A function atom: `rows.map(idx => sel(idx, row._aData, row.nTr) ? idx : null)`,
   * which throws on the first candidate whose slot is empty.
   */
  function FnRows(t: TableState, env: Env, f: Value, rows: seq<nat>): Result<seq<Option<nat>>>
  {
    if |rows| == 0 then Ok([])
    else match FnRows(t, env, f, rows[..|rows| - 1])
      case Throw(m) => Throw(m)
      case Ok(init) =>
        var idx := rows[|rows| - 1];
        if !Live(t, idx) then Throw(if idx < |t.data| then Sort.NullRead else UndefinedRead)
        else Ok(init + [if RowPicked(t, env, f)(idx) then Some(idx) else None])
  }

  /** The `run` function of `__row_selector` for one atom, over the candidate rows. */
  function RowRun(t: TableState, c: Ctx, rows: seq<nat>, sel: Value): (r: Result<seq<Option<nat>>>)
    ensures (sel == Null || sel == Undefined) ==> r == Ok(AllOf(rows))
  {
    var selInt := Internal.IntVal(sel);
    if selInt.Some? && 0 <= selInt.value && (selInt.value as nat) in rows then Ok([Some(selInt.value as nat)])
    else if sel == Null || sel == Undefined || sel == Str("") then Ok(AllOf(rows))
    else if sel.Fn? then FnRows(t, c.env, sel, rows)
    else if sel.Str? && |sel.s| > 0 && sel.s[0] == '#' && sel.s[1..] in t.ids then Ok([Some(t.ids[sel.s[1..]])])
    // a DOM node, a jQuery selector string, an array of nodes: matched against the rows' `tr` nodes
    else if sel.Str? || sel.Arr? || sel.Node? then Ok(c.dom.rowQuery(sel, rows))
    // jQuery's `filter` keeps no node for a number, a boolean or a plain object
    else Ok([])
  }

  function RowAtom(t: TableState, c: Ctx, rows: seq<nat>): (nat, Value) -> Result<seq<Option<nat>>> {
    (k: nat, sel: Value) => RowRun(t, c, rows, sel)
  }

  /** Current order puts the matched rows in master order (`_fnSortDisplay`). */
  function InOrder(t: TableState, opts: seq<Field>, matched: seq<nat>): seq<nat> {
    var order := Get(opts, "order");
    if order == Str("current") || order == Str("applied") then Sort.DisplayOrder(t.master, matched) else matched
  }

  /**
   * `__row_selector(settings, selector, opts)`: the candidate rows are worked
   * out once, when the first atom is resolved.
   */
  function RowSelectSpec(t: TableState, c: Ctx, selector: Value, opts: seq<Field>): RowsOutcome
    requires ColumnsWf(t.columns)
  {
    var o := if |Atoms(selector)| == 0 then RowsOutcome(t, Ok([])) else RowIndexesSpec(t, c, opts);
    match o.rows
    case Throw(_) => o
    case Ok(rows) =>
      match RunSpec(selector, RowAtom(o.t, c, rows), c.rowExt)
      case Throw(m) => RowsOutcome(o.t, Throw(m))
      case Ok(matched) => RowsOutcome(o.t, Ok(InOrder(o.t, opts, matched)))
  }

  /** `__row_selector(settings, selector, opts)`. */
  method RowSelect(s: Settings, c: Ctx, selector: Value, opts: seq<Field>) returns (r: Result<seq<nat>>)
    requires ColumnsWf(s.aoColumns)
    modifies s
    ensures var o := RowSelectSpec(old(s.Contents()), c, selector, opts);
            s.Contents() == o.t && r == o.rows
  {
    var rows: seq<nat> := [];
    if |Atoms(selector)| > 0 {
      var candidates := RowIndexes(s, c, opts);
      if candidates.Throw? {
        return candidates;
      }
      rows := candidates.value;
    }
    var matched := SelectorRun(selector, RowAtom(s.Contents(), c, rows), c.rowExt);
    if matched.Throw? {
      return Throw(matched.message);
    }
    var order := Get(opts, "order");
    if order == Str("current") || order == Str("applied") {
      var m := matched.value;
      var display := new nat[|m|](i requires 0 <= i < |m| => m[i]);
      assert display[..] == m;
      Sort.SortDisplay(s.aiDisplayMaster, display);
      return Ok(display[..]);
    }
    return matched;
  }

  // ---- properties of the row selector ----

  /** An integer atom selects that row exactly when it is a candidate. */
  lemma IntegerAtom(t: TableState, c: Ctx, rows: seq<nat>, n: int)
    ensures RowRun(t, c, rows, Num(n)) == Ok(if 0 <= n && (n as nat) in rows then [Some(n as nat)] else [])
  {
  }

  /** An empty atom (`''`, `null`, `undefined`) selects every candidate, in candidate order. */
  lemma EmptyAtom(t: TableState, c: Ctx, rows: seq<nat>, sel: Value)
    requires sel in {Str(""), Null, Undefined}
    ensures RowRun(t, c, rows, sel).Ok? && Present(RowRun(t, c, rows, sel).value) == rows
  {
    assert Internal.IntVal(Str("")).None? by {
      assert Trim("") == "";
    }
    PresentAll(rows);
  }

  lemma {:induction false} PresentAll<T(!new)>(xs: seq<T>)
    ensures Present(AllOf(xs)) == xs
  {
    if |xs| > 0 {
      var n := |xs| - 1;
      PresentAll(xs[..n]);
      var all := AllOf(xs);
      assert all[..n] == AllOf(xs[..n]);
      assert all[n] == Some(xs[n]);
      assert Present(all) == Present(all[..n]) + [xs[n]];
      assert xs == xs[..n] + [xs[n]];
    }
  }

  /**
   * A function atom throws exactly when a candidate's slot is empty;
   * otherwise it keeps the candidates the function accepts, in order.
   */
  lemma {:induction false} FunctionAtom(t: TableState, env: Env, f: Value, rows: seq<nat>)
    ensures FnRows(t, env, f, rows).Ok? <==> forall i :: 0 <= i < |rows| ==> Live(t, rows[i])
    ensures FnRows(t, env, f, rows).Ok? ==> Present(FnRows(t, env, f, rows).value) == Keep(rows, RowPicked(t, env, f))
  {
    FnRowsOk(t, env, f, rows);
    if |rows| > 0 {
      var init := rows[..|rows| - 1];
      var idx := rows[|rows| - 1];
      FunctionAtom(t, env, f, init);
      var r := FnRows(t, env, f, rows);
      if r.Ok? {
        var head := FnRows(t, env, f, init).value;
        var last: Option<nat> := if RowPicked(t, env, f)(idx) then Some(idx) else None;
        assert r.value == head + [last];
        PresentSnoc(head, last);
        assert Keep(rows, RowPicked(t, env, f)) == Keep(init, RowPicked(t, env, f)) + (if last.Some? then [idx] else []);
      }
    }
  }

  /** A function atom reads every candidate's slot: it throws exactly when one is empty. */
  lemma {:induction false} FnRowsOk(t: TableState, env: Env, f: Value, rows: seq<nat>)
    ensures FnRows(t, env, f, rows).Ok? <==> forall i :: 0 <= i < |rows| ==> Live(t, rows[i])
  {
    if |rows| > 0 {
      var init := rows[..|rows| - 1];
      FnRowsOk(t, env, f, init);
      assert forall i :: 0 <= i < |init| ==> init[i] == rows[i];
    }
  }

  /** Present slots of a list with one more slot. */
  lemma PresentSnoc<T(!new)>(head: seq<Option<T>>, last: Option<T>)
    ensures Present(head + [last]) == Present(head) + (if last.Some? then [last.value] else [])
  {
    assert (head + [last])[..|head + [last]| - 1] == head;
  }

  /** A `#id` string is never read as an integer. */
  lemma HashNotInteger(id: string)
    ensures Internal.IntVal(Str("#" + id)).None?
  {
    var s := "#" + id;
    var r := Trim(s);
    TrimKeepsHash(s);
    assert !IsDigit(r[0]);
  }

  lemma TrimKeepsHash(s: string)
    requires |s| > 0 && s[0] == '#'
    ensures |Trim(s)| > 0 && Trim(s)[0] == '#'
  {
    assert TrimStart(s) == s;
    TrimEndKeepsHead(s);
  }

  /** A `#id` atom selects the row registered under that id, candidate or not. */
  lemma IdAtom(t: TableState, c: Ctx, rows: seq<nat>, id: string)
    requires id in t.ids
    ensures RowRun(t, c, rows, Str("#" + id)) == Ok([Some(t.ids[id])])
  {
    var s := "#" + id;
    HashNotInteger(id);
    assert s[0] == '#' && s[1..] == id;
    assert Str(s) != Null && Str(s) != Undefined && Str(s) != Str("") && !Str(s).Fn?;
  }

  /** With a selector of no atoms, no row is selected and nothing is computed. */
  lemma NoAtomsNoRows(t: TableState, c: Ctx, opts: seq<Field>)
    requires ColumnsWf(t.columns)
    ensures RowSelectSpec(t, c, Arr([]), opts) == RowsOutcome(t, Ok(InOrder(t, opts, Internal.Distinct(Extended([], c.rowExt)))))
  {
    assert Gathered([], RowAtom(t, c, []), 0) == Ok([]);
  }

  lemma {:induction false} FollowAll(master: seq<nat>)
    requires Internal.NoDuplicates(master)
    ensures Sort.Follow(master, master) == master
  {
    FollowPrefix(master, |master|);
    assert master[..|master|] == master;
  }

  lemma {:induction false} FollowPrefix(master: seq<nat>, n: nat)
    requires n <= |master|
    ensures Sort.Follow(master[..n], master) == master[..n]
  {
    if n > 0 {
      FollowPrefix(master, n - 1);
      assert master[..n][..n - 1] == master[..n - 1];
      assert master[..n] == master[..n - 1] + [master[n - 1]];
      assert master[n - 1] in master;
    }
  }

  /**
   * `rows()` with the default options on a well-formed client-side table
   * selects every row once, in the current master order, and changes nothing.
   */
  lemma AllRowsInMasterOrder(t: TableState, c: Ctx)
    requires Wf(t) && !t.features.serverSide && |c.rowExt| == 0
    ensures RowSelectSpec(t, c, Str(""), SelectorOpts(Undefined)) == RowsOutcome(t, Ok(t.master))
  {
    DefaultCandidates(t, c);
    EmptySelectorRun(t, c, t.master);
    DefaultOrderKeeps(t);
  }

  /** With the default options, the candidate rows are the master list, and nothing changes. */
  lemma DefaultCandidates(t: TableState, c: Ctx)
    requires ColumnsWf(t.columns) && !t.features.serverSide
    ensures RowIndexesSpec(t, c, SelectorOpts(Undefined)) == RowsOutcome(t, Ok(t.master))
  {
    OptsLookup(Undefined, "page");
    OptsLookup(Undefined, "order");
    OptsLookup(Undefined, "search");
  }

  /** The selector `''` with no extensions selects the candidate rows. */
  lemma EmptySelectorRun(t: TableState, c: Ctx, rows: seq<nat>)
    requires Internal.NoDuplicates(rows) && |c.rowExt| == 0
    ensures RunSpec(Str(""), RowAtom(t, c, rows), c.rowExt) == Ok(rows)
  {
    var run := RowAtom(t, c, rows);
    assert Trimmed(Str("")) == Str("") by {
      assert Trim("") == "";
    }
    EmptyRowRun(t, c, rows);
    SingleAtom(Str(""), run, AllOf(rows));
    PresentAll(rows);
    Internal.DistinctOfUnique(rows);
  }

  /** A selector that is not a list is one atom: the selection is that atom's results. */
  lemma SingleAtom<T(!new)>(a: Value, run: (nat, Value) -> Result<seq<Option<T>>>, res: seq<Option<T>>)
    requires !a.Arr? && run(0, Trimmed(a)) == Ok(res)
    ensures Gathered(Atoms(a), run, |Atoms(a)|) == Ok(Present(res))
  {
    assert Gathered(Atoms(a), run, 0) == Ok([]);
    assert [] + Present(res) == Present(res);
  }

  lemma EmptyRowRun(t: TableState, c: Ctx, rows: seq<nat>)
    ensures RowRun(t, c, rows, Str("")) == Ok(AllOf(rows))
  {
    assert Internal.IntVal(Str("")).None? by {
      assert Trim("") == "";
    }
  }

  /** Under the default `order: 'current'`, the master list keeps its own order. */
  lemma DefaultOrderKeeps(t: TableState)
    requires Wf(t)
    ensures InOrder(t, SelectorOpts(Undefined), t.master) == t.master
  {
    OptsLookup(Undefined, "order");
    Sort.DisplayFollowsMaster(t.master, t.master);
    FollowAll(t.master);
  }

  // ---- __column_selector ----

  /** `columns.map((col, idx) => p(idx) ? idx : null)` over `n` columns. */
  function Mask(n: nat, p: nat -> bool): (r: seq<Option<int>>)
    ensures |r| == n && forall i :: 0 <= i < n ==> r[i] == (if p(i) then Some(i) else None)
  {
    seq(n, i requires 0 <= i < n => if p(i) then Some(i) else None)
  }

  /**
   * `/^([^:]+)?:(name|title|visIdx|visible)$/`: the text before the only
   * colon (`None` when there is none) and the word after it.
   */
  function ColumnPattern(s: string): (r: Option<(Option<string>, string)>)
    ensures r.Some? ==> r.value.1 in {"name", "title", "visIdx", "visible"}
  {
    var p := Internal.IndexOf(s, ':');
    if p < 0 then None
    else
      var kind := s[p + 1..];
      if kind in {"name", "title", "visIdx", "visible"} then Some((if p == 0 then None else Some(s[..p]), kind))
      else None
  }

  /** `match[1]` as JavaScript sees it: `undefined` when the group did not take part. */
  function Label(prefix: Option<string>): Value {
    if prefix.Some? then Str(prefix.value) else Undefined
  }

  function NameIs(cols: seq<Column>, want: Value): nat -> bool {
    (i: nat) => i < |cols| && cols[i].sName == want
  }

  function TitleIs(cols: seq<Column>, want: Value): nat -> bool {
    (i: nat) => i < |cols| && cols[i].sTitle == want
  }

  /** A visible column whose header cell the jQuery selector keeps (every visible column for `:visible`). */
  function VisibleHeader(cols: seq<Column>, dom: Dom, prefix: Option<string>): nat -> bool {
    (i: nat) => i < |cols| && cols[i].bVisible && (prefix.None? || dom.headerFilter(prefix.value, i))
  }

  /** A `name:kind` string selector; `visIdx` and `visible` with a digit run name a visible position. */
  function PatternColumns(cols: seq<Column>, dom: Dom, prefix: Option<string>, kind: string): (r: seq<Option<int>>)
    ensures forall i :: 0 <= i < |r| && r[i].Some? ==> 0 <= r[i].value < |cols|
    ensures kind == "name" ==> |r| == |cols|
  {
    if kind == "visIdx" || kind == "visible" then
      if prefix.Some? && AllDigits(prefix.value) then
        var idx := Columns.VisibleToColumnIndex(cols, DigitsValue(prefix.value));
        [if idx.Some? then Some(idx.value as int) else None]
      else Mask(|cols|, VisibleHeader(cols, dom, prefix))
    else if kind == "name" then Mask(|cols|, NameIs(cols, Label(prefix)))
    else Mask(|cols|, TitleIs(cols, Label(prefix)))
  }

  /** `sel(idx, __columnData(settings, idx, 0, 0, rows), __column_header(settings, idx))` is truthy. */
  function ColumnPicked(c: Ctx, f: Value, rows: seq<nat>): nat -> bool {
    (i: nat) => Truthy(c.env.call(f, Undefined, [Num(i), c.dom.columnData(i, rows), c.dom.columnHeader(i)]))
  }

  /**
   * The `run` function of `__column_selector` for one atom. `rows` are the
   * candidate rows a function atom is given (`_selector_row_indexes`).
   */
  function ColumnRun(t: TableState, c: Ctx, rows: Result<seq<nat>>, s: Value): (r: Result<seq<Option<int>>>)
    ensures s == Null ==> r == Throw(Sort.NullRead)
    ensures s == Undefined ==> r == Throw(UndefinedRead)
    ensures s.Num? ==> r == Ok([Some(if s.n >= 0 then s.n else |t.columns| + s.n)])
  {
    var cols := t.columns;
    var selInt := Internal.IntVal(s);
    if s == Str("") then Ok(Mask(|cols|, (i: nat) => true))
    // an index counts from the left, a negative one from the right; neither is range-checked
    else if selInt.Some? then Ok([Some(if selInt.value >= 0 then selInt.value else |cols| + selInt.value)])
    else if s.Fn? then
      match rows
      case Throw(m) => Throw(m)
      case Ok(rs) => Ok(Mask(|cols|, ColumnPicked(c, s, rs)))
    else if s.Str? && ColumnPattern(s.s).Some? then
      Ok(PatternColumns(cols, c.dom, ColumnPattern(s.s).value.0, ColumnPattern(s.s).value.1))
    else if s.Node? && s.ref.cellIndex.Some? then Ok([Some(s.ref.cellIndex.value.column as int)])
    // `s.nodeName` is read before anything else can match
    else if s == Null then Throw(Sort.NullRead)
    else if s == Undefined then Throw(UndefinedRead)
    // a jQuery selector, a node or a list of nodes, over the header cells
    else if s.Str? || s.Arr? || s.Node? then Ok(c.dom.columnQuery(s))
    else Ok([])
  }

  function ColumnAtom(t: TableState, c: Ctx, rows: Result<seq<nat>>): (nat, Value) -> Result<seq<Option<int>>> {
    (k: nat, s: Value) => ColumnRun(t, c, rows, s)
  }

  /**
   * `__column_selector(settings, selector, opts)`; `columnOrder: 'index'`
   * sorts the selection ascending.
   */
  function ColumnSelectSpec(t: TableState, c: Ctx, selector: Value, opts: seq<Field>): (r: Result<seq<int>>)
    requires ColumnsWf(t.columns)
    ensures var run := RunSpec(selector, ColumnAtom(t, c, RowIndexesSpec(t, c, opts).rows), c.columnExt);
            (r.Ok? <==> run.Ok?) && (r.Ok? ==> multiset(r.value) == multiset(run.value))
  {
    var rows := RowIndexesSpec(t, c, opts).rows;
    match RunSpec(selector, ColumnAtom(t, c, rows), c.columnExt)
    case Throw(m) => Throw(m)
    case Ok(selected) =>
      if Get(opts, "columnOrder") == Str("index") then Ok(Sorting.InsertionSort(selected, Internal.IntOrder()))
      else Ok(selected)
  }

  // ---- properties of the column selector ----

  /** The columns a mask keeps are the indexes it accepts, ascending. */
  lemma {:induction false} MaskKeeps(n: nat, p: nat -> bool)
    ensures Present(Mask(n, p)) == Keep(Indices(n), p)
  {
    if n > 0 {
      MaskKeeps(n - 1, p);
      assert Mask(n, p)[..n - 1] == Mask(n - 1, p);
      assert Indices(n)[..n - 1] == Indices(n - 1);
    }
  }

  /** `''` selects every column, in index order. */
  lemma AllColumnsAtom(t: TableState, c: Ctx, rows: Result<seq<nat>>)
    ensures ColumnRun(t, c, rows, Str("")) == Ok(Mask(|t.columns|, (i: nat) => true))
    ensures Present(ColumnRun(t, c, rows, Str("")).value) == Indices(|t.columns|)
  {
    var all := (i: nat) => true;
    assert Internal.IntVal(Str("")).None? by {
      assert Trim("") == "";
    }
    MaskKeeps(|t.columns|, all);
    KeepAll(Indices(|t.columns|), all);
  }

  lemma {:induction false} KeepAll(xs: seq<nat>, p: nat -> bool)
    requires forall x :: p(x)
    ensures Keep(xs, p) == xs
  {
    if |xs| > 0 {
      KeepAll(xs[..|xs| - 1], p);
      assert xs == xs[..|xs| - 1] + [xs[|xs| - 1]];
    }
  }

  /** An index from `-n` to `n-1` selects column `i mod n`: the negative ones count from the right. */
  lemma IndexAtomWraps(t: TableState, c: Ctx, rows: Result<seq<nat>>, i: int)
    requires -|t.columns| <= i < |t.columns|
    ensures ColumnRun(t, c, rows, Num(i)) == Ok([Some(i % |t.columns|)])
  {
    var n := |t.columns|;
    assert ColumnRun(t, c, rows, Num(i)) == Ok([Some(if i >= 0 then i else n + i)]);
    ModWrap(i, n);
  }

  lemma ModWrap(i: int, n: int)
    requires -n <= i < n
    ensures i % n == if i >= 0 then i else n + i
  {
    if i < 0 {
      assert i == -1 * n + (n + i);
    }
  }

  /** A string with a colon, not starting or ending in white space, is no integer. */
  lemma ColonNotInteger(s: string, p: nat)
    requires p < |s| && s[p] == ':' && !IsSpace(s[0]) && !IsSpace(s[|s| - 1])
    ensures Trim(s) == s && Internal.IntVal(Str(s)).None?
  {
    assert TrimStart(s) == s;
    assert TrimEnd(s) == s;
    if p > 0 {
      assert !IsDigit(s[1..][p - 1]);
    }
  }

  /** `name + ':' + kind` splits back into `name` and `kind`. */
  lemma PatternSplits(name: string, kind: string)
    requires ':' !in name && kind in {"name", "title", "visIdx", "visible"}
    ensures ColumnPattern(name + ":" + kind) == Some((if |name| == 0 then None else Some(name), kind))
  {
    var s := name + ":" + kind;
    var p := Internal.IndexOf(s, ':');
    assert s[|name|] == ':';
    assert p == |name|;
    assert s[p + 1..] == kind;
    assert s[..p] == name;
  }

  /** The pattern branch of `ColumnRun` for a string with a colon that is not an integer. */
  lemma PatternRun(t: TableState, c: Ctx, rows: Result<seq<nat>>, name: string, kind: string)
    requires |name| > 0 && ':' !in name && !IsSpace(name[0])
    requires kind in {"name", "title", "visIdx", "visible"}
    ensures var s := name + ":" + kind;
            Internal.IntVal(Str(s)).None? && ColumnPattern(s) == Some((Some(name), kind)) &&
            s != "" && !Str(s).Fn?
  {
    var s := name + ":" + kind;
    PatternSplits(name, kind);
    assert s[|s| - 1] == kind[|kind| - 1];
    ColonNotInteger(s, |name|);
  }

  /** A `name:kind` string reaches the pattern branch of `ColumnRun`. */
  lemma PatternReached(t: TableState, c: Ctx, rows: Result<seq<nat>>, name: string, kind: string)
    requires |name| > 0 && ':' !in name && !IsSpace(name[0])
    requires kind in {"name", "title", "visIdx", "visible"}
    ensures ColumnRun(t, c, rows, Str(name + ":" + kind)) == Ok(PatternColumns(t.columns, c.dom, Some(name), kind))
  {
    PatternRun(t, c, rows, name, kind);
  }

  lemma NameRun(t: TableState, c: Ctx, rows: Result<seq<nat>>, name: string)
    requires |name| > 0 && ':' !in name && !IsSpace(name[0])
    ensures ColumnRun(t, c, rows, Str(name + ":name")) == Ok(Mask(|t.columns|, NameIs(t.columns, Str(name))))
  {
    assert name + ":name" == name + ":" + "name";
    PatternReached(t, c, rows, name, "name");
    assert PatternColumns(t.columns, c.dom, Some(name), "name") == Mask(|t.columns|, NameIs(t.columns, Str(name)));
  }

  lemma VisibleIndexRun(t: TableState, c: Ctx, rows: Result<seq<nat>>, digits: string)
    requires |digits| > 0 && AllDigits(digits) && ':' !in digits
    ensures var v := Columns.VisibleToColumnIndex(t.columns, DigitsValue(digits));
            ColumnRun(t, c, rows, Str(digits + ":visIdx")) == Ok([if v.Some? then Some(v.value as int) else None])
  {
    VisibleIndexReached(t, c, rows, digits);
    VisibleIndexPattern(t.columns, c.dom, digits);
  }

  lemma VisibleIndexReached(t: TableState, c: Ctx, rows: Result<seq<nat>>, digits: string)
    requires |digits| > 0 && AllDigits(digits) && ':' !in digits
    ensures ColumnRun(t, c, rows, Str(digits + ":visIdx")) == Ok(PatternColumns(t.columns, c.dom, Some(digits), "visIdx"))
  {
    DigitNotSpace(digits);
    assert digits + ":visIdx" == digits + ":" + "visIdx";
    PatternReached(t, c, rows, digits, "visIdx");
  }

  lemma DigitNotSpace(digits: string)
    requires |digits| > 0 && AllDigits(digits)
    ensures !IsSpace(digits[0])
  {
    assert IsDigit(digits[0]);
  }

  lemma VisibleIndexPattern(cols: seq<Column>, dom: Dom, digits: string)
    requires AllDigits(digits)
    ensures var v := Columns.VisibleToColumnIndex(cols, DigitsValue(digits));
            PatternColumns(cols, dom, Some(digits), "visIdx") == [if v.Some? then Some(v.value as int) else None]
  {
  }

  /**
   * `name:name` selects exactly the columns whose `sName` is `name`, in
   * index order.
   */
  lemma NameAtom(t: TableState, c: Ctx, rows: Result<seq<nat>>, name: string)
    requires |name| > 0 && ':' !in name && !IsSpace(name[0])
    ensures ColumnRun(t, c, rows, Str(name + ":name")) == Ok(Mask(|t.columns|, NameIs(t.columns, Str(name))))
    ensures var r := Present(Mask(|t.columns|, NameIs(t.columns, Str(name))));
            r == Keep(Indices(|t.columns|), NameIs(t.columns, Str(name))) &&
            (forall x :: x in r <==> 0 <= x < |t.columns| && t.columns[x].sName == Str(name)) &&
            forall i, j :: 0 <= i < j < |r| ==> r[i] < r[j]
  {
    NameRun(t, c, rows, name);
    MaskKeeps(|t.columns|, NameIs(t.columns, Str(name)));
    IndicesIncreasing(|t.columns|);
    KeepIncreasing(Indices(|t.columns|), NameIs(t.columns, Str(name)));
  }

  /**
   * `n:visIdx` selects the `n`-th visible column, which is visible and sits
   * at visible position `n`; past the last visible column it selects none.
   */
  lemma VisibleIndexAtom(t: TableState, c: Ctx, rows: Result<seq<nat>>, digits: string)
    requires |digits| > 0 && AllDigits(digits)
    ensures var v := Columns.VisibleToColumnIndex(t.columns, DigitsValue(digits));
            ColumnRun(t, c, rows, Str(digits + ":visIdx")) == Ok([if v.Some? then Some(v.value as int) else None]) &&
            (v.Some? ==> t.columns[v.value].bVisible &&
                         Columns.ColumnIndexToVisible(t.columns, v.value) == Some(DigitsValue(digits)))
  {
    assert ':' !in digits;
    VisibleIndexRun(t, c, rows, digits);
    var v := Columns.VisibleToColumnIndex(t.columns, DigitsValue(digits));
    if v.Some? {
      Columns.VisibleRoundTrip(t.columns, DigitsValue(digits));
    }
  }

  /** A function atom keeps the columns the function accepts, in index order, and throws when the candidate rows do. */
  lemma FunctionColumns(t: TableState, c: Ctx, rows: Result<seq<nat>>, f: Value)
    requires f.Fn?
    ensures ColumnRun(t, c, rows, f).Ok? <==> rows.Ok?
    ensures rows.Ok? ==> Present(ColumnRun(t, c, rows, f).value) == Keep(Indices(|t.columns|), ColumnPicked(c, f, rows.value))
  {
    if rows.Ok? {
      MaskKeeps(|t.columns|, ColumnPicked(c, f, rows.value));
    }
  }

  /**
   * With `columnOrder: 'index'` the selection is the unordered selection
   * sorted ascending: the same columns, each once, in increasing order.
   */
  lemma IndexColumnOrder(t: TableState, c: Ctx, selector: Value, opts: seq<Field>)
    requires ColumnsWf(t.columns) && Get(opts, "columnOrder") == Str("index")
    ensures var unordered := RunSpec(selector, ColumnAtom(t, c, RowIndexesSpec(t, c, opts).rows), c.columnExt);
            var r := ColumnSelectSpec(t, c, selector, opts);
            r.Ok? == unordered.Ok? &&
            (r.Ok? ==> multiset(r.value) == multiset(unordered.value) &&
                       forall i, j :: 0 <= i < j < |r.value| ==> r.value[i] < r.value[j])
  {
    var unordered := RunSpec(selector, ColumnAtom(t, c, RowIndexesSpec(t, c, opts).rows), c.columnExt);
    if unordered.Ok? {
      var sorted := Sorting.InsertionSort(unordered.value, Internal.IntOrder());
      Internal.IntOrderStrict();
      Sorting.InsertionSortSorted(unordered.value, Internal.IntOrder());
      Internal.NoDuplicatesPermutation(unordered.value, sorted);
      forall i, j | 0 <= i < j < |sorted| ensures sorted[i] < sorted[j] {
        assert Internal.IntOrder()(sorted[i], sorted[j]) <= 0;
      }
    }
  }

  // ---- __cell_selector ----

  /** The `{row, column}` object the selector builds, as a function atom is given it. */
  function CellIndexValue(row: nat, column: int): Value {
    Obj([Field("row", Num(row)), Field("column", Num(column))])
  }

  /** The cells of `rows` by `columns`, row by row, each a new `{row, column}` object. */
  function Grid(rows: seq<nat>, columns: seq<int>, k: nat): (r: seq<CellObj>)
    ensures |r| == |rows| * |columns|
  {
    if |rows| == 0 then []
    else
      var i := |rows| - 1;
      var init := Grid(rows[..i], columns, k);
      assert |init| + |columns| == (i + 1) * |columns|;
      init + RowOf(rows[i], columns, k, i)
  }

  /** Row `i` of a grid: `row` with each of `columns`. */
  function RowOf(row: nat, columns: seq<int>, k: nat, i: nat): (r: seq<CellObj>)
    ensures |r| == |columns| && forall j :: 0 <= j < |columns| ==> r[j] == Made(row, columns[j], (k, i, j))
  {
    seq(|columns|, j requires 0 <= j < |columns| => Made(row, columns[j], (k, i, j)))
  }

  /** `s(o, _fnGetCellData(settings, row, j), host.anCells[j])` is truthy; the cell node is passed as `null`. */
  predicate CellPicked(t: TableState, c: Ctx, f: Value, row: nat, j: nat)
    requires Live(t, row) ==> j < |t.columns|
  {
    Truthy(c.env.call(f, Undefined, [CellIndexValue(row, j), Data.CellData(t, c.env, c.types, row, j, None), Null]))
  }

  /** The same test on a built cell object. */
  predicate Accepted(t: TableState, c: Ctx, f: Value, o: CellObj) {
    o.Made? && 0 <= o.column < |t.columns| && CellPicked(t, c, f, o.row, o.column)
  }

  /**
   * A function atom: every cell of every candidate row is offered to the
   * function, row by row; reading `host.anCells` throws on the first
   * candidate whose slot is empty, unless there are no columns.
   */
  function FnCells(t: TableState, c: Ctx, f: Value, rows: seq<nat>, k: nat): Result<seq<Option<CellObj>>>
  {
    if |rows| == 0 then Ok([])
    else match FnCells(t, c, f, rows[..|rows| - 1], k)
      case Throw(m) => Throw(m)
      case Ok(init) =>
        var i := |rows| - 1;
        var row := rows[i];
        var n := |t.columns|;
        if n > 0 && !Live(t, row) then Throw(if row < |t.data| then Sort.NullRead else UndefinedRead)
        else Ok(init + PickedRow(t, c, f, row, k, i))
  }

  /** The cells of one live row a function atom accepts, `null` for the others. */
  function PickedRow(t: TableState, c: Ctx, f: Value, row: nat, k: nat, i: nat): (r: seq<Option<CellObj>>)
    requires |t.columns| == 0 || Live(t, row)
    ensures |r| == |t.columns|
    ensures forall j :: 0 <= j < |t.columns| ==> r[j] == if CellPicked(t, c, f, row, j) then Some(Made(row, j, (k, i, j))) else None
  {
    seq(|t.columns|, j requires 0 <= j < |t.columns| => if CellPicked(t, c, f, row, j) then Some(Made(row, j, (k, i, j))) else None)
  }

  /** The results of the jQuery filter over the candidate rows' body cells, as new objects. */
  function Queried(found: seq<CellPos>, k: nat): (r: seq<Option<CellObj>>)
    ensures |r| == |found|
  {
    seq(|found|, q requires 0 <= q < |found| => Some(Made(found[q].row, found[q].column, (k, q, 0))))
  }

  /** The `run` function of `__cell_selector` for atom number `k`, over the candidate rows. */
  function CellRun(t: TableState, c: Ctx, rows: seq<nat>, k: nat, s: Value): (r: Result<seq<Option<CellObj>>>)
    ensures (s == Null || s == Undefined) ==> r.Ok? && |r.value| == |rows| * |t.columns|
    ensures s.Obj? ==> r.Ok? && |r.value| <= 1
  {
    if s == Null || s == Undefined then Ok(AllOf(Grid(rows, Indices(|t.columns|), k)))
    else if s.Fn? then FnCells(t, c, s, rows, k)
    else if s.Obj? then
      // a cell index object is kept when its row is one of the candidates
      var row := Get(s.fields, "row");
      Ok(if Get(s.fields, "column") != Undefined && row != Undefined && row.Num? && row.n >= 0 && (row.n as nat) in rows
         then [Some(Given(s))] else [])
    else if s.Str? || s.Arr? || s.Node? then Ok(Queried(c.dom.cellQuery(s), k))
    else Ok([])
  }

  function CellAtom(t: TableState, c: Ctx, rows: seq<nat>): (nat, Value) -> Result<seq<Option<CellObj>>> {
    (k: nat, s: Value) => CellRun(t, c, rows, k, s)
  }

  /** The table after a cell selection and the cells selected, or the exception thrown. */
  datatype CellsOutcome = CellsOutcome(t: TableState, cells: Result<seq<CellObj>>)

  /** `__cell_selector(settings, selector, opts)`: the candidate rows are worked out first. */
  function CellSelectSpec(t: TableState, c: Ctx, selector: Value, opts: seq<Field>): (r: CellsOutcome)
    requires ColumnsWf(t.columns)
    ensures r.t == RowIndexesSpec(t, c, opts).t
    ensures RowIndexesSpec(t, c, opts).rows.Throw? ==> r.cells == Throw(RowIndexesSpec(t, c, opts).rows.message)
  {
    var o := RowIndexesSpec(t, c, opts);
    match o.rows
    case Throw(m) => CellsOutcome(o.t, Throw(m))
    case Ok(rows) => CellsOutcome(o.t, RunSpec(selector, CellAtom(o.t, c, rows), c.cellExt))
  }

  // ---- rows(), columns() and cells() ----

  /** The argument shifting of `rows()` and `columns()`: no selector is `''`, a plain object is the options. */
  function ApiArgs(selector: Value, opts: Value): (Value, Value) {
    if selector == Undefined then (Str(""), opts)
    else if selector.Obj? then (Str(""), selector)
    else (selector, opts)
  }

  /** `rows(selector, opts)` on one table. */
  function RowsApi(t: TableState, c: Ctx, selector: Value, opts: Value): RowsOutcome
    requires ColumnsWf(t.columns)
  {
    var (sel, o) := ApiArgs(selector, opts);
    RowSelectSpec(t, c, sel, SelectorOpts(o))
  }

  /** `columns(selector, opts)` on one table. */
  function ColumnsApi(t: TableState, c: Ctx, selector: Value, opts: Value): Result<seq<int>>
    requires ColumnsWf(t.columns)
  {
    var (sel, o) := ApiArgs(selector, opts);
    ColumnSelectSpec(t, c, sel, SelectorOpts(o))
  }

  /**
   * The argument shifting of `cells()`: a plain object first is the options
   * (rows then `null`) or, when it has a `row`, a cell index (columns then
   * `null`); a plain object second is the options.
   */
  function CellsArgs(rowSelector: Value, columnSelector: Value, opts: Value): (Value, Value, Value) {
    var (r, cs, o) :=
      if rowSelector.Obj? then
        if Get(rowSelector.fields, "row") == Undefined then (Null, columnSelector, rowSelector)
        else (rowSelector, Null, columnSelector)
      else (rowSelector, columnSelector, opts);
    if cs.Obj? then (r, Null, cs) else (r, cs, o)
  }

  /** The options `cells()` hands on to `rows()` and `columns()`. */
  function InternalOpts(opts: Value): Value {
    if Truthy(opts) then Obj([Field("page", Prop(opts, "page")), Field("order", Prop(opts, "order")),
                              Field("search", Prop(opts, "search"))])
    else Obj([])
  }

  /**
   * `cells(rowSelector, columnSelector, opts)` on one table: with no column
   * selector a cell selection; otherwise the columns are selected, then the
   * rows, and every selected row is paired with every selected column.
   */
  function CellsApi(t: TableState, c: Ctx, rowSelector: Value, columnSelector: Value, opts: Value): (r: CellsOutcome)
    requires ColumnsWf(t.columns)
    ensures var (_, cs, o) := CellsArgs(rowSelector, columnSelector, opts);
            var cols := ColumnsApi(t, c, cs, InternalOpts(o));
            cs != Null && cs != Undefined && cols.Throw? ==> r == CellsOutcome(t, Throw(cols.message))
  {
    CellsOf(t, c, CellsArgs(rowSelector, columnSelector, opts))
  }

  /** `cells()` once its arguments are sorted into row selector, column selector and options. */
  function CellsOf(t: TableState, c: Ctx, args: (Value, Value, Value)): CellsOutcome
    requires ColumnsWf(t.columns)
  {
    var (rs, cs, o) := args;
    if cs == Null || cs == Undefined then CellSelectSpec(t, c, rs, SelectorOpts(o))
    else
      var internal := InternalOpts(o);
      match ColumnsApi(t, c, cs, internal)
      case Throw(m) => CellsOutcome(t, Throw(m))
      case Ok(columns) =>
        var rowsOut := RowsApi(t, c, rs, internal);
        match rowsOut.rows
        case Throw(m) => CellsOutcome(rowsOut.t, Throw(m))
        case Ok(rows) => CellsOutcome(rowsOut.t, Ok(Grid(rows, columns, 0)))
  }

  // ---- properties of the cell selector ----

  lemma MulStep(a: nat, b: nat, m: nat)
    requires a < b
    ensures a * m + m <= b * m
  {
    assert b * m == (b - a - 1) * m + (a + 1) * m;
  }

  /** The cell of row `i` and column `j` sits at `i * |columns| + j`: the grid is row-major. */
  lemma {:induction false} GridAt(rows: seq<nat>, columns: seq<int>, k: nat, i: nat, j: nat)
    requires i < |rows| && j < |columns|
    ensures i * |columns| + j < |Grid(rows, columns, k)|
    ensures Grid(rows, columns, k)[i * |columns| + j] == Made(rows[i], columns[j], (k, i, j))
  {
    var m := |columns|;
    var last := |rows| - 1;
    MulStep(i, |rows|, m);
    if i < last {
      GridAt(rows[..last], columns, k, i, j);
      MulStep(i, last, m);
      assert Grid(rows, columns, k)[i * m + j] == Grid(rows[..last], columns, k)[i * m + j];
    } else {
      assert |Grid(rows[..last], columns, k)| == i * m;
    }
  }

  /** `null` (or `undefined`) selects every cell of every candidate row, once each, in grid order. */
  lemma AllCellsAtom(t: TableState, c: Ctx, rows: seq<nat>, k: nat, s: Value)
    requires s == Null || s == Undefined
    ensures CellRun(t, c, rows, k, s).Ok?
    ensures Present(CellRun(t, c, rows, k, s).value) == Grid(rows, Indices(|t.columns|), k)
  {
    PresentAll(Grid(rows, Indices(|t.columns|), k));
  }

  /** A cell index object is selected, as it is, exactly when its row is a candidate. */
  lemma CellIndexAtom(t: TableState, c: Ctx, rows: seq<nat>, k: nat, row: nat, column: int, more: seq<Field>)
    ensures var s := Obj([Field("row", Num(row)), Field("column", Num(column))] + more);
            CellRun(t, c, rows, k, s) == Ok(if row in rows then [Some(Given(s))] else [])
  {
    var fields := [Field("row", Num(row)), Field("column", Num(column))] + more;
    assert fields[0] == Field("row", Num(row));
    assert Get(fields, "row") == Num(row);
    assert fields[1..][0] == Field("column", Num(column));
    assert Get(fields, "column") == Get(fields[1..], "column") == Num(column);
  }

  /** The cells built are those of the all-cells grid that pass `p`, in grid order. */
  function Filter(cells: seq<CellObj>, p: CellObj -> bool): (r: seq<CellObj>)
    ensures forall x :: x in r <==> x in cells && p(x)
  {
    if |cells| == 0 then []
    else
      var init := cells[..|cells| - 1];
      assert cells == init + [cells[|cells| - 1]];
      Filter(init, p) + (if p(cells[|cells| - 1]) then [cells[|cells| - 1]] else [])
  }

  /** A function atom throws exactly when there are columns and a candidate's slot is empty. */
  lemma {:induction false} FunctionCellsThrow(t: TableState, c: Ctx, f: Value, rows: seq<nat>, k: nat)
    ensures FnCells(t, c, f, rows, k).Ok? <==> |t.columns| == 0 || forall i :: 0 <= i < |rows| ==> Live(t, rows[i])
  {
    if |rows| > 0 {
      var init := rows[..|rows| - 1];
      FunctionCellsThrow(t, c, f, init, k);
      assert forall q :: 0 <= q < |init| ==> init[q] == rows[q];
    }
  }

  /**
   * When it does not throw, a function atom keeps the cells of the
   * all-cells grid that the function accepts, in row-major order.
   */
  lemma {:induction false} FunctionCells(t: TableState, c: Ctx, f: Value, rows: seq<nat>, k: nat)
    requires FnCells(t, c, f, rows, k).Ok?
    ensures Present(FnCells(t, c, f, rows, k).value) == Filter(Grid(rows, Indices(|t.columns|), k), (o: CellObj) => Accepted(t, c, f, o))
  {
    var n := |t.columns|;
    var p := (o: CellObj) => Accepted(t, c, f, o);
    if |rows| > 0 {
      var i := |rows| - 1;
      var init := rows[..i];
      var row := rows[i];
      FunctionCells(t, c, f, init, k);
      var head := FnCells(t, c, f, init, k).value;
      var tail := PickedRow(t, c, f, row, k, i);
      assert FnCells(t, c, f, rows, k).value == head + tail;
      PresentConcat(head, tail);
      assert Grid(rows, Indices(n), k) == Grid(init, Indices(n), k) + RowOf(row, Indices(n), k, i);
      FilterConcat(Grid(init, Indices(n), k), RowOf(row, Indices(n), k, i), p);
      FilterRow(t, c, f, row, k, i);
    } else {
      assert Grid(rows, Indices(n), k) == [];
    }
  }

  lemma {:induction false} PresentConcat<T(!new)>(a: seq<Option<T>>, b: seq<Option<T>>)
    ensures Present(a + b) == Present(a) + Present(b)
    decreases |b|
  {
    if |b| > 0 {
      var bi := b[..|b| - 1];
      PresentConcat(a, bi);
      assert (a + b)[..|a + b| - 1] == a + bi;
    } else {
      assert a + b == a;
    }
  }

  lemma {:induction false} FilterConcat(a: seq<CellObj>, b: seq<CellObj>, p: CellObj -> bool)
    ensures Filter(a + b, p) == Filter(a, p) + Filter(b, p)
    decreases |b|
  {
    if |b| > 0 {
      var bi := b[..|b| - 1];
      var x := b[|b| - 1];
      var tail := if p(x) then [x] else [];
      FilterConcat(a, bi, p);
      assert (a + b)[..|a + b| - 1] == a + bi && (a + b)[|a + b| - 1] == x;
      assert Filter(a + b, p) == Filter(a + bi, p) + tail;
      assert Filter(b, p) == Filter(bi, p) + tail;
      assert Filter(a, p) + Filter(bi, p) + tail == Filter(a, p) + (Filter(bi, p) + tail);
    } else {
      assert a + b == a;
    }
  }

  /** One row of a function atom: the accepted cells of that row, in column order. */
  lemma FilterRow(t: TableState, c: Ctx, f: Value, row: nat, k: nat, i: nat)
    requires |t.columns| == 0 || Live(t, row)
    ensures Present(PickedRow(t, c, f, row, k, i)) == Filter(RowOf(row, Indices(|t.columns|), k, i), (o: CellObj) => Accepted(t, c, f, o))
  {
    var n := |t.columns|;
    var picks := PickedRow(t, c, f, row, k, i);
    var cells := RowOf(row, Indices(n), k, i);
    var p := (o: CellObj) => Accepted(t, c, f, o);
    forall j | 0 <= j < n
      ensures picks[j] == if p(cells[j]) then Some(cells[j]) else None
    {
      assert cells[j] == Made(row, j, (k, i, j));
    }
    PresentFilter(picks, cells, p);
  }

  /** Keeping the present slots of a pointwise test is filtering by that test. */
  lemma {:induction false} PresentFilter(picks: seq<Option<CellObj>>, cells: seq<CellObj>, p: CellObj -> bool)
    requires |picks| == |cells|
    requires forall j :: 0 <= j < |cells| ==> picks[j] == if p(cells[j]) then Some(cells[j]) else None
    ensures Present(picks) == Filter(cells, p)
    decreases |cells|
  {
    if |cells| > 0 {
      var m := |cells|;
      PresentFilter(picks[..m - 1], cells[..m - 1], p);
    }
  }

  /**
   * With a column selector, `cells()` pairs every row `rows()` selects with
   * every column `columns()` selects, row by row (`GridAt`), under the same
   * `page`, `order` and `search` options.
   */
  lemma CrossProduct(t: TableState, c: Ctx, rowSelector: Value, columnSelector: Value, opts: Value)
    requires ColumnsWf(t.columns)
    requires !rowSelector.Obj? && !columnSelector.Obj? && columnSelector != Null && columnSelector != Undefined
    requires ColumnsApi(t, c, columnSelector, InternalOpts(opts)).Ok?
    requires RowsApi(t, c, rowSelector, InternalOpts(opts)).rows.Ok?
    ensures var rowsOut := RowsApi(t, c, rowSelector, InternalOpts(opts));
            var columns := ColumnsApi(t, c, columnSelector, InternalOpts(opts)).value;
            CellsApi(t, c, rowSelector, columnSelector, opts) == CellsOutcome(rowsOut.t, Ok(Grid(rowsOut.rows.value, columns, 0)))
  {
  }

  /** Options passed first, with no `row`, mean all rows: `cells(opts)` is `cells(null, opts)`. */
  lemma OptionsFirst(t: TableState, c: Ctx, opts: seq<Field>, columnSelector: Value)
    requires ColumnsWf(t.columns) && Get(opts, "row") == Undefined && !columnSelector.Obj?
    ensures CellsApi(t, c, Obj(opts), columnSelector, Undefined) == CellsApi(t, c, Null, columnSelector, Obj(opts))
  {
    assert CellsArgs(Obj(opts), columnSelector, Undefined) == CellsArgs(Null, columnSelector, Obj(opts));
  }
}
