/**
 * Reading and writing cell data, and the row arena operations of
 * `src/core/core.data.js`: adding a row, clearing the table, invalidating a
 * row's caches, rendering a row's display data.
 */
module Data {
  import opened Wrappers
  import opened JsValue
  import opened Table
  import Text
  import TypeRegistry

  /** `search` and `order` are the current names of the `filter` and `sort` data types. */
  function CanonicalKind(kind: Option<string>): (r: Option<string>)
    ensures r != Some("search") && r != Some("order")
    ensures kind != Some("search") && kind != Some("order") ==> r == kind
  {
    if kind == Some("search") then Some("filter")
    else if kind == Some("order") then Some("sort")
    else kind
  }

  /**
   * What the column's accessor yields for the row, with a node standing in
   * for its `innerHTML` unless display data is wanted.
   */
  function Fetched(t: TableState, env: Env, rowIdx: nat, colIdx: nat, kind: Option<string>): Value
    requires Live(t, rowIdx)
  {
    var v := env.getData(colIdx, rowIdx, t.data[rowIdx].value.data, kind);
    if kind != Some("display") && v.Node? then env.innerHtml(v.ref) else v
  }

  /** The search formatter registered for a column's type, `undefined` when none. */
  function SearchFormatter(types: TypeRegistry.Types, col: Column): Value {
    TypeRegistry.Lookup(types.search, Text.ToJsString(col.sType))
  }

  /** The last two steps: `null` displays as `''`; filter data goes through the type's search formatter. */
  function Finish(cell: Value, kind: Option<string>, col: Column, types: TypeRegistry.Types, env: Env): Value {
    if cell == Null && kind == Some("display") then Str("")
    else if kind == Some("filter") && Truthy(SearchFormatter(types, col)) then
      env.call(SearchFormatter(types, col), Undefined, [cell])
    else cell
  }

  /**
   * `_fnGetCellData(settings, rowIdx, colIdx, type)`; `kind` is the data
   * type asked for, `None` for `undefined`.
   */
  function CellData(t: TableState, env: Env, types: TypeRegistry.Types, rowIdx: int, colIdx: nat,
                    kind: Option<string>): (r: Value)
    requires Live(t, rowIdx) ==> colIdx < |t.columns|
    ensures !Live(t, rowIdx) ==> r == Undefined
  {
    var k := CanonicalKind(kind);
    if !Live(t, rowIdx) then Undefined
    else
      var col := t.columns[colIdx];
      var rowData := t.data[rowIdx].value.data;
      var cell := Fetched(t, env, rowIdx, colIdx, k);
      if cell == Undefined then col.sDefaultContent
      else if (cell == rowData || cell == Null) && col.sDefaultContent != Null && k.Some? then
        Finish(col.sDefaultContent, k, col, types, env)
      else if cell.Fn? then env.call(cell, rowData, [])
      else Finish(cell, k, col, types, env)
  }

  /**
   * What `_fnGetCellData` answers in its special cases: an empty or missing
   * slot, an undefined cell, null display data, a null cell with a default.
   */
  lemma CellDataCases(t: TableState, env: Env, types: TypeRegistry.Types, rowIdx: int, colIdx: nat,
                      kind: Option<string>)
    requires Live(t, rowIdx) ==> colIdx < |t.columns|
    ensures !Live(t, rowIdx) ==> CellData(t, env, types, rowIdx, colIdx, kind) == Undefined
    ensures (Live(t, rowIdx) && Fetched(t, env, rowIdx, colIdx, CanonicalKind(kind)) == Undefined) ==>
              CellData(t, env, types, rowIdx, colIdx, kind) == t.columns[colIdx].sDefaultContent
    ensures (Live(t, rowIdx) && kind == Some("display") && t.columns[colIdx].sDefaultContent == Null &&
             Fetched(t, env, rowIdx, colIdx, kind) == Null) ==> CellData(t, env, types, rowIdx, colIdx, kind) == Str("")
    ensures (Live(t, rowIdx) && kind.Some? && t.columns[colIdx].sDefaultContent != Null &&
             Fetched(t, env, rowIdx, colIdx, CanonicalKind(kind)) == Null && CanonicalKind(kind) != Some("filter")) ==>
              CellData(t, env, types, rowIdx, colIdx, kind) == t.columns[colIdx].sDefaultContent
  {
  }

  /** `search` and `order` ask for exactly what `filter` and `sort` do. */
  lemma CellDataAliases(t: TableState, env: Env, types: TypeRegistry.Types, rowIdx: int, colIdx: nat)
    requires Live(t, rowIdx) ==> colIdx < |t.columns|
    ensures CellData(t, env, types, rowIdx, colIdx, Some("search")) == CellData(t, env, types, rowIdx, colIdx, Some("filter"))
    ensures CellData(t, env, types, rowIdx, colIdx, Some("order")) == CellData(t, env, types, rowIdx, colIdx, Some("sort"))
  {
  }

  /** Filter data of a plain value is the type's search formatter applied to it, when one is registered. */
  lemma FilterDataFormatted(t: TableState, env: Env, types: TypeRegistry.Types, rowIdx: nat, colIdx: nat)
    requires Live(t, rowIdx) && colIdx < |t.columns|
    requires var v := Fetched(t, env, rowIdx, colIdx, Some("filter"));
             v != Undefined && v != Null && !v.Fn? && v != t.data[rowIdx].value.data
    ensures var v := Fetched(t, env, rowIdx, colIdx, Some("filter"));
            var f := SearchFormatter(types, t.columns[colIdx]);
            CellData(t, env, types, rowIdx, colIdx, Some("search")) == (if Truthy(f) then env.call(f, Undefined, [v]) else v)
  {
  }

  // ---- _fnSetCellData ----

  /** The state after `_fnSetCellData`: the column's setter rewrites the row's data, nothing else. */
  function WithCell(t: TableState, env: Env, rowIdx: nat, colIdx: nat, val: Value): (r: TableState)
    requires Live(t, rowIdx)
    ensures |r.data| == |t.data| && forall i :: Live(r, i) <==> Live(t, i)
    ensures Wf(t) ==> Wf(r)
  {
    var row := t.data[rowIdx].value;
    t.(data := t.data[rowIdx := Some(row.(data := env.setData(colIdx, rowIdx, row.data, val)))])
  }

  method SetCellData(s: Settings, env: Env, rowIdx: nat, colIdx: nat, val: Value)
    requires Live(s.Contents(), rowIdx) && colIdx < |s.aoColumns|
    modifies s
    ensures s.Contents() == WithCell(old(s.Contents()), env, rowIdx, colIdx, val)
  {
    var row := s.aoData[rowIdx].value;
    var newData := env.setData(colIdx, rowIdx, row.data, val);
    s.aoData := s.aoData[rowIdx := Some(row.(data := newData))];
  }

  // ---- _fnAddData ----

  /** A fresh row model: no caches yet. */
  function NewRow(data: Value, idx: nat, fromDom: bool): Row {
    Row(data, idx, if fromDom then FromDom else FromData, None, None, None)
  }

  /** The state after `_fnAddData`, and the index it returns. */
  function Added(t: TableState, env: Env, dataIn: Value, fromDom: bool): (r: (TableState, nat))
    ensures r.1 == |t.data| && |r.0.data| == |t.data| + 1
    ensures r.0.data[..|t.data|] == t.data && Live(r.0, r.1) && r.0.data[r.1].value.data == dataIn
    ensures r.0.master == t.master + [r.1] && r.0.display == t.display
    ensures |r.0.columns| == |t.columns| &&
            forall c :: 0 <= c < |t.columns| ==> r.0.columns[c] == t.columns[c].(sType := Null)
    ensures forall id :: id in r.0.ids <==> id in t.ids || env.rowId(dataIn) == Some(id)
    ensures env.rowId(dataIn).Some? ==> r.0.ids[env.rowId(dataIn).value] == r.1
  {
    var idx := |t.data|;
    var id := env.rowId(dataIn);
    var t' := t.(data := t.data + [Some(NewRow(dataIn, idx, fromDom))],
                 master := t.master + [idx],
                 columns := Untyped(t.columns),
                 ids := if id.Some? then t.ids[id.value := idx] else t.ids);
    assert t'.data[..idx] == t.data;
    (t', idx)
  }

  /** Every column with its detected type forgotten. */
  function Untyped(cols: seq<Column>): (r: seq<Column>)
    ensures |r| == |cols| && forall c :: 0 <= c < |cols| ==> r[c] == cols[c].(sType := Null)
  {
    seq(|cols|, c requires 0 <= c < |cols| => cols[c].(sType := Null))
  }

  /** Adding a row keeps the arena invariant: the new index is fresh, so the master list stays duplicate-free. */
  lemma AddedWf(t: TableState, env: Env, dataIn: Value, fromDom: bool)
    requires Wf(t)
    ensures Wf(Added(t, env, dataIn, fromDom).0)
  {
    var (r, idx) := Added(t, env, dataIn, fromDom);
    forall k | 0 <= k < |t.master| ensures t.master[k] != idx { assert Live(t, t.master[k]); }
    assert Internal.NoDuplicates(r.master);
    forall i | 0 <= i < |r.data| && r.data[i].Some? ensures i in r.master && r.data[i].value.idx == i {
      if i < idx {
        assert r.data[i] == r.data[..idx][i];
        assert i in t.master;
      }
    }
    forall k | 0 <= k < |r.master| ensures Live(r, r.master[k]) {
      if k < |t.master| {
        assert Live(t, t.master[k]);
        assert r.data[t.master[k]] == r.data[..idx][t.master[k]];
      }
    }
  }

  method AddData(s: Settings, env: Env, dataIn: Value, fromDom: bool) returns (rowIdx: nat)
    modifies s
    ensures (s.Contents(), rowIdx) == Added(old(s.Contents()), env, dataIn, fromDom)
  {
    rowIdx := |s.aoData|;
    s.aoData := s.aoData + [Some(NewRow(dataIn, rowIdx, fromDom))];
    ghost var before := s.Contents();
    var i := 0;
    while i < |s.aoColumns|
      invariant 0 <= i <= |s.aoColumns| == |old(s.aoColumns)|
      invariant forall c :: 0 <= c < i ==> s.aoColumns[c] == old(s.aoColumns[c]).(sType := Null)
      invariant forall c :: i <= c < |s.aoColumns| ==> s.aoColumns[c] == old(s.aoColumns[c])
      invariant s.Contents() == before.(columns := s.aoColumns)
    {
      s.aoColumns := s.aoColumns[i := s.aoColumns[i].(sType := Null)];
      i := i + 1;
    }
    assert s.aoColumns == Untyped(old(s.aoColumns));
    s.aiDisplayMaster := s.aiDisplayMaster + [rowIdx];
    var id := env.rowId(dataIn);
    if id.Some? {
      s.aIds := s.aIds[id.value := rowIdx];
    }
  }

  /** Adding a row appends a new slot and leaves every existing slot, live or removed, as it was. */
  lemma AddKeepsSlots(t: TableState, env: Env, dataIn: Value, fromDom: bool, i: nat)
    requires i < |t.data|
    ensures Added(t, env, dataIn, fromDom).0.data[i] == t.data[i]
  {
    var r := Added(t, env, dataIn, fromDom).0;
    assert r.data[..|t.data|][i] == r.data[i];
  }

  // ---- _fnClearTable ----

  /** The state after `_fnClearTable`: no rows, empty index arrays, no ids. */
  function Cleared(t: TableState): (r: TableState)
    ensures |r.data| == 0 && |r.master| == 0 && |r.display| == 0 && |r.ids| == 0
    ensures r.columns == t.columns && r.sorting == t.sorting
    ensures ColumnsWf(t.columns) ==> Wf(r)
  {
    t.(data := [], master := [], display := [], ids := map[])
  }

  /** Adding a row only extends the master, so every displayed row stays in it. */
  lemma AddedDisplayInMaster(t: TableState, env: Env, dataIn: Value, fromDom: bool)
    requires DisplayInMaster(t)
    ensures DisplayInMaster(Added(t, env, dataIn, fromDom).0)
  {
    var r := Added(t, env, dataIn, fromDom).0;
    forall k | 0 <= k < |r.display|
      ensures r.display[k] in r.master
    {
      assert t.display[k] in t.master;
    }
  }

  /** Clearing empties both lists. */
  lemma ClearedDisplayInMaster(t: TableState)
    ensures DisplayInMaster(Cleared(t))
  {
  }

  /** Writing a cell touches neither list. */
  lemma WithCellDisplayInMaster(t: TableState, env: Env, rowIdx: nat, colIdx: nat, val: Value)
    requires Live(t, rowIdx) && DisplayInMaster(t)
    ensures DisplayInMaster(WithCell(t, env, rowIdx, colIdx, val))
  {
  }

  method ClearTable(s: Settings)
    modifies s
    ensures s.Contents() == Cleared(old(s.Contents()))
  {
    s.aoData := [];
    s.aiDisplayMaster := [];
    s.aiDisplay := [];
    s.aIds := map[];
  }

  // ---- _fnGetRowDisplay ----

  /** The display data of columns `c..` of a row, in column order. */
  function RenderFrom(t: TableState, env: Env, types: TypeRegistry.Types, rowIdx: nat, c: nat): seq<Value>
    requires Live(t, rowIdx)
    decreases |t.columns| - c
  {
    if c >= |t.columns| then []
    else [CellData(t, env, types, rowIdx, c, Some("display"))] + RenderFrom(t, env, types, rowIdx, c + 1)
  }

  /** Every column's display data for a row. */
  function Render(t: TableState, env: Env, types: TypeRegistry.Types, rowIdx: nat): seq<Value>
    requires Live(t, rowIdx)
  {
    RenderFrom(t, env, types, rowIdx, 0)
  }

  lemma {:induction false} RenderFromCells(t: TableState, env: Env, types: TypeRegistry.Types, rowIdx: nat, c: nat)
    requires Live(t, rowIdx) && c <= |t.columns|
    ensures var r := RenderFrom(t, env, types, rowIdx, c);
            |r| == |t.columns| - c &&
            forall j :: 0 <= j < |r| ==> r[j] == CellData(t, env, types, rowIdx, c + j, Some("display"))
    decreases |t.columns| - c
  {
    if c < |t.columns| {
      RenderFromCells(t, env, types, rowIdx, c + 1);
    }
  }

  /** One display value per column, each the cell's display data. */
  lemma RenderCells(t: TableState, env: Env, types: TypeRegistry.Types, rowIdx: nat)
    requires Live(t, rowIdx)
    ensures var r := Render(t, env, types, rowIdx);
            |r| == |t.columns| && forall c :: 0 <= c < |r| ==> r[c] == CellData(t, env, types, rowIdx, c, Some("display"))
  {
    RenderFromCells(t, env, types, rowIdx, 0);
  }

  /** Rendering reads only the row's own cells: equal display data gives equal renderings. */
  lemma {:induction false} RenderFromSame(t: TableState, t': TableState, env: Env, types: TypeRegistry.Types,
                                          rowIdx: nat, c: nat)
    requires Live(t, rowIdx) && Live(t', rowIdx) && |t'.columns| == |t.columns|
    requires forall j :: c <= j < |t.columns| ==>
               CellData(t', env, types, rowIdx, j, Some("display")) == CellData(t, env, types, rowIdx, j, Some("display"))
    ensures RenderFrom(t', env, types, rowIdx, c) == RenderFrom(t, env, types, rowIdx, c)
    decreases |t.columns| - c
  {
    if c < |t.columns| {
      RenderFromSame(t, t', env, types, rowIdx, c + 1);
    }
  }

  /** What `_fnGetRowDisplay` returns: the cached display data, else a fresh rendering. */
  function RowDisplay(t: TableState, env: Env, types: TypeRegistry.Types, rowIdx: nat): seq<Value>
    requires Live(t, rowIdx)
  {
    var row := t.data[rowIdx].value;
    if row.displayData.Some? then row.displayData.value else Render(t, env, types, rowIdx)
  }

  /** The state after `_fnGetRowDisplay`: the row's display cache holds what was returned. */
  function WithRowDisplay(t: TableState, env: Env, types: TypeRegistry.Types, rowIdx: nat): (r: TableState)
    requires Live(t, rowIdx)
    ensures Live(r, rowIdx) && r.data[rowIdx].value.displayData == Some(RowDisplay(t, env, types, rowIdx))
    ensures r.data[rowIdx].value.data == t.data[rowIdx].value.data
    ensures |r.data| == |t.data| && forall i :: i != rowIdx ==> Live(r, i) == Live(t, i)
  {
    var row := t.data[rowIdx].value;
    t.(data := t.data[rowIdx := Some(row.(displayData := Some(RowDisplay(t, env, types, rowIdx))))])
  }

  /** Filling a row's display cache keeps the arena invariant. */
  lemma WithRowDisplayWf(t: TableState, env: Env, types: TypeRegistry.Types, rowIdx: nat)
    requires Live(t, rowIdx) && Wf(t)
    ensures Wf(WithRowDisplay(t, env, types, rowIdx))
  {
  }

  method GetRowDisplay(s: Settings, env: Env, types: TypeRegistry.Types, rowIdx: nat) returns (display: seq<Value>)
    requires Live(s.Contents(), rowIdx)
    modifies s
    ensures display == RowDisplay(old(s.Contents()), env, types, rowIdx)
    ensures s.Contents() == WithRowDisplay(old(s.Contents()), env, types, rowIdx)
  {
    var t := s.Contents();
    var row := s.aoData[rowIdx].value;
    if row.displayData.None? {
      var out := [];
      var c := 0;
      while c < |s.aoColumns|
        invariant 0 <= c <= |s.aoColumns| == |t.columns|
        invariant out + RenderFrom(t, env, types, rowIdx, c) == Render(t, env, types, rowIdx)
      {
        var cell := CellData(t, env, types, rowIdx, c, Some("display"));
        assert out + RenderFrom(t, env, types, rowIdx, c) == (out + [cell]) + RenderFrom(t, env, types, rowIdx, c + 1);
        out := out + [cell];
        c := c + 1;
      }
      assert out == out + RenderFrom(t, env, types, rowIdx, c);
      row := row.(displayData := Some(out));
      s.aoData := s.aoData[rowIdx := Some(row)];
    }
    display := row.displayData.value;
  }

  /** A second `_fnGetRowDisplay` returns the cached array and changes nothing. */
  lemma RowDisplayCached(t: TableState, env: Env, types: TypeRegistry.Types, rowIdx: nat)
    requires Live(t, rowIdx)
    ensures var t' := WithRowDisplay(t, env, types, rowIdx);
            RowDisplay(t', env, types, rowIdx) == RowDisplay(t, env, types, rowIdx) &&
            WithRowDisplay(t', env, types, rowIdx) == t'
  {
    var t' := WithRowDisplay(t, env, types, rowIdx);
    assert t'.data[rowIdx := Some(t'.data[rowIdx].value)] == t'.data;
  }

  // ---- _fnInvalidate ----

  /** Whether `_fnInvalidate` re-reads the row from its DOM cells. */
  predicate ReadsDom(src: Value, rowSrc: RowSource) {
    src == Str("dom") || ((!Truthy(src) || src == Str("auto")) && rowSrc == FromDom)
  }

  /** A column after invalidation: its type and widest-string memo are forgotten. */
  function ResetColumn(c: Column): Column {
    c.(sType := Null, maxLenString := None)
  }

  function ResetColumns(cols: seq<Column>): (r: seq<Column>)
    ensures |r| == |cols| && forall c :: 0 <= c < |cols| ==> r[c] == ResetColumn(cols[c])
  {
    seq(|cols|, c requires 0 <= c < |cols| => ResetColumn(cols[c]))
  }

  /** The row part of `_fnInvalidate`: caches dropped, then the data re-read from the DOM or the display data re-rendered. */
  function RefreshedRow(t: TableState, env: Env, types: TypeRegistry.Types, rowIdx: nat, src: Value,
                        colIdx: Option<nat>): TableState
    requires Live(t, rowIdx)
  {
    var row := t.data[rowIdx].value;
    var cleared := row.(sortData := None, filterData := None, displayData := None);
    var t1 := t.(data := t.data[rowIdx := Some(cleared)]);
    if ReadsDom(src, row.src)
    then t1.(data := t1.data[rowIdx := Some(cleared.(data := env.readDom(rowIdx, colIdx, row.data)))])
    else WithRowDisplay(t1, env, types, rowIdx)
  }

  /** The column part of `_fnInvalidate`: one column's memos, or every column's. */
  function ResetTypes(cols: seq<Column>, colIdx: Option<nat>): seq<Column>
    requires colIdx.Some? ==> colIdx.value < |cols|
  {
    if colIdx.Some? then cols[colIdx.value := ResetColumn(cols[colIdx.value])] else ResetColumns(cols)
  }

  /** The state after `_fnInvalidate(settings, rowIdx, src, colIdx)`. */
  function Invalidated(t: TableState, env: Env, types: TypeRegistry.Types, rowIdx: nat, src: Value,
                       colIdx: Option<nat>): (r: TableState)
    requires Live(t, rowIdx)
    requires colIdx.Some? ==> colIdx.value < |t.columns|
    ensures Live(r, rowIdx) && |r.data| == |t.data| && forall i :: Live(r, i) <==> Live(t, i)
    ensures forall i :: 0 <= i < |t.data| && i != rowIdx ==> r.data[i] == t.data[i]
    ensures r.data[rowIdx].value.sortData.None? && r.data[rowIdx].value.filterData.None?
    ensures ReadsDom(src, t.data[rowIdx].value.src) <==> r.data[rowIdx].value.displayData.None?
    ensures |r.columns| == |t.columns|
    ensures colIdx.Some? ==> forall c :: 0 <= c < |t.columns| ==>
              r.columns[c] == if c == colIdx.value then ResetColumn(t.columns[c]) else t.columns[c]
    ensures colIdx.None? ==> forall c :: 0 <= c < |t.columns| ==> r.columns[c] == ResetColumn(t.columns[c])
    ensures r.master == t.master && r.display == t.display && r.ids == t.ids
  {
    RefreshedRow(t, env, types, rowIdx, src, colIdx).(columns := ResetTypes(t.columns, colIdx))
  }

  /** Invalidating a row touches neither list. */
  lemma InvalidatedDisplayInMaster(t: TableState, env: Env, types: TypeRegistry.Types, rowIdx: nat, src: Value,
                                   colIdx: Option<nat>)
    requires Live(t, rowIdx) && (colIdx.Some? ==> colIdx.value < |t.columns|) && DisplayInMaster(t)
    ensures DisplayInMaster(Invalidated(t, env, types, rowIdx, src, colIdx))
  {
  }

  method Invalidate(s: Settings, env: Env, types: TypeRegistry.Types, rowIdx: nat, src: Value, colIdx: Option<nat>)
    requires Live(s.Contents(), rowIdx)
    requires colIdx.Some? ==> colIdx.value < |s.aoColumns|
    modifies s
    ensures s.Contents() == Invalidated(old(s.Contents()), env, types, rowIdx, src, colIdx)
  {
    RefreshRow(s, env, types, rowIdx, src, colIdx);
    ForgetTypes(s, colIdx);
  }

  method RefreshRow(s: Settings, env: Env, types: TypeRegistry.Types, rowIdx: nat, src: Value, colIdx: Option<nat>)
    requires Live(s.Contents(), rowIdx)
    modifies s
    ensures s.Contents() == RefreshedRow(old(s.Contents()), env, types, rowIdx, src, colIdx)
  {
    var row := s.aoData[rowIdx].value;
    var cleared := row.(sortData := None, filterData := None, displayData := None);
    s.aoData := s.aoData[rowIdx := Some(cleared)];
    if ReadsDom(src, row.src) {
      s.aoData := s.aoData[rowIdx := Some(cleared.(data := env.readDom(rowIdx, colIdx, row.data)))];
    } else {
      var _ := GetRowDisplay(s, env, types, rowIdx);
    }
  }

  method ForgetTypes(s: Settings, colIdx: Option<nat>)
    requires colIdx.Some? ==> colIdx.value < |s.aoColumns|
    modifies s
    ensures s.Contents() == old(s.Contents()).(columns := ResetTypes(old(s.aoColumns), colIdx))
  {
    if colIdx.Some? {
      s.aoColumns := s.aoColumns[colIdx.value := ResetColumn(s.aoColumns[colIdx.value])];
    } else {
      var i := 0;
      while i < |s.aoColumns|
        invariant 0 <= i <= |s.aoColumns| == |old(s.aoColumns)|
        invariant forall c :: 0 <= c < i ==> s.aoColumns[c] == ResetColumn(old(s.aoColumns[c]))
        invariant forall c :: i <= c < |s.aoColumns| ==> s.aoColumns[c] == old(s.aoColumns[c])
        invariant s.Contents() == old(s.Contents()).(columns := s.aoColumns)
      {
        s.aoColumns := s.aoColumns[i := ResetColumn(s.aoColumns[i])];
        i := i + 1;
      }
      assert s.aoColumns == ResetColumns(old(s.aoColumns));
    }
  }

  /** Invalidating a row keeps the arena invariant. */
  lemma InvalidatedWf(t: TableState, env: Env, types: TypeRegistry.Types, rowIdx: nat, src: Value, colIdx: Option<nat>)
    requires Wf(t) && Live(t, rowIdx)
    requires colIdx.Some? ==> colIdx.value < |t.columns|
    ensures Wf(Invalidated(t, env, types, rowIdx, src, colIdx))
  {
    var r := Invalidated(t, env, types, rowIdx, src, colIdx);
    forall c | 0 <= c < |r.columns| ensures r.columns[c].idx == c && r.columns[c].aDataSort == t.columns[c].aDataSort {
    }
  }
}
