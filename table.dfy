/**
 * The settings object of one table: the row arena `aoData` (an append-only
 * list whose removed slots become `null`), the index arrays
 * `aiDisplayMaster` and `aiDisplay` over it, the column list, the row-id
 * index `aIds`, paging position and the ordering state. The functions a
 * table is configured with (column accessors, the row-id function, DOM
 * reads) are supplied as an `Env`.
 */
module Table {
  import opened Wrappers
  import opened JsValue
  import Internal

  /** Where a row's data was read from (`row.src`). */
  datatype RowSource = FromDom | FromData

  /**
   * One row model: its data object and the three lazily filled caches
   * `_aSortData` (per column), `_aFilterData` and `displayData`; `None`
   * is `null`.
   */
  datatype Row = Row(data: Value, idx: nat, src: RowSource,
                     sortData: Option<map<nat, Value>>,
                     filterData: Option<seq<Value>>,
                     displayData: Option<seq<Value>>)

  /**
   * One column model. `sType` and `manualType` (`_sManualType`) are `Null`
   * while unset; `maxLenString` is the memo of `_fnGetMaxLenString`.
   */
  datatype Column = Column(
    idx: nat, mData: Value, sType: Value, manualType: Value,
    sName: Value, sTitle: Value, bVisible: bool, bSortable: bool,
    aDataSort: seq<nat>, asSorting: seq<string>, sDefaultContent: Value,
    maxLenString: Option<string>, sWidth: Value, sWidthOrig: Value,
    sSortDataType: Value)

  /** One entry of `aaSorting`: `[column, direction]` and its cached `_idx` into `asSorting`. */
  datatype SortEntry = SortEntry(col: Value, dir: Value, idx: Option<int>)

  /** One flattened sort instruction, as `_fnSortFlatten` builds them. */
  datatype SortSpec = SortSpec(src: nat, col: nat, dir: Value, index: int, sType: Value,
                               formatter: Value, sorter: Value)

  /** The feature switches the engine consults; `serverSide` is `_fnDataSource(settings) == 'ssp'`. */
  datatype Features = Features(bSort: bool, bSortMulti: bool, bPaginate: bool,
                               serverSide: bool, typeDetect: bool, orderDescReverse: bool)

  /** A snapshot of the settings object. */
  datatype TableState = TableState(
    data: seq<Option<Row>>, master: seq<nat>, display: seq<nat>, columns: seq<Column>,
    ids: map<string, nat>, start: nat, length: int,
    sorting: seq<SortEntry>, fixed: Value, sorted: bool, details: seq<SortSpec>,
    recordsDisplay: nat, features: Features)

  /**
   * The functions a table is configured with, which the model does not look
   * inside: a column's `fnGetData`/`fnSetData` (column, row, row data, ...),
   * calling a JavaScript function value with a `this` and arguments, a node's
   * `innerHTML`, `rowIdFn` (`None` for `undefined`) and reading a row back
   * from its DOM cells (`_fnGetRowElements`).
   */
  datatype Env = Env(
    getData: (nat, nat, Value, Option<string>) -> Value,
    setData: (nat, nat, Value, Value) -> Value,
    call: (Value, Value, seq<Value>) -> Value,
    innerHtml: NodeRef -> Value,
    rowId: Value -> Option<string>,
    readDom: (nat, Option<nat>, Value) -> Value)

  /** Slot `i` of the arena holds a row (`settings.aoData[i]` is truthy). */
  predicate Live(t: TableState, i: int) {
    0 <= i < |t.data| && t.data[i].Some?
  }

  /**
   * Each column knows its index. An `aDataSort` entry may name a column that
   * does not exist (a user `orderData`); sorting on it throws.
   */
  predicate ColumnsWf(cols: seq<Column>) {
    forall c :: 0 <= c < |cols| ==> cols[c].idx == c
  }

  /**
   * The arena invariant: the master list holds each live slot exactly once
   * and nothing else; a row knows its own index; ids point into the arena.
   */
  predicate Wf(t: TableState) {
    && Internal.NoDuplicates(t.master)
    && (forall k :: 0 <= k < |t.master| ==> Live(t, t.master[k]))
    && (forall i :: 0 <= i < |t.data| && t.data[i].Some? ==> i in t.master)
    && (forall i :: 0 <= i < |t.data| && t.data[i].Some? ==> t.data[i].value.idx == i)
    && (forall id :: id in t.ids ==> t.ids[id] < |t.data|)
    && ColumnsWf(t.columns)
  }

  /** Every row of `aiDisplay` is also in `aiDisplayMaster`: the display list is drawn from the master. */
  predicate DisplayInMaster(t: TableState) {
    forall k :: 0 <= k < |t.display| ==> t.display[k] in t.master
  }

  /** The settings object; each field is updated in place by the engine. */
  class Settings {
    var aoData: seq<Option<Row>>
    var aiDisplayMaster: seq<nat>
    var aiDisplay: seq<nat>
    var aoColumns: seq<Column>
    var aIds: map<string, nat>
    var iDisplayStart: nat
    var iDisplayLength: int
    var aaSorting: seq<SortEntry>
    var aaSortingFixed: Value
    var bSorted: bool
    var sortDetails: seq<SortSpec>
    var iRecordsDisplay: nat
    var oFeatures: Features

    function Contents(): TableState
      reads this
    {
      TableState(aoData, aiDisplayMaster, aiDisplay, aoColumns, aIds, iDisplayStart, iDisplayLength,
                 aaSorting, aaSortingFixed, bSorted, sortDetails, iRecordsDisplay, oFeatures)
    }

    /** A settings object holding the given state. */
    constructor (t: TableState)
      ensures Contents() == t
    {
      aoData, aiDisplayMaster, aiDisplay, aoColumns, aIds := t.data, t.master, t.display, t.columns, t.ids;
      iDisplayStart, iDisplayLength := t.start, t.length;
      aaSorting, aaSortingFixed, bSorted, sortDetails := t.sorting, t.fixed, t.sorted, t.details;
      iRecordsDisplay, oFeatures := t.recordsDisplay, t.features;
    }

  }
}
