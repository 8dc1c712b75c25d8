/**
 * Three API methods of `src/api/api.all.js` that change or report the
 * table's state directly: `rows().remove()` (tombstoning rows in the arena),
 * `order()` (reading or replacing `aaSorting`) and `page.info()`.
 */
module TableApi {
  import opened Wrappers
  import opened JsValue
  import opened Table
  import Internal
  import Paging
  import SortAlgo
  import Sort
  import Selector

  // ---- rows().remove() ----

  /** The table after a step and the exception it threw, if any. */
  datatype Outcome = Outcome(t: TableState, error: Option<string>)

  /** The master list after `aiDisplayMaster.splice(aiDisplayMaster.indexOf(row), 1)`, when present. */
  function Unlisted(master: seq<nat>, row: nat): (r: seq<nat>)
    ensures row !in master ==> r == master
  {
    var idx := Internal.IndexOf(master, row);
    if idx < 0 then master else master[..idx] + master[idx + 1..]
  }

  /**
   * `row().remove()` for one row. The master list, the record count and
   * the paging start (`_fnLengthOverflow`, given as `overflow`) are updated
   * before the row's data is read, so they stay changed when reading an
   * empty slot throws; a live row loses its `aIds` entry and its slot
   * becomes `null`.
   */
  function RemovedRow(t: TableState, env: Env, overflow: TableState -> nat, row: nat): Outcome {
    var t2 := Delisted(t, overflow, row);
    if !Live(t, row) then Outcome(t2, Some(if row < |t.data| then Sort.NullRead else Selector.UndefinedRead))
    else
      var id := env.rowId(t.data[row].value.data);
      var t3 := if id.Some? then t2.(ids := t2.ids - {id.value}) else t2;
      Outcome(t3.(data := t3.data[row := None]), None)
  }

  /** The first half of a removal, done even for a missing row: unlisted, counted out, and the start re-checked. */
  function Delisted(t: TableState, overflow: TableState -> nat, row: nat): TableState {
    var t1 := t.(master := Unlisted(t.master, row),
                 recordsDisplay := if t.recordsDisplay > 0 then t.recordsDisplay - 1 else 0);
    t1.(start := overflow(t1))
  }

  /** `rows().remove()`: the rows are removed in selection order; the first exception stops it. */
  function RemovedRows(t: TableState, env: Env, overflow: TableState -> nat, rows: seq<nat>): Outcome {
    if |rows| == 0 then Outcome(t, None)
    else
      var o := RemovedRows(t, env, overflow, rows[..|rows| - 1]);
      if o.error.Some? then o else RemovedRow(o.t, env, overflow, rows[|rows| - 1])
  }

  method RemoveRow(s: Settings, env: Env, overflow: TableState -> nat, row: nat) returns (error: Option<string>)
    modifies s
    ensures var o := RemovedRow(old(s.Contents()), env, overflow, row);
            s.Contents() == o.t && error == o.error
  {
    var live := row < |s.aoData| && s.aoData[row].Some?;
    Delist(s, overflow, row);
    if !live {
      return Some(if row < |s.aoData| then Sort.NullRead else Selector.UndefinedRead);
    }
    var id := env.rowId(s.aoData[row].value.data);
    if id.Some? {
      s.aIds := s.aIds - {id.value};
    }
    s.aoData := s.aoData[row := None];
    return None;
  }

  /** Takes `row` out of `aiDisplayMaster`, counts it out of the display and re-checks the start. */
  method Delist(s: Settings, overflow: TableState -> nat, row: nat)
    modifies s
    ensures s.Contents() == Delisted(old(s.Contents()), overflow, row)
  {
    var idx := Internal.IndexOf(s.aiDisplayMaster, row);
    if idx != -1 {
      s.aiDisplayMaster := s.aiDisplayMaster[..idx] + s.aiDisplayMaster[idx + 1..];
    }
    if s.iRecordsDisplay > 0 {
      s.iRecordsDisplay := s.iRecordsDisplay - 1;
    }
    s.iDisplayStart := overflow(s.Contents());
  }

  method RemoveRows(s: Settings, env: Env, overflow: TableState -> nat, rows: seq<nat>) returns (error: Option<string>)
    modifies s
    ensures var o := RemovedRows(old(s.Contents()), env, overflow, rows);
            s.Contents() == o.t && error == o.error
  {
    var i := 0;
    while i < |rows|
      invariant i <= |rows|
      invariant RemovedRows(old(s.Contents()), env, overflow, rows[..i]) == Outcome(s.Contents(), None)
    {
      assert rows[..i + 1][..i] == rows[..i];
      error := RemoveRow(s, env, overflow, rows[i]);
      if error.Some? {
        RemovedRowsStop(old(s.Contents()), env, overflow, rows, i + 1);
        return;
      }
      i := i + 1;
    }
    assert rows[..i] == rows;
    return None;
  }

  /** Once a removal throws, the later rows are not touched. */
  lemma {:induction false} RemovedRowsStop(t: TableState, env: Env, overflow: TableState -> nat, rows: seq<nat>, j: nat)
    requires j <= |rows| && RemovedRows(t, env, overflow, rows[..j]).error.Some?
    ensures RemovedRows(t, env, overflow, rows) == RemovedRows(t, env, overflow, rows[..j])
    decreases |rows| - j
  {
    if j < |rows| {
      var next := rows[..j + 1];
      assert next[..j] == rows[..j];
      RemovedRowsStop(t, env, overflow, rows, j + 1);
    } else {
      assert rows[..j] == rows;
    }
  }

  // ---- properties of rows().remove() ----

  /** Taking a row out of a list without duplicates leaves every other element, once each. */
  lemma UnlistedMembers(master: seq<nat>, row: nat)
    requires Internal.NoDuplicates(master)
    ensures var r := Unlisted(master, row);
            Internal.NoDuplicates(r) && (forall x :: x in r <==> x in master && x != row) &&
            |r| == if row in master then |master| - 1 else |master|
  {
    var idx := Internal.IndexOf(master, row);
    if idx >= 0 {
      SpliceMembers(master, idx);
    }
  }

  lemma SpliceMembers(master: seq<nat>, idx: nat)
    requires Internal.NoDuplicates(master) && idx < |master|
    ensures var r := master[..idx] + master[idx + 1..];
            Internal.NoDuplicates(r) && (forall x :: x in r <==> x in master && x != master[idx]) &&
            |r| == |master| - 1
  {
    var r := master[..idx] + master[idx + 1..];
    assert forall k :: 0 <= k < |r| ==> r[k] == master[if k < idx then k else k + 1];
    forall x | x in master && x != master[idx] ensures x in r {
      var k :| 0 <= k < |master| && master[k] == x;
      assert r[if k < idx then k else k - 1] == x;
    }
  }

  /**
   * Removing a live row keeps the arena invariant, empties only that slot
   * (the arena keeps its length), takes the row out of the master list and
   * out of `aIds`, and leaves `aiDisplay` as it was.
   */
  /**
   * `rows().remove()` takes a row out of the master but not out of
   * `aiDisplay`: a displayed row stays listed for display until the next draw.
   */
  lemma RemoveDisplayedRowLeavesDisplay(t: TableState, env: Env, overflow: TableState -> nat, row: nat)
    requires Wf(t) && Live(t, row) && row in t.display
    ensures !DisplayInMaster(RemovedRow(t, env, overflow, row).t)
  {
    RemoveLiveRow(t, env, overflow, row);
    var o := RemovedRow(t, env, overflow, row);
    var k :| 0 <= k < |t.display| && t.display[k] == row;
    assert o.t.display[k] == row && row !in o.t.master;
  }

  lemma RemoveLiveRow(t: TableState, env: Env, overflow: TableState -> nat, row: nat)
    requires Wf(t) && Live(t, row)
    ensures var o := RemovedRow(t, env, overflow, row);
            o.error.None? && Wf(o.t) &&
            |o.t.data| == |t.data| && o.t.data[row].None? &&
            (forall i :: 0 <= i < |t.data| && i != row ==> o.t.data[i] == t.data[i]) &&
            (forall x :: x in o.t.master <==> x in t.master && x != row) &&
            |o.t.master| == |t.master| - 1 &&
            (env.rowId(t.data[row].value.data).Some? ==> env.rowId(t.data[row].value.data).value !in o.t.ids) &&
            (forall id :: id in o.t.ids ==> id in t.ids && o.t.ids[id] == t.ids[id]) &&
            o.t.display == t.display
  {
    UnlistedMembers(t.master, row);
    var o := RemovedRow(t, env, overflow, row);
    forall k | 0 <= k < |o.t.master| ensures Live(o.t, o.t.master[k]) {
      assert o.t.master[k] in o.t.master;
    }
  }

  /** An empty slot is never revived: removing it throws and leaves the arena as it was. */
  lemma RemoveEmptySlot(t: TableState, env: Env, overflow: TableState -> nat, row: nat)
    requires !Live(t, row)
    ensures var o := RemovedRow(t, env, overflow, row);
            o.error == Some(if row < |t.data| then Sort.NullRead else Selector.UndefinedRead) &&
            o.t.data == t.data && o.t.ids == t.ids
  {
  }

  /** Removing the same live row twice throws on the second removal, after the first has taken effect. */
  lemma RemoveTwice(t: TableState, env: Env, overflow: TableState -> nat, row: nat)
    requires Wf(t) && Live(t, row)
    ensures var once := RemovedRows(t, env, overflow, [row]);
            var twice := RemovedRows(t, env, overflow, [row, row]);
            once.error.None? && twice.error == Some(Sort.NullRead) && twice.t.data == once.t.data
  {
    assert [row, row][..1] == [row];
    assert [row][..0] == [];
  }

  /**
   * Removing distinct live rows keeps the arena invariant and leaves live
   * exactly the slots that were live and not removed.
   */
  lemma {:induction false} RemoveDistinctRows(t: TableState, env: Env, overflow: TableState -> nat, rows: seq<nat>)
    requires Wf(t) && Internal.NoDuplicates(rows) && forall k :: 0 <= k < |rows| ==> Live(t, rows[k])
    ensures var o := RemovedRows(t, env, overflow, rows);
            o.error.None? && Wf(o.t) && |o.t.data| == |t.data| &&
            forall i :: Live(o.t, i) <==> Live(t, i) && i !in rows
  {
    if |rows| > 0 {
      var init := rows[..|rows| - 1];
      var last := rows[|rows| - 1];
      assert forall k :: 0 <= k < |init| ==> init[k] == rows[k];
      RemoveDistinctRows(t, env, overflow, init);
      var o := RemovedRows(t, env, overflow, init);
      assert last !in init by {
        forall k | 0 <= k < |init| ensures init[k] != last {
          assert rows[k] != rows[|rows| - 1];
        }
      }
      RemoveLiveRow(o.t, env, overflow, last);
      var o2 := RemovedRow(o.t, env, overflow, last);
      LiveAfterRemoval(t, o.t, o2.t, init, last);
      RemovedRowsLast(t, env, overflow, rows);
      LastSplit(rows);
    }
  }

  lemma LastSplit<T>(s: seq<T>)
    requires |s| > 0
    ensures s == s[..|s| - 1] + [s[|s| - 1]]
  {
  }

  /** The removals of a selection: those of all but its last row, then that row. */
  lemma RemovedRowsLast(t: TableState, env: Env, overflow: TableState -> nat, rows: seq<nat>)
    requires |rows| > 0 && RemovedRows(t, env, overflow, rows[..|rows| - 1]).error.None?
    ensures RemovedRows(t, env, overflow, rows)
            == RemovedRow(RemovedRows(t, env, overflow, rows[..|rows| - 1]).t, env, overflow, rows[|rows| - 1])
  {
  }

  /** The slots live after one more removal: the earlier ones, less the row just emptied. */
  lemma LiveAfterRemoval(t: TableState, mid: TableState, fin: TableState, init: seq<nat>, last: nat)
    requires forall i :: Live(mid, i) <==> Live(t, i) && i !in init
    requires last < |mid.data| && |fin.data| == |mid.data| && fin.data[last].None?
    requires forall i :: 0 <= i < |mid.data| && i != last ==> fin.data[i] == mid.data[i]
    ensures forall i :: Live(fin, i) <==> Live(t, i) && i !in init + [last]
  {
    forall i ensures Live(fin, i) <==> Live(t, i) && i !in init + [last] {
      assert i in init + [last] <==> i in init || i == last;
    }
  }

  // ---- order() ----

  /**
   * The one list `order()` resolves from its arguments: `order(n, dir)` is
   * `[[n, dir]]`, several arguments are a list of pairs, and a single
   * argument is taken as it is.
   */
  function OrderArg(args: seq<Value>): Value
    requires |args| > 0
  {
    if args[0].Num? then Arr([Arr([args[0], if |args| > 1 then args[1] else Undefined])])
    else if |args| > 1 then Arr(args)
    else args[0]
  }

  /** The `aaSorting` entries of resolved pairs; a `null` element of a 2-D list is dropped. */
  function Entries(ns: seq<SortAlgo.Nested>): (r: seq<SortEntry>)
    ensures |r| <= |ns|
  {
    if |ns| == 0 then []
    else
      var e := ns[|ns| - 1];
      Entries(ns[..|ns| - 1]) + (if e.Pair? then [SortEntry(e.col, e.dir, e.idx)] else [])
  }

  /** What `order()` does: read the current `aaSorting`, or replace it. */
  datatype OrderResult = Current(sorting: seq<SortEntry>) | Replaced(t: TableState)

  /** `order(order, dir, ...)` on one table; no first argument reads the ordering. */
  function OrderSpec(t: TableState, args: seq<Value>): (r: OrderResult)
    ensures r.Current? <==> |args| == 0 || args[0] == Undefined
    ensures r.Current? ==> r.sorting == t.sorting
    ensures r.Replaced? ==> r.t == t.(sorting := r.t.sorting)
  {
    if |args| == 0 || args[0] == Undefined then Current(t.sorting)
    else Replaced(t.(sorting := Entries(SortAlgo.Resolve(t.columns, OrderArg(args)))))
  }

  method Order(s: Settings, args: seq<Value>) returns (current: Option<seq<SortEntry>>)
    modifies s
    ensures match OrderSpec(old(s.Contents()), args)
            case Current(x) => current == Some(x) && s.Contents() == old(s.Contents())
            case Replaced(t) => current.None? && s.Contents() == t
  {
    if |args| == 0 || args[0] == Undefined {
      return Some(s.aaSorting);
    }
    var resolved := SortAlgo.SortResolve(s.aoColumns, [], OrderArg(args));
    assert resolved == SortAlgo.Resolve(s.aoColumns, OrderArg(args));
    s.aaSorting := Entries(resolved);
    return None;
  }

  // ---- properties of order() ----

  /** `order(n, dir)` makes `[[n, dir]]` the whole ordering, and changes nothing else. */
  lemma OrderColumn(t: TableState, n: int, dir: Value)
    ensures OrderSpec(t, [Num(n), dir]) == Replaced(t.(sorting := [SortEntry(Num(n), dir, None)]))
    ensures OrderSpec(t, [Num(n)]) == Replaced(t.(sorting := [SortEntry(Num(n), Undefined, None)]))
  {
    OnePair(t.columns, Arr([Num(n), dir]));
    OnePair(t.columns, Arr([Num(n), Undefined]));
  }

  /** A 2-D list of one pair resolves to that pair. */
  lemma OnePair(cols: seq<Column>, pair: Value)
    requires pair.Arr?
    ensures Entries(SortAlgo.Resolve(cols, Arr([pair]))) ==
            [SortEntry(SortAlgo.Item(pair, 0), SortAlgo.Item(pair, 1), None)]
  {
    assert [pair][..0] == [];
    assert SortAlgo.PushAll(cols, [pair]) == SortAlgo.Push(cols, pair);
    assert Entries([SortAlgo.Pair(SortAlgo.Item(pair, 0), SortAlgo.Item(pair, 1), None, None)]) ==
           [SortEntry(SortAlgo.Item(pair, 0), SortAlgo.Item(pair, 1), None)];
  }

  /** Pairs given as separate arguments order the table as the same pairs given as one 2-D list. */
  lemma OrderArgumentsAsList(t: TableState, args: seq<Value>)
    requires |args| > 1 && !args[0].Num? && args[0] != Undefined
    ensures OrderSpec(t, args) == OrderSpec(t, [Arr(args)])
  {
  }

  /** The pairs of a list, each `[column, direction]`. */
  function PairList(pairs: seq<(int, Value)>): (r: seq<Value>)
    ensures |r| == |pairs|
    ensures forall k :: 0 <= k < |pairs| ==> r[k] == Arr([Num(pairs[k].0), pairs[k].1])
  {
    seq(|pairs|, k requires 0 <= k < |pairs| => Arr([Num(pairs[k].0), pairs[k].1]))
  }

  lemma {:induction false} PushPairs(cols: seq<Column>, pairs: seq<(int, Value)>)
    ensures var r := Entries(SortAlgo.PushAll(cols, PairList(pairs)));
            |r| == |pairs| && forall k :: 0 <= k < |pairs| ==> r[k] == SortEntry(Num(pairs[k].0), pairs[k].1, None)
  {
    if |pairs| > 0 {
      var n := |pairs| - 1;
      var init := pairs[..n];
      PushPairs(cols, init);
      PushPairsLast(cols, pairs);
      PairEntriesSnoc(Entries(SortAlgo.PushAll(cols, PairList(init))), pairs);
    }
  }

  /** Entries for all pairs but the last, then one for the last, are entries for all pairs. */
  lemma PairEntriesSnoc(r0: seq<SortEntry>, pairs: seq<(int, Value)>)
    requires |pairs| > 0
    requires var init := pairs[..|pairs| - 1];
             |r0| == |init| && forall k :: 0 <= k < |init| ==> r0[k] == SortEntry(Num(init[k].0), init[k].1, None)
    ensures var n := |pairs| - 1;
            var r := r0 + [SortEntry(Num(pairs[n].0), pairs[n].1, None)];
            |r| == |pairs| && forall k :: 0 <= k < |pairs| ==> r[k] == SortEntry(Num(pairs[k].0), pairs[k].1, None)
  {
    var n := |pairs| - 1;
    var init := pairs[..n];
    var r := r0 + [SortEntry(Num(pairs[n].0), pairs[n].1, None)];
    forall k | 0 <= k < |pairs| ensures r[k] == SortEntry(Num(pairs[k].0), pairs[k].1, None) {
      if k < n {
        assert r[k] == r0[k] && init[k] == pairs[k];
      }
    }
  }

  /** The last pair of a 2-D list becomes the last entry. */
  lemma PushPairsLast(cols: seq<Column>, pairs: seq<(int, Value)>)
    requires |pairs| > 0
    ensures var n := |pairs| - 1;
            Entries(SortAlgo.PushAll(cols, PairList(pairs)))
              == Entries(SortAlgo.PushAll(cols, PairList(pairs[..n]))) + [SortEntry(Num(pairs[n].0), pairs[n].1, None)]
  {
    var n := |pairs| - 1;
    var init := pairs[..n];
    var items := PairList(pairs);
    assert items[..n] == PairList(init);
    var nested := SortAlgo.Push(cols, items[n]);
    assert nested == [SortAlgo.Pair(Num(pairs[n].0), pairs[n].1, None, None)];
    assert SortAlgo.PushAll(cols, items) == SortAlgo.PushAll(cols, PairList(init)) + nested;
    EntriesAppend(SortAlgo.PushAll(cols, PairList(init)), nested);
  }

  lemma EntriesAppend(a: seq<SortAlgo.Nested>, b: seq<SortAlgo.Nested>)
    requires |b| == 1 && b[0].Pair?
    ensures Entries(a + b) == Entries(a) + [SortEntry(b[0].col, b[0].dir, b[0].idx)]
  {
    assert (a + b)[..|a + b| - 1] == a;
  }

  /** A 2-D list of `[column, direction]` pairs becomes the ordering, pair for pair, in list order. */
  lemma OrderPairs(t: TableState, pairs: seq<(int, Value)>)
    requires |pairs| > 0
    ensures OrderSpec(t, [Arr(PairList(pairs))]).Replaced?
    ensures var s := OrderSpec(t, [Arr(PairList(pairs))]).t.sorting;
            |s| == |pairs| && forall k :: 0 <= k < |pairs| ==> s[k] == SortEntry(Num(pairs[k].0), pairs[k].1, None)
  {
    var items := PairList(pairs);
    assert OrderArg([Arr(items)]) == Arr(items);
    assert !items[0].Num?;
    assert SortAlgo.Resolve(t.columns, Arr(items)) == SortAlgo.PushAll(t.columns, items);
    PushPairs(t.columns, pairs);
  }

  /** After setting the ordering, reading it gives the stored entries back. */
  lemma OrderReadBack(t: TableState, args: seq<Value>)
    requires |args| > 0 && args[0] != Undefined
    ensures OrderSpec(OrderSpec(t, args).t, []) == Current(Entries(SortAlgo.Resolve(t.columns, OrderArg(args))))
  {
  }

  // ---- page.info() ----

  /** `page.info()`: the paging position of the table. */
  datatype PageInfo = PageInfo(page: nat, pages: nat, start: nat, end: int, length: int,
                               recordsTotal: nat, recordsDisplay: nat, serverSide: bool)

  /** `fnRecordsDisplay()`: the server's filtered count, or the length of `aiDisplay`. */
  function RecordsDisplay(t: TableState): nat {
    if t.features.serverSide then t.recordsDisplay else |t.display|
  }

  /**
   * `page.info()` on one table; `serverTotal` is the server's record count
   * (`_iRecordsTotal`), which only server-side processing reads.
   */
  function PageInfoSpec(t: TableState, serverTotal: nat): (r: PageInfo)
    requires Paging.ValidLength(if t.features.bPaginate then t.length else -1)
    ensures t.features.bPaginate && t.length > 0 ==>
              r.page * t.length <= t.start < (r.page + 1) * t.length &&
              (t.start < r.recordsDisplay ==> r.page < r.pages)
    ensures r.recordsDisplay == (if t.features.serverSide then t.recordsDisplay else |t.display|)
  {
    var len := if t.features.bPaginate then t.length else -1;
    var visRecords := RecordsDisplay(t);
    assert len > 0 ==>
             var (page, pages) := Paging.InfoPages(t.start, len, visRecords);
             page * len <= t.start < (page + 1) * len && (t.start < visRecords ==> page < pages) by {
      if len > 0 {
        PageArithmetic(t.start, len, visRecords);
      }
    }
    var (page, pages) := Paging.InfoPages(t.start, len, visRecords);
    PageInfo(page, pages, t.start, Selector.DisplayEnd(t), len,
             if t.features.serverSide then serverTotal else |t.master|, visRecords, t.features.serverSide)
  }

  /** `floor(start / len)` is the page holding `start`, one of `ceil(records / len)` when `start` is a record. */
  lemma PageArithmetic(start: nat, len: int, records: nat)
    requires len > 0
    ensures var (page, pages) := Paging.InfoPages(start, len, records);
            page * len <= start < (page + 1) * len && (start < records ==> page < pages)
  {
    var (page, pages) := Paging.InfoPages(start, len, records);
    assert page == start / len;
    assert page * len <= start < (page + 1) * len;
    if start < records && page >= pages {
      assert (pages - 1) * len < records <= pages * len;
      Paging.MulMonotone(pages, page, len);
    }
  }

  /**
   * The reported page is the one holding the first displayed record: it
   * starts at or before `start` and ends after it. When `start` is a
   * record, the page is one of the `pages`. With paging off (or length -1)
   * everything is page 0 of 1.
   */
  lemma PageHoldsStart(t: TableState, serverTotal: nat)
    requires Paging.ValidLength(if t.features.bPaginate then t.length else -1)
    ensures var info := PageInfoSpec(t, serverTotal);
            (info.length == -1 ==> info.page == 0 && info.pages == 1) &&
            (info.length > 0 ==> info.page * info.length <= t.start < (info.page + 1) * info.length &&
                                 (t.start < info.recordsDisplay ==> info.page < info.pages))
  {
    var len := if t.features.bPaginate then t.length else -1;
    if len > 0 {
      PageArithmetic(t.start, len, RecordsDisplay(t));
    }
  }
}
