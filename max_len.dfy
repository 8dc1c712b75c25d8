/**
 * `_fnGetMaxLenString` (`src/core/core.columns.js`): the widest cell of a
 * column, measured on its display data with tags stripped, memoised in the
 * column's `maxLenString`. Rendering a row fills its display cache as a
 * side effect.
 */
module MaxLen {
  import opened Wrappers
  import opened JsValue
  import opened Table
  import Data
  import Text
  import TypeRegistry

  /**
   * The regular expressions the measurement uses: removing `id="…"` and
   * `name="…"` attributes, and the tag pattern inside `stripHtml`.
   */
  datatype Hooks = Hooks(removeAttrs: string -> string, removeTags: string -> string)

  /** Every index in the master list names a live row, as the arena invariant keeps it. */
  predicate MasterLive(t: TableState) {
    forall k :: 0 <= k < |t.master| ==> Live(t, t.master[k])
  }

  /** `s.replace(/&nbsp;/g, " ")`. */
  function ReplaceNbsp(s: string): (r: string)
    ensures |r| <= |s|
  {
    if |s| >= 6 && s[..6] == "&nbsp;" then " " + ReplaceNbsp(s[6..])
    else if |s| == 0 then ""
    else [s[0]] + ReplaceNbsp(s[1..])
  }

  /** A cell as text: a node's `innerHTML`, anything else concatenated with `""`. */
  function CellString(d: Value, env: Env): string {
    if d.Node? then Text.ToJsString(env.innerHtml(d.ref)) else Text.ToJsString(d)
  }

  /** The text kept for a cell (attributes removed) and the length it is compared by. */
  function Measure(d: Value, env: Env, h: Hooks): Result<(string, nat)> {
    var cellString := h.removeAttrs(CellString(d, env));
    match Text.StripHtmlSpec(Str(cellString), h.removeTags)
    case Throw(m) => Throw(m)
    case Ok(v) => Ok((cellString, |ReplaceNbsp(Text.ToJsString(v))|))
  }

  /** Entry `colIdx` of the row's display data; `undefined` past its end. */
  function DisplayCell(t: TableState, env: Env, types: TypeRegistry.Types, rowIdx: nat, colIdx: nat): Value
    requires Live(t, rowIdx)
  {
    var disp := Data.RowDisplay(t, env, types, rowIdx);
    if colIdx < |disp| then disp[colIdx] else Undefined
  }

  /** The measurement of the `i`-th row of the master list. */
  function MeasureAt(t: TableState, env: Env, types: TypeRegistry.Types, colIdx: nat, h: Hooks, i: nat): Result<(string, nat)>
    requires MasterLive(t) && i < |t.master|
  {
    Measure(DisplayCell(t, env, types, t.master[i], colIdx), env, h)
  }

  /** The measurements of the master rows, in master order. */
  function Measures(t: TableState, env: Env, types: TypeRegistry.Types, colIdx: nat, h: Hooks): seq<Result<(string, nat)>>
    requires MasterLive(t)
  {
    seq(|t.master|, i requires 0 <= i < |t.master| => MeasureAt(t, env, types, colIdx, h, i))
  }

  /** One measurement per master row, in master order. */
  lemma MeasuresAt(t: TableState, env: Env, types: TypeRegistry.Types, colIdx: nat, h: Hooks)
    requires MasterLive(t)
    ensures var r := Measures(t, env, types, colIdx, h);
            |r| == |t.master| && forall k :: 0 <= k < |r| ==> r[k] == MeasureAt(t, env, types, colIdx, h, k)
  {
  }

  /**
   * `ms` holds one measurement per master row. The trigger keeps the
   * measurements folded until a particular row's measurement is asked for.
   */
  ghost predicate MeasuredBy(ms: seq<Result<(string, nat)>>, t: TableState, env: Env, types: TypeRegistry.Types, colIdx: nat, h: Hooks)
    requires MasterLive(t)
  {
    |ms| == |t.master| &&
    forall k {:trigger MeasureAt(t, env, types, colIdx, h, k)} :: 0 <= k < |ms| ==> ms[k] == MeasureAt(t, env, types, colIdx, h, k)
  }

  lemma MeasuresLength(t: TableState, env: Env, types: TypeRegistry.Types, colIdx: nat, h: Hooks)
    requires MasterLive(t)
    ensures |Measures(t, env, types, colIdx, h)| == |t.master|
  {
    MeasuresAt(t, env, types, colIdx, h);
  }

  /** The loop over measurements `i..`, with the widest text so far and its length. */
  function WidestFrom(ms: seq<Result<(string, nat)>>, i: nat, max: string, maxLen: int): Result<string>
    decreases |ms| - i
  {
    if i >= |ms| then Ok(max)
    else
      match ms[i]
      case Throw(m) => Throw(m)
      case Ok(p) =>
        if p.1 > maxLen then WidestFrom(ms, i + 1, p.0, p.1)
        else WidestFrom(ms, i + 1, max, maxLen)
  }

  /** A memo counts only when it is a non-empty string. */
  predicate Memoised(col: Column) {
    col.maxLenString.Some? && col.maxLenString.value != ""
  }

  /** What `_fnGetMaxLenString(settings, colIdx)` returns. */
  function MaxLenString(t: TableState, env: Env, types: TypeRegistry.Types, colIdx: nat, h: Hooks): Result<string>
    requires colIdx < |t.columns| && MasterLive(t)
  {
    if Memoised(t.columns[colIdx]) then Ok(t.columns[colIdx].maxLenString.value)
    else WidestFrom(Measures(t, env, types, colIdx, h), 0, "", -1)
  }

  /** The state after display data has been fetched for the first `n` master rows, in order. */
  function Filled(t: TableState, env: Env, types: TypeRegistry.Types, n: nat): (r: TableState)
    requires MasterLive(t) && n <= |t.master|
    ensures r == t.(data := r.data) && |r.data| == |t.data|
    ensures forall k {:trigger Live(r, k)} :: Live(r, k) <==> Live(t, k)
  {
    if n == 0 then t
    else Data.WithRowDisplay(Filled(t, env, types, n - 1), env, types, t.master[n - 1])
  }

  /** The state after a successful call that returned `m`. */
  function AfterMaxLen(t: TableState, env: Env, types: TypeRegistry.Types, colIdx: nat, m: string): TableState
    requires colIdx < |t.columns| && MasterLive(t)
  {
    if Memoised(t.columns[colIdx]) then t
    else
      var f := Filled(t, env, types, |t.master|);
      f.(columns := f.columns[colIdx := f.columns[colIdx].(maxLenString := Some(m))])
  }

  // ---- the display cache does not change what is measured ----

  /** Filling one row's display cache changes no row's display data. */
  lemma DisplayStable(t: TableState, env: Env, types: TypeRegistry.Types, r1: nat, r2: nat)
    requires Live(t, r1) && Live(t, r2)
    ensures Data.RowDisplay(Data.WithRowDisplay(t, env, types, r1), env, types, r2) == Data.RowDisplay(t, env, types, r2)
  {
    var t' := Data.WithRowDisplay(t, env, types, r1);
    if r1 == r2 {
      Data.RowDisplayCached(t, env, types, r1);
    } else {
      assert t'.data[r2] == t.data[r2] && t'.columns == t.columns;
      forall c | 0 <= c < |t.columns|
        ensures Data.CellData(t', env, types, r2, c, Some("display")) == Data.CellData(t, env, types, r2, c, Some("display"))
      {
      }
      Data.RenderFromSame(t, t', env, types, r2, 0);
    }
  }

  lemma {:induction false} FilledDisplay(t: TableState, env: Env, types: TypeRegistry.Types, n: nat, r: nat)
    requires MasterLive(t) && n <= |t.master| && Live(t, r)
    ensures Data.RowDisplay(Filled(t, env, types, n), env, types, r) == Data.RowDisplay(t, env, types, r)
  {
    if n > 0 {
      FilledDisplay(t, env, types, n - 1, r);
      DisplayStable(Filled(t, env, types, n - 1), env, types, t.master[n - 1], r);
    }
  }

  // ---- which cell wins ----

  /**
   * The outcome of the loop from measurement `i`: either nothing from `i` on
   * beats the current maximum, or entry `w` is the first from `i` with the
   * greatest length, and longer than the current maximum.
   */
  predicate WinnerFrom(ms: seq<Result<(string, nat)>>, i: nat, max: string, maxLen: int, m: string) {
    (forall j :: i <= j < |ms| ==> ms[j].Ok?) &&
    ((m == max && forall j :: i <= j < |ms| ==> ms[j].value.1 <= maxLen) ||
     (exists w :: i <= w < |ms| && WinsAt(ms, i, maxLen, w, m)))
  }

  predicate WinsAt(ms: seq<Result<(string, nat)>>, i: nat, maxLen: int, w: nat, m: string)
    requires i <= w < |ms| && forall j :: i <= j < |ms| ==> ms[j].Ok?
  {
    ms[w].value.0 == m && ms[w].value.1 > maxLen &&
    (forall j :: i <= j < w ==> ms[j].value.1 < ms[w].value.1) &&
    (forall j :: w < j < |ms| ==> ms[j].value.1 <= ms[w].value.1)
  }

  lemma {:induction false} WidestFromWinner(ms: seq<Result<(string, nat)>>, i: nat, max: string, maxLen: int)
    requires i <= |ms|
    ensures var r := WidestFrom(ms, i, max, maxLen);
            (r.Ok? ==> WinnerFrom(ms, i, max, maxLen, r.value)) &&
            (r.Throw? <==> exists j :: i <= j < |ms| && ms[j].Throw?)
    decreases |ms| - i
  {
    if i < |ms| {
      if ms[i].Ok? {
        var p := ms[i].value;
        var nmax := if p.1 > maxLen then p.0 else max;
        var nlen := if p.1 > maxLen then p.1 else maxLen;
        WidestFromWinner(ms, i + 1, nmax, nlen);
        var r := WidestFrom(ms, i + 1, nmax, nlen);
        assert WidestFrom(ms, i, max, maxLen) == r;
        if r.Ok? {
          var m := r.value;
          if m == nmax && forall j :: i + 1 <= j < |ms| ==> ms[j].value.1 <= nlen {
            if p.1 > maxLen {
              assert WinsAt(ms, i, maxLen, i, m);
            }
          } else {
            var w :| i + 1 <= w < |ms| && WinsAt(ms, i + 1, nlen, w, m);
            assert WinsAt(ms, i, maxLen, w, m);
          }
        } else {
          var j :| i + 1 <= j < |ms| && ms[j].Throw?;
        }
      }
    }
  }

  /**
   * Without a memo the result is the text of the first cell with the
   * strictly greatest stripped length (`""` for no rows), and the call throws
   * exactly when stripping some cell throws.
   */
  lemma FirstLongestWins(t: TableState, env: Env, types: TypeRegistry.Types, colIdx: nat, h: Hooks)
    requires colIdx < |t.columns| && MasterLive(t) && !Memoised(t.columns[colIdx])
    ensures var r := MaxLenString(t, env, types, colIdx, h);
            var ms := Measures(t, env, types, colIdx, h);
            (r.Throw? <==> exists j :: 0 <= j < |ms| && ms[j].Throw?) &&
            (r.Ok? && |ms| == 0 ==> r.value == "") &&
            (r.Ok? && |ms| > 0 ==> exists w :: 0 <= w < |ms| && WinsAt(ms, 0, -1, w, r.value))
  {
    var ms := Measures(t, env, types, colIdx, h);
    WidestFromWinner(ms, 0, "", -1);
    var r := MaxLenString(t, env, types, colIdx, h);
    if r.Ok? && |ms| > 0 {
      assert ms[0].value.1 > -1;
    }
  }

  /** A non-empty result is memoised: asking again returns it and changes nothing. */
  lemma MemoStable(t: TableState, env: Env, types: TypeRegistry.Types, colIdx: nat, h: Hooks)
    requires colIdx < |t.columns| && MasterLive(t)
    requires MaxLenString(t, env, types, colIdx, h).Ok? && MaxLenString(t, env, types, colIdx, h).value != ""
    ensures var m := MaxLenString(t, env, types, colIdx, h).value;
            var t' := AfterMaxLen(t, env, types, colIdx, m);
            colIdx < |t'.columns| && MasterLive(t') &&
            MaxLenString(t', env, types, colIdx, h) == Ok(m) && AfterMaxLen(t', env, types, colIdx, m) == t'
  {
    var f := Filled(t, env, types, |t.master|);
    forall k | 0 <= k < |f.master|
      ensures Live(f, f.master[k])
    {
      assert Live(t, t.master[k]);
    }
  }

  // ---- the method ----

  /**
   * `_fnGetMaxLenString(settings, colIdx)`. When stripping throws, the
   * display caches already filled stay filled and nothing else changes.
   */
  method GetMaxLenString(s: Settings, env: Env, types: TypeRegistry.Types, colIdx: nat, h: Hooks)
    returns (r: Result<string>)
    requires colIdx < |s.aoColumns| && MasterLive(s.Contents())
    modifies s
    ensures r == MaxLenString(old(s.Contents()), env, types, colIdx, h)
    ensures r.Ok? ==> s.Contents() == AfterMaxLen(old(s.Contents()), env, types, colIdx, r.value)
    ensures r.Throw? ==> s.Contents() == old(s.Contents()).(data := s.aoData)
  {
    var column := s.aoColumns[colIdx];
    if column.maxLenString.Some? && column.maxLenString.value != "" {
      return Ok(column.maxLenString.value);
    }
    ghost var t := s.Contents();
    ghost var ms := Measures(t, env, types, colIdx, h);
    MeasuresAt(t, env, types, colIdx, h);
    ghost var filled;
    r, filled := MeasureAll(s, env, types, colIdx, h, t, ms);
    if r.Throw? {
      return;
    }
    ghost var f := s.Contents();
    assert f.columns == t.columns;
    s.aoColumns := s.aoColumns[colIdx := s.aoColumns[colIdx].(maxLenString := Some(r.value))];
    assert s.Contents() == f.(columns := f.columns[colIdx := f.columns[colIdx].(maxLenString := Some(r.value))]);
  }

  /**
   * The loop over the master rows: the widest text, with the display caches
   * of the first `filled` master rows filled (all of them on success).
   */
  method MeasureAll(s: Settings, env: Env, types: TypeRegistry.Types, colIdx: nat, h: Hooks,
                    ghost t: TableState, ghost ms: seq<Result<(string, nat)>>)
    returns (r: Result<string>, ghost filled: nat)
    requires MasterLive(t) && s.Contents() == t && MeasuredBy(ms, t, env, types, colIdx, h)
    modifies s
    ensures r == WidestFrom(ms, 0, "", -1)
    ensures filled <= |t.master| && s.Contents() == Filled(t, env, types, filled)
    ensures r.Ok? ==> filled == |t.master|
  {
    var max := "";
    var maxLen: int := -1;
    var n := |s.aiDisplayMaster|;
    var i := 0;
    while i < n
      invariant n == |t.master| && 0 <= i <= n && s.aiDisplayMaster == t.master
      invariant s.Contents() == Filled(t, env, types, i)
      invariant WidestFrom(ms, 0, "", -1) == WidestFrom(ms, i, max, maxLen)
    {
      var m, max', maxLen' := MeasureStep(s, env, types, colIdx, h, t, ms, i, max, maxLen);
      if m.Throw? {
        return Throw(m.message), i + 1;
      }
      max, maxLen := max', maxLen';
      i := i + 1;
    }
    return Ok(max), i;
  }

  /** One measurement of the loop: a throw ends it, a strictly longer text becomes the maximum. */
  lemma WidestStep(ms: seq<Result<(string, nat)>>, i: nat, max: string, maxLen: int, m: Result<(string, nat)>)
    requires i < |ms| && ms[i] == m
    ensures m.Throw? ==> WidestFrom(ms, i, max, maxLen) == Throw(m.message)
    ensures m.Ok? && m.value.1 > maxLen ==> WidestFrom(ms, i, max, maxLen) == WidestFrom(ms, i + 1, m.value.0, m.value.1)
    ensures m.Ok? && m.value.1 <= maxLen ==> WidestFrom(ms, i, max, maxLen) == WidestFrom(ms, i + 1, max, maxLen)
  {
  }

  /** One pass of the loop, with the maximum it leaves. */
  method MeasureStep(s: Settings, env: Env, types: TypeRegistry.Types, colIdx: nat, h: Hooks, ghost t: TableState,
                     ghost ms: seq<Result<(string, nat)>>, i: nat, max: string, maxLen: int)
    returns (m: Result<(string, nat)>, max': string, maxLen': int)
    requires MasterLive(t) && i < |t.master| && s.aiDisplayMaster == t.master
    requires MeasuredBy(ms, t, env, types, colIdx, h)
    requires s.Contents() == Filled(t, env, types, i)
    modifies s
    ensures s.Contents() == Filled(t, env, types, i + 1) && s.aiDisplayMaster == t.master
    ensures m.Throw? ==> WidestFrom(ms, i, max, maxLen) == Throw(m.message)
    ensures m.Ok? ==> WidestFrom(ms, i, max, maxLen) == WidestFrom(ms, i + 1, max', maxLen')
  {
    m := MeasureRow(s, env, types, colIdx, h, t, i);
    WidestStep(ms, i, max, maxLen, m);
    max', maxLen' := max, maxLen;
    if m.Ok? && m.value.1 > maxLen {
      max', maxLen' := m.value.0, m.value.1;
    }
  }

  /** One pass of the loop: render master row `i` and measure the column's cell. */
  method MeasureRow(s: Settings, env: Env, types: TypeRegistry.Types, colIdx: nat, h: Hooks, ghost t: TableState, i: nat)
    returns (m: Result<(string, nat)>)
    requires MasterLive(t) && i < |t.master| && s.aiDisplayMaster == t.master
    requires s.Contents() == Filled(t, env, types, i)
    modifies s
    ensures m == MeasureAt(t, env, types, colIdx, h, i)
    ensures s.Contents() == Filled(t, env, types, i + 1) && s.aiDisplayMaster == t.master
  {
    var rowIdx := s.aiDisplayMaster[i];
    FilledDisplay(t, env, types, i, rowIdx);
    var disp := Data.GetRowDisplay(s, env, types, rowIdx);
    var data := if colIdx < |disp| then disp[colIdx] else Undefined;
    var cellString := h.removeAttrs(CellString(data, env));
    var stripped := Text.StripHtml(Str(cellString), h.removeTags);
    if stripped.Throw? {
      return Throw(stripped.message);
    }
    m := Ok((cellString, |ReplaceNbsp(Text.ToJsString(stripped.value))|));
  }
}
