/**
 * Column bookkeeping of `src/core/core.columns.js`: appending a column, the
 * mapping between visible positions and data indices, resolving the targets
 * of `columnDefs`, and summing declared widths.
 */
module Columns {
  import opened Wrappers
  import opened JsValue
  import opened Table
  import Internal

  // ---- _fnAddColumn ----

  /**
   * What a new column is built from: the column model merged with the
   * user's column defaults (`template`), and the defaults' own `aDataSort`
   * (`None` when falsy) and `mData`.
   */
  datatype ColumnDefaults = ColumnDefaults(template: Column, aDataSort: Option<seq<nat>>, mData: Value)

  /** The column `_fnAddColumn` appends when `iCol` columns exist already. */
  function NewColumn(d: ColumnDefaults, iCol: nat): Column {
    d.template.(idx := iCol,
                aDataSort := if d.aDataSort.Some? then d.aDataSort.value else [iCol],
                mData := if Truthy(d.mData) then d.mData else Num(iCol))
  }

  method AddColumn(s: Settings, d: ColumnDefaults)
    modifies s
    ensures s.Contents() == old(s.Contents()).(columns := old(s.aoColumns) + [NewColumn(d, |old(s.aoColumns)|)])
  {
    var iCol := |s.aoColumns|;
    s.aoColumns := s.aoColumns + [NewColumn(d, iCol)];
  }

  /**
   * Without user defaults a new column reads its own data index and sorts by
   * itself, so appending keeps the column invariant.
   */
  lemma AddColumnWf(cols: seq<Column>, d: ColumnDefaults)
    requires ColumnsWf(cols)
    ensures var c := NewColumn(d, |cols|);
            ColumnsWf(cols + [c]) && c.idx == |cols| &&
            (d.aDataSort.None? ==> c.aDataSort == [|cols|]) &&
            (!Truthy(d.mData) ==> c.mData == Num(|cols|))
  {
    var r := cols + [NewColumn(d, |cols|)];
    forall c | 0 <= c < |r|
      ensures r[c].idx == c
    {
      if c < |cols| { assert r[c] == cols[c]; }
    }
  }

  // ---- _fnGetColumns ----

  /** The indices of the columns satisfying `p`, in column order. */
  function Matching(cols: seq<Column>, p: Column -> bool): (r: seq<nat>)
    ensures forall k :: 0 <= k < |r| ==> r[k] < |cols| && p(cols[r[k]])
    ensures forall c :: 0 <= c < |cols| && p(cols[c]) ==> c in r
    ensures forall a, b :: 0 <= a < b < |r| ==> r[a] < r[b]
    decreases |cols|
  {
    if |cols| == 0 then []
    else
      var init := cols[..|cols| - 1];
      var before := Matching(init, p);
      assert forall k :: 0 <= k < |before| ==> cols[before[k]] == init[before[k]];
      assert forall c :: 0 <= c < |init| ==> cols[c] == init[c];
      before + (if p(cols[|cols| - 1]) then [|cols| - 1] else [])
  }

  /** `_fnGetColumns(settings, sParam)`, with the property test as `p`. */
  method GetColumns(s: Settings, p: Column -> bool) returns (a: seq<nat>)
    ensures a == Matching(s.aoColumns, p)
  {
    a := [];
    var i := 0;
    while i < |s.aoColumns|
      invariant 0 <= i <= |s.aoColumns|
      invariant a == Matching(s.aoColumns[..i], p)
    {
      assert s.aoColumns[..i + 1][..i] == s.aoColumns[..i];
      if p(s.aoColumns[i]) {
        a := a + [i];
      }
      i := i + 1;
    }
    assert s.aoColumns[..i] == s.aoColumns;
  }

  // ---- visible position <-> data index ----

  predicate Visible(c: Column) {
    c.bVisible
  }

  /** `_fnVisibleToColumnIndex`: the data index of the `iMatch`-th visible column, `None` for `null`. */
  function VisibleToColumnIndex(cols: seq<Column>, iMatch: int): (r: Option<nat>)
    ensures r.Some? ==> r.value < |cols| && cols[r.value].bVisible
    ensures r.Some? <==> 0 <= iMatch < |Matching(cols, Visible)|
  {
    var vis := Matching(cols, Visible);
    if 0 <= iMatch < |vis| then Some(vis[iMatch]) else None
  }

  /** `_fnColumnIndexToVisible`: the position of a data index among the visible columns. */
  function ColumnIndexToVisible(cols: seq<Column>, iMatch: int): (r: Option<nat>)
    ensures r.Some? <==> 0 <= iMatch < |cols| && cols[iMatch].bVisible
  {
    var pos := Internal.IndexOf(Matching(cols, Visible), iMatch);
    if pos >= 0 then Some(pos) else None
  }

  /** A visible position survives the trip to a data index and back. */
  lemma VisibleRoundTrip(cols: seq<Column>, v: int)
    requires VisibleToColumnIndex(cols, v).Some?
    ensures ColumnIndexToVisible(cols, VisibleToColumnIndex(cols, v).value) == Some(v)
  {
    var vis := Matching(cols, Visible);
    var pos := Internal.IndexOf(vis, vis[v]);
    assert vis[pos] == vis[v];
  }

  /** A visible column's data index survives the trip to a visible position and back. */
  lemma ColumnRoundTrip(cols: seq<Column>, c: nat)
    requires c < |cols| && cols[c].bVisible
    ensures VisibleToColumnIndex(cols, ColumnIndexToVisible(cols, c).value) == Some(c)
  {
  }

  // ---- _fnApplyColumnDefs ----

  /** Which definition a callback invocation passes: `aoColumnDefs[i]` or `aoColumns[i]`. */
  datatype DefRef = ColDef(i: nat) | StaticCol(i: nat)

  /** One invocation `fn(column, definition)` of the caller's callback. */
  datatype Call = Call(col: int, def: DefRef)

  /** `s.indexOf(sub, from)` on strings, -1 when absent. */
  function Find(s: string, sub: string, from: nat): (r: int)
    ensures r == -1 || (from <= r && r + |sub| <= |s| && s[r..r + |sub|] == sub)
    decreases |s| - from
  {
    if from + |sub| > |s| then -1
    else if s[from..from + |sub|] == sub then from
    else Find(s, sub, from + 1)
  }

  /** `s.replace(sub, rep)` with a string pattern: the first occurrence only. */
  function ReplaceFirst(s: string, sub: string, rep: string): string {
    var p := Find(s, sub, 0);
    if p < 0 then s else s[..p] + rep + s[p + |sub|..]
  }

  /** `target ?? targets ?? aTargets` of a definition, wrapped into a list unless it is an array. */
  function TargetsOf(def: Value): seq<Value> {
    var t := if Prop(def, "target") != Undefined then Prop(def, "target")
             else if Prop(def, "targets") != Undefined then Prop(def, "targets")
             else Prop(def, "aTargets");
    if t.Arr? then t.items else [t]
  }

  /** The targets of each definition. */
  function DefTargets(defs: seq<Value>): (r: seq<seq<Value>>)
    ensures |r| == |defs| && forall i :: 0 <= i < |defs| ==> r[i] == TargetsOf(defs[i])
  {
    seq(|defs|, i requires 0 <= i < |defs| => TargetsOf(defs[i]))
  }

  /** The columns after `_fnAddColumn` has run until index `upTo` exists. */
  function Grow(cols: seq<Column>, d: ColumnDefaults, upTo: nat): (r: seq<Column>)
    ensures |r| == if |cols| > upTo then |cols| else upTo + 1
    ensures r[..|cols|] == cols
    ensures forall c :: |cols| <= c < |r| ==> r[c] == NewColumn(d, c)
    decreases upTo + 1 - |cols|
  {
    if |cols| > upTo then cols
    else
      var r := Grow(cols + [NewColumn(d, |cols|)], d, upTo);
      assert r[..|cols|] == r[..|cols| + 1][..|cols|];
      r
  }

  /** How a string target picks columns: every column, the columns of one `sName`, or a CSS selector. */
  datatype TargetKind = AllColumns | ByName(name: Value) | BySelector

  /** `_all`, then a target containing `:name` (the name is the target with its first `:name` removed), else a selector. */
  function KindOf(target: string): TargetKind {
    if target == "_all" then AllColumns
    else if Find(target, ":name", 0) >= 0 then ByName(Str(ReplaceFirst(target, ":name", "")))
    else BySelector
  }

  /**
   * The calls a string target makes from column `k` on: one per column for
   * `_all`, the columns with that `sName` for `x:name`, and otherwise one call
   * per header row whose cell matches the selector (`hits`, a DOM query).
   */
  function StringCalls(cols: seq<Column>, kind: TargetKind, target: string, d: DefRef, hits: (string, nat) -> nat,
                       k: nat): seq<Call>
    requires k <= |cols|
    decreases |cols| - k
  {
    if k == |cols| then []
    else CallsAt(cols, kind, target, d, hits, k) + StringCalls(cols, kind, target, d, hits, k + 1)
  }

  /** The calls a string target makes for column `k`. */
  function CallsAt(cols: seq<Column>, kind: TargetKind, target: string, d: DefRef, hits: (string, nat) -> nat,
                   k: nat): seq<Call>
    requires k < |cols|
  {
    match kind
    case AllColumns => [Call(k, d)]
    case ByName(x) => if cols[k].sName == x then [Call(k, d)] else []
    case BySelector => seq(hits(target, k), _ => Call(k, d))
  }

  /** A string target only calls back with its own definition, and only for existing columns. */
  lemma {:induction false} StringCallsOwn(cols: seq<Column>, kind: TargetKind, target: string, d: DefRef,
                                          hits: (string, nat) -> nat, k: nat)
    requires k <= |cols|
    ensures forall x :: x in StringCalls(cols, kind, target, d, hits, k) ==> x.def == d && k <= x.col < |cols|
    decreases |cols| - k
  {
    if k < |cols| {
      StringCallsOwn(cols, kind, target, d, hits, k + 1);
      var here := CallsAt(cols, kind, target, d, hits, k);
      assert forall x :: x in here ==> x == Call(k, d);
    }
  }

  /** `_all` calls back once for every column, left to right. */
  lemma {:induction false} AllTargetsEvery(cols: seq<Column>, d: DefRef, hits: (string, nat) -> nat, k: nat)
    requires k <= |cols|
    ensures KindOf("_all") == AllColumns
    ensures var r := StringCalls(cols, AllColumns, "_all", d, hits, k);
            |r| == |cols| - k && forall j :: 0 <= j < |r| ==> r[j] == Call(k + j, d)
    decreases |cols| - k
  {
    if k < |cols| {
      AllTargetsEvery(cols, d, hits, k + 1);
    }
  }

  /** An `x:name` target calls back exactly for the columns whose `sName` is `x`. */
  lemma NameTargetsMatch(cols: seq<Column>, target: string, d: DefRef, hits: (string, nat) -> nat, k: nat, c: int)
    requires k <= |cols| && target != "_all" && Find(target, ":name", 0) >= 0
    ensures Call(c, d) in StringCalls(cols, KindOf(target), target, d, hits, k) <==>
            k <= c < |cols| && cols[c].sName == Str(ReplaceFirst(target, ":name", ""))
  {
    var x := Str(ReplaceFirst(target, ":name", ""));
    assert KindOf(target) == ByName(x);
    NameCallsMatch(cols, x, target, d, hits, k, c);
  }

  lemma {:induction false} NameCallsMatch(cols: seq<Column>, x: Value, target: string, d: DefRef, hits: (string, nat) -> nat,
                                          k: nat, c: int)
    requires k <= |cols|
    ensures Call(c, d) in StringCalls(cols, ByName(x), target, d, hits, k) <==> k <= c < |cols| && cols[c].sName == x
    decreases |cols| - k
  {
    if k < |cols| {
      NameCallsMatch(cols, x, target, d, hits, k + 1, c);
      assert StringCalls(cols, ByName(x), target, d, hits, k)
             == CallsAt(cols, ByName(x), target, d, hits, k) + StringCalls(cols, ByName(x), target, d, hits, k + 1);
    }
  }

  /** The effect of one target: the columns afterwards and the calls made. */
  function TargetStep(cols: seq<Column>, dflt: ColumnDefaults, target: Value, d: DefRef,
                      hits: (string, nat) -> nat): (seq<Column>, seq<Call>)
  {
    match target
    case Num(n) => if n >= 0 then (Grow(cols, dflt, n), [Call(n, d)]) else (cols, [Call(|cols| + n, d)])
    case Str(t) => (cols, StringCalls(cols, KindOf(t), t, d, hits, 0))
    case _ => (cols, [])
  }

  /**
   * A non-negative index adds the missing columns up to it and calls back once
   * with it; a negative one counts from the right and adds nothing; a string
   * adds nothing; any other target does nothing.
   */
  lemma TargetStepEffect(cols: seq<Column>, dflt: ColumnDefaults, target: Value, d: DefRef,
                         hits: (string, nat) -> nat)
    ensures var r := TargetStep(cols, dflt, target, d, hits);
            && (target.Num? && target.n >= 0 ==>
                  |r.0| == (if |cols| > target.n then |cols| else target.n + 1) && r.1 == [Call(target.n, d)])
            && (target.Num? && target.n < 0 ==> r == (cols, [Call(|cols| + target.n, d)]))
            && (!target.Num? ==> r.0 == cols)
            && (!target.Num? && !target.Str? ==> r.1 == [])
            && |r.0| >= |cols| && r.0[..|cols|] == cols
            && (forall x :: x in r.1 ==> x.def == d)
  {
    if target.Str? {
      StringCallsOwn(cols, KindOf(target.s), target.s, d, hits, 0);
    }
  }

  /** The effect of targets `j..` of one definition. */
  function TargetsFrom(cols: seq<Column>, dflt: ColumnDefaults, targets: seq<Value>, d: DefRef,
                       hits: (string, nat) -> nat, j: nat): (seq<Column>, seq<Call>)
    requires j <= |targets|
    decreases |targets| - j
  {
    if j == |targets| then (cols, [])
    else
      var s1 := TargetStep(cols, dflt, targets[j], d, hits);
      var s2 := TargetsFrom(s1.0, dflt, targets, d, hits, j + 1);
      (s2.0, s1.1 + s2.1)
  }

  /** A definition's targets only append columns, and only call back with that definition. */
  lemma {:induction false} TargetsFromGrows(cols: seq<Column>, dflt: ColumnDefaults, targets: seq<Value>, d: DefRef,
                                            hits: (string, nat) -> nat, j: nat)
    requires j <= |targets|
    ensures var r := TargetsFrom(cols, dflt, targets, d, hits, j);
            |r.0| >= |cols| && r.0[..|cols|] == cols && forall x :: x in r.1 ==> x.def == d
    decreases |targets| - j
  {
    if j < |targets| {
      var s1 := TargetStep(cols, dflt, targets[j], d, hits);
      TargetStepEffect(cols, dflt, targets[j], d, hits);
      TargetsFromGrows(s1.0, dflt, targets, d, hits, j + 1);
      var s2 := TargetsFrom(s1.0, dflt, targets, d, hits, j + 1);
      assert s2.0[..|cols|] == s2.0[..|s1.0|][..|cols|];
    }
  }

  /** The effect of definitions `i-1` down to `0`, given their targets: the walk runs last to first. */
  function DefsFrom(cols: seq<Column>, dflt: ColumnDefaults, tgts: seq<seq<Value>>, hits: (string, nat) -> nat,
                    i: nat): (r: (seq<Column>, seq<Call>))
    requires i <= |tgts|
    decreases i
  {
    if i == 0 then (cols, [])
    else
      var s1 := TargetsFrom(cols, dflt, tgts[i - 1], ColDef(i - 1), hits, 0);
      var s2 := DefsFrom(s1.0, dflt, tgts, hits, i - 1);
      (s2.0, s1.1 + s2.1)
  }

  /** Whether `aoColumns[i]` gives its column a name (`aoCols[i] && aoCols[i].name`). */
  predicate Names(aoCols: seq<Value>, i: nat) {
    i < |aoCols| && Truthy(aoCols[i]) && Truthy(Prop(aoCols[i], "name"))
  }

  /** The columns after the `name` options of the static columns array are copied into `sName`. */
  function Named(cols: seq<Column>, aoCols: seq<Value>): (r: seq<Column>)
    ensures |r| == |cols|
  {
    seq(|cols|, i requires 0 <= i < |cols| =>
      if Names(aoCols, i) then cols[i].(sName := Prop(aoCols[i], "name")) else cols[i])
  }

  /** The calls for the static columns array, made last and in order. */
  function StaticCalls(n: nat): (r: seq<Call>)
    ensures |r| == n && forall i :: 0 <= i < n ==> r[i] == Call(i, StaticCol(i))
  {
    seq(n, i requires 0 <= i => Call(i, StaticCol(i)))
  }

  /** `_fnApplyColumnDefs(settings, aoColDefs, aoCols, headerLayout, fn)`: the final columns and the calls to `fn`. */
  function ColumnDefs(cols: seq<Column>, dflt: ColumnDefaults, defs: seq<Value>, aoCols: seq<Value>,
                      hits: (string, nat) -> nat): (seq<Column>, seq<Call>)
  {
    var r := DefsFrom(Named(cols, aoCols), dflt, DefTargets(defs), hits, |defs|);
    (r.0, r.1 + StaticCalls(|aoCols|))
  }

  /** `x` is called back no later than `y`: definitions last to first, then static columns in order. */
  predicate Precedes(x: DefRef, y: DefRef) {
    match (x, y)
    case (ColDef(a), ColDef(b)) => a >= b
    case (ColDef(_), StaticCol(_)) => true
    case (StaticCol(_), ColDef(_)) => false
    case (StaticCol(a), StaticCol(b)) => a <= b
  }

  predicate InCallOrder(calls: seq<Call>) {
    forall a, b :: 0 <= a < b < |calls| ==> Precedes(calls[a].def, calls[b].def)
  }

  /** The walk over definitions `i-1..0` calls back with those definitions only. */
  lemma {:induction false} DefsFromDefs(cols: seq<Column>, dflt: ColumnDefaults, tgts: seq<seq<Value>>,
                                        hits: (string, nat) -> nat, i: nat)
    requires i <= |tgts|
    ensures forall x :: x in DefsFrom(cols, dflt, tgts, hits, i).1 ==> x.def.ColDef? && x.def.i < i
    decreases i
  {
    if i > 0 {
      var s1 := TargetsFrom(cols, dflt, tgts[i - 1], ColDef(i - 1), hits, 0);
      TargetsFromGrows(cols, dflt, tgts[i - 1], ColDef(i - 1), hits, 0);
      DefsFromDefs(s1.0, dflt, tgts, hits, i - 1);
    }
  }

  lemma {:induction false} DefsFromOrder(cols: seq<Column>, dflt: ColumnDefaults, tgts: seq<seq<Value>>,
                                         hits: (string, nat) -> nat, i: nat)
    requires i <= |tgts|
    ensures InCallOrder(DefsFrom(cols, dflt, tgts, hits, i).1)
    decreases i
  {
    if i > 0 {
      var s1 := TargetsFrom(cols, dflt, tgts[i - 1], ColDef(i - 1), hits, 0);
      var s2 := DefsFrom(s1.0, dflt, tgts, hits, i - 1);
      DefsFromStep(cols, dflt, tgts, hits, i);
      assert InCallOrder(s1.1 + s2.1) by {
        DefsFromOrder(s1.0, dflt, tgts, hits, i - 1);
        DefsFromDefs(s1.0, dflt, tgts, hits, i - 1);
        TargetsFromGrows(cols, dflt, tgts[i - 1], ColDef(i - 1), hits, 0);
        OrderAppend(s1.1, s2.1, i - 1);
      }
    }
  }

  /** The calls of one definition followed by calls of earlier definitions, in order, stay in order. */
  lemma OrderAppend(x: seq<Call>, y: seq<Call>, k: nat)
    requires forall c :: c in x ==> c.def == ColDef(k)
    requires forall c :: c in y ==> c.def.ColDef? && c.def.i < k
    requires InCallOrder(y)
    ensures InCallOrder(x + y)
  {
    var all := x + y;
    forall a, b | 0 <= a < b < |all| ensures Precedes(all[a].def, all[b].def) {
      if a < |x| {
        assert all[a] == x[a] && x[a] in x;
        if b < |x| {
          assert all[b] == x[b] && x[b] in x;
        } else {
          assert all[b] == y[b - |x|] && y[b - |x|] in y;
        }
      } else {
        assert all[a] == y[a - |x|] && all[b] == y[b - |x|];
      }
    }
  }

  /**
   * Every callback for a definition comes after those for later definitions,
   * and the static columns array is applied last, so when several definitions
   * set the same option the first definition wins and `aoColumns` wins over all.
   */
  lemma FirstDefinitionWins(cols: seq<Column>, dflt: ColumnDefaults, defs: seq<Value>, aoCols: seq<Value>,
                            hits: (string, nat) -> nat)
    ensures InCallOrder(ColumnDefs(cols, dflt, defs, aoCols, hits).1)
  {
    var r := DefsFrom(Named(cols, aoCols), dflt, DefTargets(defs), hits, |defs|);
    DefsFromOrder(Named(cols, aoCols), dflt, DefTargets(defs), hits, |defs|);
    DefsFromDefs(Named(cols, aoCols), dflt, DefTargets(defs), hits, |defs|);
    var all := r.1 + StaticCalls(|aoCols|);
    forall a, b | 0 <= a < b < |all| ensures Precedes(all[a].def, all[b].def) {
      if b < |r.1| {
        assert all[a] == r.1[a] && all[b] == r.1[b];
      } else if a < |r.1| {
        assert all[a] in r.1;
      }
    }
  }

  /** Column definitions only ever append columns: existing ones keep their place. */
  lemma {:induction false} DefsOnlyAppend(cols: seq<Column>, dflt: ColumnDefaults, tgts: seq<seq<Value>>,
                                          hits: (string, nat) -> nat, i: nat)
    requires i <= |tgts|
    ensures var r := DefsFrom(cols, dflt, tgts, hits, i).0;
            |r| >= |cols| && r[..|cols|] == cols
    decreases i
  {
    if i > 0 {
      var s1 := TargetsFrom(cols, dflt, tgts[i - 1], ColDef(i - 1), hits, 0);
      TargetsFromGrows(cols, dflt, tgts[i - 1], ColDef(i - 1), hits, 0);
      DefsOnlyAppend(s1.0, dflt, tgts, hits, i - 1);
      var r := DefsFrom(s1.0, dflt, tgts, hits, i - 1).0;
      assert r[..|cols|] == r[..|s1.0|][..|cols|];
    }
  }

  method NameColumns(s: Settings, aoCols: seq<Value>)
    requires forall i: nat :: Names(aoCols, i) ==> i < |s.aoColumns|
    modifies s
    ensures s.Contents() == old(s.Contents()).(columns := Named(old(s.aoColumns), aoCols))
  {
    var i := 0;
    while i < |aoCols|
      invariant 0 <= i <= |aoCols| && |s.aoColumns| == |old(s.aoColumns)|
      invariant forall c :: 0 <= c < |s.aoColumns| ==>
                  s.aoColumns[c] == if c < i && Names(aoCols, c) then old(s.aoColumns[c]).(sName := Prop(aoCols[c], "name"))
                                    else old(s.aoColumns[c])
      invariant s.Contents() == old(s.Contents()).(columns := s.aoColumns)
    {
      if Truthy(aoCols[i]) && Truthy(Prop(aoCols[i], "name")) {
        assert Names(aoCols, i);
        s.aoColumns := s.aoColumns[i := s.aoColumns[i].(sName := Prop(aoCols[i], "name"))];
      }
      i := i + 1;
    }
    assert s.aoColumns == Named(old(s.aoColumns), aoCols);
  }

  /** One target: add missing columns for an index past the end, then call back. */
  method ApplyTarget(s: Settings, dflt: ColumnDefaults, target: Value, d: DefRef, hits: (string, nat) -> nat)
    returns (calls: seq<Call>)
    modifies s
    ensures (s.aoColumns, calls) == TargetStep(old(s.aoColumns), dflt, target, d, hits)
    ensures s.Contents() == old(s.Contents()).(columns := s.aoColumns)
  {
    calls := [];
    if target.Num? && target.n >= 0 {
      while |s.aoColumns| <= target.n
        invariant Grow(s.aoColumns, dflt, target.n) == Grow(old(s.aoColumns), dflt, target.n)
        invariant s.Contents() == old(s.Contents()).(columns := s.aoColumns)
        decreases target.n + 1 - |s.aoColumns|
      {
        AddColumn(s, dflt);
      }
      calls := [Call(target.n, d)];
    } else if target.Num? {
      calls := [Call(|s.aoColumns| + target.n, d)];
    } else if target.Str? {
      var kind := KindOf(target.s);
      var k := |s.aoColumns|;
      while k > 0
        invariant 0 <= k <= |s.aoColumns|
        invariant calls == StringCalls(s.aoColumns, kind, target.s, d, hits, k)
      {
        k := k - 1;
        var here := match kind
                    case AllColumns => [Call(k, d)]
                    case ByName(x) => if s.aoColumns[k].sName == x then [Call(k, d)] else []
                    case BySelector => seq(hits(target.s, k), _ => Call(k, d));
        calls := here + calls;
      }
    }
  }

  method ApplyTargets(s: Settings, dflt: ColumnDefaults, targets: seq<Value>, d: DefRef, hits: (string, nat) -> nat)
    returns (calls: seq<Call>)
    modifies s
    ensures (s.aoColumns, calls) == TargetsFrom(old(s.aoColumns), dflt, targets, d, hits, 0)
    ensures s.Contents() == old(s.Contents()).(columns := s.aoColumns)
  {
    calls := [];
    var j := 0;
    ghost var fin := TargetsFrom(s.aoColumns, dflt, targets, d, hits, 0);
    while j < |targets|
      invariant 0 <= j <= |targets|
      invariant var now := TargetsFrom(s.aoColumns, dflt, targets, d, hits, j); now.0 == fin.0 && calls + now.1 == fin.1
      invariant s.Contents() == old(s.Contents()).(columns := s.aoColumns)
    {
      ghost var now := TargetsFrom(s.aoColumns, dflt, targets, d, hits, j);
      var more := ApplyTarget(s, dflt, targets[j], d, hits);
      WalkStep(fin, now, TargetsFrom(s.aoColumns, dflt, targets, d, hits, j + 1), calls, more);
      calls := calls + more;
      j := j + 1;
    }
    assert calls + [] == calls;
  }

  /** One step of the walk: definition `i-1` is applied, then the rest. */
  lemma DefsFromStep(cols: seq<Column>, dflt: ColumnDefaults, tgts: seq<seq<Value>>, hits: (string, nat) -> nat, i: nat)
    requires 0 < i <= |tgts|
    ensures var step := TargetsFrom(cols, dflt, tgts[i - 1], ColDef(i - 1), hits, 0);
            var rest := DefsFrom(step.0, dflt, tgts, hits, i - 1);
            DefsFrom(cols, dflt, tgts, hits, i) == (rest.0, step.1 + rest.1)
  {
  }

  /** One definition of the walk: its targets are applied, and the calls they make returned. */
  method ApplyDef(s: Settings, dflt: ColumnDefaults, tgts: seq<seq<Value>>, hits: (string, nat) -> nat, i: nat)
    returns (more: seq<Call>)
    requires 0 < i <= |tgts|
    modifies s
    ensures var rest := DefsFrom(s.aoColumns, dflt, tgts, hits, i - 1);
            DefsFrom(old(s.aoColumns), dflt, tgts, hits, i) == (rest.0, more + rest.1)
    ensures s.Contents() == old(s.Contents()).(columns := s.aoColumns)
  {
    DefsFromStep(s.aoColumns, dflt, tgts, hits, i);
    more := ApplyTargets(s, dflt, tgts[i - 1], ColDef(i - 1), hits);
  }

  /** The walk over the definitions, last to first; each definition's targets are read as it is reached. */
  method ApplyDefs(s: Settings, dflt: ColumnDefaults, defs: seq<Value>, hits: (string, nat) -> nat)
    returns (calls: seq<Call>)
    modifies s
    ensures (s.aoColumns, calls) == DefsFrom(old(s.aoColumns), dflt, DefTargets(defs), hits, |defs|)
    ensures s.Contents() == old(s.Contents()).(columns := s.aoColumns)
  {
    calls := WalkDefs(s, dflt, DefTargets(defs), hits);
  }

  /** The loop of the walk over the targets of every definition. */
  method WalkDefs(s: Settings, dflt: ColumnDefaults, tgts: seq<seq<Value>>, hits: (string, nat) -> nat)
    returns (calls: seq<Call>)
    modifies s
    ensures (s.aoColumns, calls) == DefsFrom(old(s.aoColumns), dflt, tgts, hits, |tgts|)
    ensures s.Contents() == old(s.Contents()).(columns := s.aoColumns)
  {
    calls := [];
    var i := |tgts|;
    ghost var fin := DefsFrom(s.aoColumns, dflt, tgts, hits, |tgts|);
    while i > 0
      invariant 0 <= i <= |tgts|
      invariant var now := DefsFrom(s.aoColumns, dflt, tgts, hits, i); now.0 == fin.0 && calls + now.1 == fin.1
      invariant s.Contents() == old(s.Contents()).(columns := s.aoColumns)
    {
      ghost var now := DefsFrom(s.aoColumns, dflt, tgts, hits, i);
      var more := ApplyDef(s, dflt, tgts, hits, i);
      WalkStep(fin, now, DefsFrom(s.aoColumns, dflt, tgts, hits, i - 1), calls, more);
      calls := calls + more;
      i := i - 1;
    }
    assert calls + [] == calls;
  }

  /** The bookkeeping of one step of a walk that returns a final state and the calls made. */
  lemma WalkStep<C, K>(fin: (C, seq<K>), now: (C, seq<K>), rest: (C, seq<K>), calls: seq<K>, more: seq<K>)
    requires now.0 == fin.0 && calls + now.1 == fin.1
    requires now == (rest.0, more + rest.1)
    ensures rest.0 == fin.0 && (calls + more) + rest.1 == fin.1
  {
    assert calls + more + rest.1 == calls + (more + rest.1);
  }

  /**
   * `_fnApplyColumnDefs`: returns the callback invocations in the order they
   * are made; `hits(selector, k)` is the number of header rows whose cell
   * for column `k` matches a CSS selector target.
   */
  method ApplyColumnDefs(s: Settings, dflt: ColumnDefaults, defs: seq<Value>, aoCols: seq<Value>,
                         hits: (string, nat) -> nat) returns (calls: seq<Call>)
    requires forall i: nat :: Names(aoCols, i) ==> i < |s.aoColumns|
    modifies s
    ensures (s.aoColumns, calls) == ColumnDefs(old(s.aoColumns), dflt, defs, aoCols, hits)
    ensures s.Contents() == old(s.Contents()).(columns := s.aoColumns)
  {
    NameColumns(s, aoCols);
    calls := ApplyDefs(s, dflt, defs, hits);
    var j := 0;
    while j < |aoCols|
      invariant 0 <= j <= |aoCols|
      invariant calls == DefsFrom(Named(old(s.aoColumns), aoCols), dflt, DefTargets(defs), hits, |defs|).1 + StaticCalls(j)
    {
      calls := calls + [Call(j, StaticCol(j))];
      j := j + 1;
    }
  }

  // ---- _fnColumnsSumWidth ----

  /** `null`, or a total and its unit (`undefined` while no counted column had a width). */
  datatype WidthSum = NoWidth | Width(total: int, unit: Value)

  /** A unit the loop can hold: `undefined` until a counted column had a width, then a string. */
  predicate UnitShape(u: Value) {
    u == Undefined || u.Str?
  }

  /** What `_fnColumnsSumWidth` returns: `null`, `NaN` (a number plus `undefined`) or a CSS string. */
  datatype CssSum = NullSum | NaNSum | CssText(css: string)

  /** `sum + unit`: numeric addition gives `NaN` while the unit is `undefined`; a string unit concatenates. */
  function WidthText(w: WidthSum): (r: CssSum)
    requires w.Width? ==> UnitShape(w.unit)
    ensures r.NullSum? <==> w.NoWidth?
    ensures r.NaNSum? <==> w.Width? && w.unit == Undefined
    ensures r.CssText? ==> IntToString(w.total) <= r.css && |r.css| == |IntToString(w.total)| + |w.unit.s|
  {
    match w
    case NoWidth => NullSum
    case Width(t, u) => if u == Undefined then NaNSum else CssText(IntToString(t) + u.s)
  }

  /** `_fnColumnsSumWidth(settings, targets, original, incVisible)`'s return value, as written. */
  function SumWidthValue(cols: seq<Column>, targets: seq<nat>, original: bool, incVisible: bool): Result<CssSum> {
    StepsUnit(cols, targets, original, incVisible, "");
    SumUnitShape(Steps(cols, targets, original, incVisible, ""), 0, 0, Undefined);
    match SumWidth(cols, targets, original, incVisible)
    case Ok(w) => Ok(WidthText(w))
    case Throw(m) => Throw(m)
  }

  predicate NumChar(c: char) {
    IsDigit(c) || c == '.'
  }

  /** The first position at or after `i` holding a digit or `.`, else `|s|`. */
  function FirstNumChar(s: string, i: nat): (r: nat)
    requires i <= |s|
    ensures i <= r <= |s|
    decreases |s| - i
  {
    if i == |s| || NumChar(s[i]) then i else FirstNumChar(s, i + 1)
  }

  /** The end of the longest run from `i` of characters satisfying `NumChar` (or, when `!numeric`, of non-digits). */
  function RunEnd(s: string, i: nat, numeric: bool): (r: nat)
    requires i <= |s|
    ensures i <= r <= |s|
    decreases |s| - i
  {
    if i == |s| || (if numeric then !NumChar(s[i]) else IsDigit(s[i])) then i else RunEnd(s, i + 1, numeric)
  }

  /** The two groups of `/([\d\.]+)([^\d]*)/` at its first match: the number and the unit. */
  function MatchWidth(s: string): (r: Option<(string, string)>) {
    var p := FirstNumChar(s, 0);
    if p == |s| then None
    else
      var e := RunEnd(s, p, true);
      var u := RunEnd(s, e, false);
      Some((s[p..e], s[e..u]))
  }

  lemma {:induction false} FirstNumCharSkips(s: string, i: nat)
    requires i <= |s|
    ensures var r := FirstNumChar(s, i);
            (r < |s| ==> NumChar(s[r])) && forall p :: i <= p < r ==> !NumChar(s[p])
    decreases |s| - i
  {
    if i < |s| && !NumChar(s[i]) {
      FirstNumCharSkips(s, i + 1);
    }
  }

  lemma {:induction false} RunEndMaximal(s: string, i: nat, numeric: bool)
    requires i <= |s|
    ensures var r := RunEnd(s, i, numeric);
            (r < |s| ==> (if numeric then !NumChar(s[r]) else IsDigit(s[r]))) &&
            forall p :: i <= p < r ==> if numeric then NumChar(s[p]) else !IsDigit(s[p])
    decreases |s| - i
  {
    if i < |s| && !(if numeric then !NumChar(s[i]) else IsDigit(s[i])) {
      RunEndMaximal(s, i + 1, numeric);
    }
  }

  /**
   * The match is the regular expression's: no match exactly when the string
   * has no digit and no `.`; otherwise a non-empty run of digits and dots,
   * then the non-digits that follow it.
   */
  lemma MatchWidthShape(s: string)
    ensures MatchWidth(s).None? <==> forall c :: c in s ==> !NumChar(c)
    ensures match MatchWidth(s)
            case Some((number, unit)) =>
              |number| > 0 && (forall c :: c in number ==> NumChar(c)) && (forall c :: c in unit ==> !IsDigit(c))
            case None => true
  {
    var p := FirstNumChar(s, 0);
    FirstNumCharSkips(s, 0);
    if p == |s| {
      forall c | c in s ensures !NumChar(c) {
        var q :| 0 <= q < |s| && s[q] == c;
      }
    } else {
      var e := RunEnd(s, p, true);
      RunEndMaximal(s, p, true);
      RunEndMaximal(s, e, false);
      assert s[p] in s;
      assert e > p;
    }
  }

  /** `matched[1] * 1`, to its integer part: the digits before any `.`. */
  function IntegerPart(number: string): nat {
    DigitsValue(LeadingDigits(number))
  }

  function LeadingDigits(s: string): (r: string)
    ensures AllDigits(r) && |r| <= |s|
    ensures AllDigits(s) ==> r == s
  {
    if |s| > 0 && IsDigit(s[0]) then [s[0]] + LeadingDigits(s[1..]) else ""
  }

  /** The width of column `c` as `_fnColumnsSumWidth` reads it. */
  function DeclaredWidth(c: Column, original: bool): Value {
    if original then c.sWidthOrig else c.sWidth
  }

  /** What one target does to the running sum: skip it, end the call, or add to the sum and set the unit. */
  datatype Step = Skip | Stop(result: Result<WidthSum>) | Add(amount: int, unit: Value)

  /**
   * One iteration of the loop of `_fnColumnsSumWidth`; `unitless` is the
   * unit a match with an empty second group gives (`""` as written).
   */
  function SumStep(cols: seq<Column>, t: nat, original: bool, incVisible: bool, unitless: string): (r: Step)
    ensures t < |cols| && !incVisible && !cols[t].bVisible ==> r == Skip
    ensures t < |cols| && (incVisible || cols[t].bVisible) && IsNullish(DeclaredWidth(cols[t], original)) ==> r == Stop(Ok(NoWidth))
    ensures t < |cols| && (incVisible || cols[t].bVisible) && DeclaredWidth(cols[t], original).Num? ==>
              r == Add(DeclaredWidth(cols[t], original).n, Str("px"))
  {
    if t >= |cols| then Stop(Throw("Cannot read properties of undefined"))
    else
      var column := cols[t];
      var w := DeclaredWidth(column, original);
      if !incVisible && !column.bVisible then Skip
      else if IsNullish(w) then Stop(Ok(NoWidth))
      else if w.Num? then Add(w.n, Str("px"))
      else if !w.Str? then Stop(Throw("definedWidth.match is not a function"))
      else match MatchWidth(w.s)
        case None => Skip
        case Some((number, u)) => Add(IntegerPart(number), Str(if u == "" then unitless else u))
  }

  /** What each target does, in target order. */
  function Steps(cols: seq<Column>, targets: seq<nat>, original: bool, incVisible: bool, unitless: string): (r: seq<Step>)
    ensures |r| == |targets|
  {
    seq(|targets|, j requires 0 <= j < |targets| => SumStep(cols, targets[j], original, incVisible, unitless))
  }

  /** `steps` holds what each target does; the facts are drawn out one target at a time. */
  predicate Describes(steps: seq<Step>, cols: seq<Column>, targets: seq<nat>, original: bool, incVisible: bool,
                      unitless: string) {
    |steps| == |targets| &&
    forall j {:trigger SumStep(cols, targets[j], original, incVisible, unitless)} :: 0 <= j < |targets| ==>
      steps[j] == SumStep(cols, targets[j], original, incVisible, unitless)
  }

  lemma StepsDescribe(cols: seq<Column>, targets: seq<nat>, original: bool, incVisible: bool, unitless: string)
    ensures Describes(Steps(cols, targets, original, incVisible, unitless), cols, targets, original, incVisible, unitless)
  {
  }

  /** The loop of `_fnColumnsSumWidth` from target `i` on, with the running sum and unit. */
  function SumFrom(steps: seq<Step>, i: nat, sum: int, unit: Value): Result<WidthSum>
    requires i <= |steps|
    decreases |steps| - i
  {
    if i == |steps| then Ok(Width(sum, unit))
    else match steps[i]
      case Skip => SumFrom(steps, i + 1, sum, unit)
      case Stop(r) => r
      case Add(n, u) => SumFrom(steps, i + 1, sum + n, u)
  }

  /** `_fnColumnsSumWidth(settings, targets, original, incVisible)` for an array of targets, as written. */
  function SumWidth(cols: seq<Column>, targets: seq<nat>, original: bool, incVisible: bool): Result<WidthSum> {
    SumFrom(Steps(cols, targets, original, incVisible, ""), 0, 0, Undefined)
  }

  /** The evidently intended sum: a width string with no unit counts in pixels. */
  function SumWidthCorrected(cols: seq<Column>, targets: seq<nat>, original: bool, incVisible: bool): Result<WidthSum> {
    SumFrom(Steps(cols, targets, original, incVisible, "px"), 0, 0, Undefined)
  }

  method ColumnsSumWidth(s: Settings, targets: seq<nat>, original: bool, incVisible: bool) returns (r: Result<CssSum>)
    ensures r == SumWidthValue(s.aoColumns, targets, original, incVisible)
  {
    var steps := Steps(s.aoColumns, targets, original, incVisible, "");
    StepsDescribe(s.aoColumns, targets, original, incVisible, "");
    var w := SumTargets(s.aoColumns, targets, original, incVisible, steps);
    StepsUnit(s.aoColumns, targets, original, incVisible, "");
    SumUnitShape(steps, 0, 0, Undefined);
    match w {
      case Ok(v) => r := Ok(WidthText(v));
      case Throw(m) => r := Throw(m);
    }
  }

  /** A step that adds sets a string unit, and a step that ends the call gives no width. */
  predicate StepUnit(st: Step) {
    match st
    case Skip => true
    case Stop(r) => !(r.Ok? && r.value.Width?)
    case Add(_, u) => u.Str?
  }

  lemma StepsUnit(cols: seq<Column>, targets: seq<nat>, original: bool, incVisible: bool, unitless: string)
    ensures forall j :: 0 <= j < |targets| ==> StepUnit(Steps(cols, targets, original, incVisible, unitless)[j])
  {
    var steps := Steps(cols, targets, original, incVisible, unitless);
    forall j | 0 <= j < |targets| ensures StepUnit(steps[j]) {
      assert steps[j] == SumStep(cols, targets[j], original, incVisible, unitless);
    }
  }

  /** Every step that adds sets a string unit, so the loop's unit is `undefined` or a string. */
  lemma {:induction false} SumUnitShape(steps: seq<Step>, i: nat, sum: int, unit: Value)
    requires i <= |steps|
    requires UnitShape(unit)
    requires forall j :: i <= j < |steps| ==> StepUnit(steps[j])
    ensures match SumFrom(steps, i, sum, unit) case Ok(Width(_, u)) => UnitShape(u) case _ => true
    decreases |steps| - i
  {
    if i < |steps| {
      match steps[i]
      case Skip => SumUnitShape(steps, i + 1, sum, unit);
      case Stop(_) =>
      case Add(n, u) => SumUnitShape(steps, i + 1, sum + n, u);
    }
  }

  /**
   * When no target counts (no targets, or every target hidden and hidden
   * columns not included), the loop ends with `sum = 0` and `unit` still
   * `undefined`, and `0 + undefined` is `NaN`.
   */
  lemma NothingCountedIsNaN(cols: seq<Column>, targets: seq<nat>, original: bool, incVisible: bool)
    requires forall j :: 0 <= j < |targets| ==> targets[j] < |cols| && !Counted(cols, targets[j], incVisible)
    ensures SumWidthValue(cols, targets, original, incVisible) == Ok(NaNSum)
  {
    NumericWidthsAdd(cols, targets, original, incVisible);
    NothingCountedFrom(cols, targets, original, incVisible, 0);
  }

  lemma {:induction false} NothingCountedFrom(cols: seq<Column>, targets: seq<nat>, original: bool, incVisible: bool, i: nat)
    requires forall j :: i <= j < |targets| ==> !Counted(cols, targets[j], incVisible)
    ensures !CountsFrom(cols, targets, incVisible, i) && NumericTotal(cols, targets, original, incVisible, i) == 0
    decreases |targets| - i
  {
    if i < |targets| {
      NothingCountedFrom(cols, targets, original, incVisible, i + 1);
    }
  }

  /** The loop of `_fnColumnsSumWidth`, with `steps` what its targets do. */
  method SumTargets(cols: seq<Column>, targets: seq<nat>, original: bool, incVisible: bool, ghost steps: seq<Step>)
    returns (r: Result<WidthSum>)
    requires Describes(steps, cols, targets, original, incVisible, "")
    ensures r == SumFrom(steps, 0, 0, Undefined)
  {
    var sum := 0;
    var unit := Undefined;
    var i := 0;
    while i < |targets|
      invariant 0 <= i <= |targets|
      invariant SumFrom(steps, 0, 0, Undefined) == SumFrom(steps, i, sum, unit)
    {
      var step := ReadWidth(cols, targets[i], original, incVisible);
      assert steps[i] == step;
      if step.Stop? {
        return step.result;
      } else if step.Add? {
        sum, unit := sum + step.amount, step.unit;
      }
      i := i + 1;
    }
    return Ok(Width(sum, unit));
  }

  /** The body of the loop of `_fnColumnsSumWidth` for one target. */
  method ReadWidth(cols: seq<Column>, t: nat, original: bool, incVisible: bool) returns (step: Step)
    ensures step == SumStep(cols, t, original, incVisible, "")
  {
    if t >= |cols| {
      return Stop(Throw("Cannot read properties of undefined"));
    }
    var column := cols[t];
    var definedWidth := DeclaredWidth(column, original);
    if !incVisible && !column.bVisible {
      return Skip;
    }
    if IsNullish(definedWidth) {
      return Stop(Ok(NoWidth));
    } else if definedWidth.Num? {
      return Add(definedWidth.n, Str("px"));
    } else if !definedWidth.Str? {
      return Stop(Throw("definedWidth.match is not a function"));
    }
    var matched := MatchWidth(definedWidth.s);
    if matched.Some? {
      return Add(IntegerPart(matched.value.0), Str(matched.value.1));
    }
    return Skip;
  }

  /** A column that counts towards the sum: visible, or hidden ones are included. */
  predicate Counted(cols: seq<Column>, t: nat, incVisible: bool) {
    t < |cols| && (incVisible || cols[t].bVisible)
  }

  lemma HundredMatches()
    ensures MatchWidth("100") == Some(("100", "")) && IntegerPart("100") == 100
  {
    var h := "100";
    assert IsDigit(h[0]) && IsDigit(h[1]) && IsDigit(h[2]);
    assert FirstNumChar(h, 0) == 0;
    assert RunEnd(h, 3, true) == 3 && RunEnd(h, 3, false) == 3;
    assert RunEnd(h, 2, true) == 3;
    assert RunEnd(h, 1, true) == 3;
    assert RunEnd(h, 0, true) == 3;
    assert h[0..3] == h && h[3..3] == "";
    assert AllDigits(h) && LeadingDigits(h) == h;
    assert h[..2] == "10" && "10"[..1] == "1";
    assert DigitsValue("1") == 1;
    assert DigitsValue("10") == 10;
  }

  /** As written, a numeric width string has no unit: `"100"` sums to `"100"`, not `"100px"`. */
  lemma UnitlessWidthAsWritten(c: Column)
    requires c.bVisible && c.sWidth == Str("100")
    ensures SumWidth([c], [0], false, false) == Ok(Width(100, Str("")))
    ensures WidthText(Width(100, Str(""))) == CssText("100")
    ensures SumWidthCorrected([c], [0], false, false) == Ok(Width(100, Str("px")))
  {
    var plain := Steps([c], [0], false, false, "");
    var px := Steps([c], [0], false, false, "px");
    HundredStep(c, "");
    HundredStep(c, "px");
    assert plain[0] == SumStep([c], 0, false, false, "");
    assert px[0] == SumStep([c], 0, false, false, "px");
    SingleAdd(plain, 100, Str(""));
    SingleAdd(px, 100, Str("px"));
    HundredText();
  }

  /** A visible column of width `"100"` adds 100, with the unit an empty second group gives. */
  lemma HundredStep(c: Column, unitless: string)
    requires c.bVisible && c.sWidth == Str("100")
    ensures SumStep([c], 0, false, false, unitless) == Add(100, Str(unitless))
  {
    HundredMatches();
  }

  lemma SingleAdd(steps: seq<Step>, n: int, u: Value)
    requires |steps| == 1 && steps[0] == Add(n, u)
    ensures SumFrom(steps, 0, 0, Undefined) == Ok(Width(n, u))
  {
    assert SumFrom(steps, 0, 0, Undefined) == SumFrom(steps, 1, n, u);
  }

  lemma HundredText()
    ensures IntToString(100) == "100"
  {
    assert NatToString(100) == NatToString(10) + [DigitChar(0)];
    assert NatToString(10) == NatToString(1) + [DigitChar(0)];
  }

  /** A step that keeps the unit of a sum either undefined or non-empty. */
  predicate KeepsUnit(st: Step) {
    match st
    case Skip => true
    case Stop(r) => !(r.Ok? && r.value.Width?)
    case Add(_, u) => u.Str? && u.s != ""
  }

  /** With the correction, a step that adds always sets a non-empty unit; a step that ends the call gives no width. */
  lemma CorrectedStepKeepsUnit(cols: seq<Column>, t: nat, original: bool, incVisible: bool)
    ensures KeepsUnit(SumStep(cols, t, original, incVisible, "px"))
  {
  }

  /**
   * With the correction, the unit of a result is either still `undefined`
   * (nothing counted had a width) or a non-empty string, so the CSS value is
   * never a bare number.
   */
  lemma CorrectedSumHasUnit(cols: seq<Column>, targets: seq<nat>, original: bool, incVisible: bool)
    ensures match SumWidthCorrected(cols, targets, original, incVisible)
            case Ok(Width(_, u)) => u == Undefined || (u.Str? && u.s != "")
            case _ => true
  {
    var steps := Steps(cols, targets, original, incVisible, "px");
    StepsDescribe(cols, targets, original, incVisible, "px");
    forall j | 0 <= j < |steps| ensures KeepsUnit(steps[j]) {
      CorrectedStepKeepsUnit(cols, targets[j], original, incVisible);
    }
    UnitsKept(steps, 0, 0, Undefined);
  }

  /** When every step keeps the unit, the result's unit is the initial one or non-empty. */
  lemma {:induction false} UnitsKept(steps: seq<Step>, i: nat, sum: int, unit: Value)
    requires i <= |steps|
    requires forall j :: i <= j < |steps| ==> KeepsUnit(steps[j])
    requires unit == Undefined || (unit.Str? && unit.s != "")
    ensures match SumFrom(steps, i, sum, unit)
            case Ok(Width(_, u)) => u == Undefined || (u.Str? && u.s != "")
            case _ => true
    decreases |steps| - i
  {
    if i < |steps| {
      match steps[i]
      case Skip => UnitsKept(steps, i + 1, sum, unit);
      case Stop(_) =>
      case Add(n, u) => UnitsKept(steps, i + 1, sum + n, u);
    }
  }

  /** The first target that ends the call decides the result, whatever follows it. */
  lemma {:induction false} FirstStopDecides(steps: seq<Step>, i: nat, sum: int, unit: Value, k: nat)
    requires i <= k < |steps| && steps[k].Stop?
    requires forall j :: i <= j < k ==> !steps[j].Stop?
    ensures SumFrom(steps, i, sum, unit) == steps[k].result
    decreases k - i
  {
    if i < k {
      match steps[i]
      case Skip => FirstStopDecides(steps, i + 1, sum, unit, k);
      case Add(n, u) => FirstStopDecides(steps, i + 1, sum + n, u, k);
    }
  }

  /** A counted column without a declared width makes the whole sum `null`, whatever follows. */
  lemma MissingWidthIsNull(cols: seq<Column>, targets: seq<nat>, original: bool, incVisible: bool, unitless: string, k: nat)
    requires k < |targets|
    requires forall j :: 0 <= j < k ==> !SumStep(cols, targets[j], original, incVisible, unitless).Stop?
    requires Counted(cols, targets[k], incVisible) && IsNullish(DeclaredWidth(cols[targets[k]], original))
    ensures SumFrom(Steps(cols, targets, original, incVisible, unitless), 0, 0, Undefined) == Ok(NoWidth)
  {
    var steps := Steps(cols, targets, original, incVisible, unitless);
    StepsDescribe(cols, targets, original, incVisible, unitless);
    assert steps[k] == SumStep(cols, targets[k], original, incVisible, unitless);
    FirstStopDecides(steps, 0, 0, Undefined, k);
  }

  /** Numeric widths of the counted columns add up in pixels; hidden columns are skipped unless included. */
  lemma NumericWidthsAdd(cols: seq<Column>, targets: seq<nat>, original: bool, incVisible: bool)
    requires forall j :: 0 <= j < |targets| ==>
               (targets[j] < |cols| && (Counted(cols, targets[j], incVisible) ==> DeclaredWidth(cols[targets[j]], original).Num?))
    ensures SumWidth(cols, targets, original, incVisible) ==
            Ok(Width(NumericTotal(cols, targets, original, incVisible, 0),
                     if CountsFrom(cols, targets, incVisible, 0) then Str("px") else Undefined))
  {
    StepsDescribe(cols, targets, original, incVisible, "");
    NumericWidthsFrom(cols, targets, original, incVisible, Steps(cols, targets, original, incVisible, ""), 0, 0, Undefined);
  }

  lemma {:induction false} NumericWidthsFrom(cols: seq<Column>, targets: seq<nat>, original: bool, incVisible: bool,
                                             steps: seq<Step>, i: nat, sum: int, unit: Value)
    requires i <= |targets| && Describes(steps, cols, targets, original, incVisible, "")
    requires forall j :: i <= j < |targets| ==>
               (targets[j] < |cols| && (Counted(cols, targets[j], incVisible) ==> DeclaredWidth(cols[targets[j]], original).Num?))
    ensures SumFrom(steps, i, sum, unit) ==
            Ok(Width(sum + NumericTotal(cols, targets, original, incVisible, i),
                     if CountsFrom(cols, targets, incVisible, i) then Str("px") else unit))
    decreases |targets| - i
  {
    if i < |targets| {
      var counted := Counted(cols, targets[i], incVisible);
      assert steps[i] == SumStep(cols, targets[i], original, incVisible, "");
      NumericWidthsFrom(cols, targets, original, incVisible, steps, i + 1,
                        if counted then sum + DeclaredWidth(cols[targets[i]], original).n else sum,
                        if counted then Str("px") else unit);
    }
  }

  /** Whether some target from `i` on counts. */
  predicate CountsFrom(cols: seq<Column>, targets: seq<nat>, incVisible: bool, i: nat)
    decreases |targets| - i
  {
    i < |targets| && (Counted(cols, targets[i], incVisible) || CountsFrom(cols, targets, incVisible, i + 1))
  }

  /** The sum of the numeric widths of the counted targets from `i` on. */
  function NumericTotal(cols: seq<Column>, targets: seq<nat>, original: bool, incVisible: bool, i: nat): int
    decreases |targets| - i
  {
    if i >= |targets| then 0
    else
      var w := if Counted(cols, targets[i], incVisible) then DeclaredWidth(cols[targets[i]], original) else Undefined;
      (if w.Num? then w.n else 0) + NumericTotal(cols, targets, original, incVisible, i + 1)
  }
}
