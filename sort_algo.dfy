/**
 * Sort resolution and flattening (`src/core/core.sortAlgo.js`): the fixed
 * sort, the user sort `aaSorting` and the `fixed.post` sort are resolved into
 * one list of `[column, direction]` entries, and each entry is expanded over
 * its column's `aDataSort` into the flat instructions the sort engine runs.
 */
module SortAlgo {
  import opened Wrappers
  import opened JsValue
  import opened Table
  import Internal
  import Text
  import TypeRegistry

  /**
   * One element of the `nestedSort` list. A `Pair` is `[column, direction]`
   * with its `_idx`; `origin` is the position in `aaSorting` when the entry
   * is that array itself (plain arrays are pushed by reference, so `_idx`
   * written on the entry lands in `aaSorting`). `Nullish` is a `null` or
   * `undefined` element of a 2-D list: reading its `[0]` throws.
   */
  datatype Nested = Pair(col: Value, dir: Value, idx: Option<int>, origin: Option<nat>) | Nullish

  /** What the flattening loop has produced so far: the instructions, `aaSorting`, and whether it threw. */
  datatype Flat = Flat(specs: seq<SortSpec>, sorting: seq<SortEntry>, failed: bool)

  /** `a[k]` on a value that is not a plain object. */
  function Item(a: Value, k: nat): Value {
    match a
    case Arr(items) => if k < |items| then items[k] else Undefined
    case _ => Undefined
  }

  /** `_pluck(settings.aoColumns, 'sName')`. */
  function Names(cols: seq<Column>): (r: seq<Value>)
    ensures |r| == |cols| && forall i :: 0 <= i < |cols| ==> r[i] == cols[i].sName
  {
    seq(|cols|, i requires 0 <= i < |cols| => cols[i].sName)
  }

  // ---- _fnSortResolve ----

  /** The `push` helper of `_fnSortResolve`. */
  function Push(cols: seq<Column>, a: Value): seq<Nested> {
    if a.Obj? then
      if Prop(a, "idx") != Undefined then [Pair(Prop(a, "idx"), Prop(a, "dir"), None, None)]
      else if Truthy(Prop(a, "name")) then
        var idx := Internal.IndexOf(Names(cols), Prop(a, "name"));
        if idx != -1 then [Pair(Num(idx), Prop(a, "dir"), None, None)] else []
      else []
    else if IsNullish(a) then [Nullish]
    else [Pair(Item(a, 0), Item(a, 1), None, None)]
  }

  /** `push` applied to each element of a 2-D list, in order. */
  function PushAll(cols: seq<Column>, items: seq<Value>): seq<Nested> {
    if |items| == 0 then [] else PushAll(cols, items[..|items| - 1]) + Push(cols, items[|items| - 1])
  }

  /** What `_fnSortResolve(settings, nestedSort, sort)` appends to `nestedSort`. */
  function Resolve(cols: seq<Column>, sort: Value): seq<Nested> {
    if sort.Obj? then Push(cols, sort)
    else match sort
      case Arr(items) =>
        if |items| > 0 && items[0].Num? then Push(cols, sort) else PushAll(cols, items)
      case _ => []
  }

  /** `_fnSortResolve` on `aaSorting`, a 2-D list whose entries are pushed by reference. */
  function ResolveSorting(sorting: seq<SortEntry>): (r: seq<Nested>)
    ensures |r| == |sorting|
    ensures forall z :: 0 <= z < |sorting| ==>
              r[z] == Pair(sorting[z].col, sorting[z].dir, sorting[z].idx, Some(z))
  {
    seq(|sorting|, z requires 0 <= z < |sorting| =>
      Pair(sorting[z].col, sorting[z].dir, sorting[z].idx, Some(z)))
  }

  /** `_fnSortResolve(settings, nestedSort, sort)`: appends the resolved entries of `sort`. */
  method SortResolve(cols: seq<Column>, nested: seq<Nested>, sort: Value) returns (r: seq<Nested>)
    ensures r == nested + Resolve(cols, sort)
  {
    r := nested;
    if sort.Obj? {
      r := r + Push(cols, sort);
    } else if sort.Arr? && |sort.items| > 0 && sort.items[0].Num? {
      r := r + Push(cols, sort);
    } else if sort.Arr? {
      var items := sort.items;
      for z := 0 to |items|
        invariant r == nested + PushAll(cols, items[..z])
      {
        assert items[..z + 1][..z] == items[..z];
        r := r + Push(cols, items[z]);
      }
      assert items[..|items|] == items;
    }
  }

  /** An object is resolved by its `idx` when that is defined, whatever its `name`. */
  lemma ResolveIdxObject(cols: seq<Column>, a: Value)
    requires a.Obj? && Prop(a, "idx") != Undefined
    ensures Resolve(cols, a) == [Pair(Prop(a, "idx"), Prop(a, "dir"), None, None)]
  {
  }

  /**
   * An object without `idx` but with a `name` resolves to the first column of
   * that `sName`, and to nothing when no column has it.
   */
  lemma ResolveByName(cols: seq<Column>, a: Value)
    requires a.Obj? && Prop(a, "idx") == Undefined && Truthy(Prop(a, "name"))
    ensures (forall c :: 0 <= c < |cols| ==> cols[c].sName != Prop(a, "name")) ==> Resolve(cols, a) == []
    ensures forall c :: 0 <= c < |cols| && cols[c].sName == Prop(a, "name") &&
                        (forall c' :: 0 <= c' < c ==> cols[c'].sName != Prop(a, "name")) ==>
              Resolve(cols, a) == [Pair(Num(c), Prop(a, "dir"), None, None)]
  {
    var names := Names(cols);
    var k := Internal.IndexOf(names, Prop(a, "name"));
    if k == -1 {
      forall c | 0 <= c < |cols| ensures cols[c].sName != Prop(a, "name") {
        assert names[c] == cols[c].sName;
      }
    }
  }

  /** A 2-D list resolves element by element, in order; an empty list adds nothing. */
  lemma {:induction false} ResolveTwoD(cols: seq<Column>, items: seq<Value>, x: Value)
    requires x.Arr? || x.Obj? || !IsNullish(x)
    ensures Resolve(cols, Arr([])) == []
    ensures (|items| > 0 && !items[0].Num?) ==>
              Resolve(cols, Arr(items + [x])) == Resolve(cols, Arr(items)) + Push(cols, x)
  {
    assert (items + [x])[..|items|] == items;
  }

  /** A 1-D `[column, direction]` list is one entry. */
  lemma ResolveOneD(cols: seq<Column>, n: int, dir: Value, more: seq<Value>)
    ensures Resolve(cols, Arr([Num(n), dir] + more)) == [Pair(Num(n), dir, None, None)]
  {
  }

  // ---- _fnSortFlatten ----

  /** `s` is how JavaScript prints array index `s` (no sign, no leading zero). */
  predicate CanonicalIndex(s: string) {
    |s| > 0 && AllDigits(s) && NatToString(DigitsValue(s)) == s
  }

  /** `aoColumns[v]` when it is a column: a number in range, or a key that prints as one. */
  function ColumnAt(cols: seq<Column>, v: Value): (r: Option<nat>)
    ensures r.Some? ==> r.value < |cols|
    ensures forall n :: v == Num(n) ==> (r.Some? <==> 0 <= n < |cols|)
  {
    if v.Num? then (if 0 <= v.n < |cols| then Some(v.n) else None)
    else KeyColumn(cols, Text.ToJsString(v))
  }

  /** `aoColumns[key]` for a property key: a column when the key prints an index in range. */
  function KeyColumn(cols: seq<Column>, key: string): (r: Option<nat>)
    ensures r.Some? ==> r.value < |cols|
  {
    if CanonicalIndex(key) && DigitsValue(key) < |cols| then Some(DigitsValue(key)) else None
  }

  /** `asSorting.indexOf(dir)`. */
  function DirIndex(asSorting: seq<string>, dir: Value): (r: int)
    ensures -1 <= r < |asSorting|
    ensures r >= 0 <==> (dir.Str? && dir.s in asSorting)
  {
    match dir
    case Str(d) => Internal.IndexOf(asSorting, d)
    case _ => -1
  }

  /**
   * The `_idx` an entry on column `src` carries after the `aDataSort` loop:
   * set from the first sort column's `asSorting` only when it was undefined.
   */
  function EntryIdx(cols: seq<Column>, src: nat, dir: Value, idx: Option<int>): (r: Option<int>)
    requires ColumnsWf(cols) && src < |cols|
    ensures idx.Some? ==> r == idx
    ensures |cols[src].aDataSort| > 0 && cols[src].aDataSort[0] < |cols| ==> r.Some?
  {
    if idx.None? && |cols[src].aDataSort| > 0 && cols[src].aDataSort[0] < |cols| then
      Some(DirIndex(cols[cols[src].aDataSort[0]].asSorting, dir))
    else idx
  }

  /** Every `aDataSort` entry of column `src` names a column; otherwise reading `aoColumns[iCol].sType` throws. */
  predicate KeysExist(cols: seq<Column>, src: nat)
    requires src < |cols|
  {
    forall k :: 0 <= k < |cols[src].aDataSort| ==> cols[src].aDataSort[k] < |cols|
  }

  /** The type a sort column is ordered as: its `sType`, or `'string'` when it has none. */
  function SortType(c: Column): (r: Value)
    ensures Truthy(r)
    ensures !Truthy(c.sType) ==> r == Str("string")
  {
    if Truthy(c.sType) then c.sType else Str("string")
  }

  /** The instruction for data column `c` of an entry on source column `src`. */
  function SpecFor(cols: seq<Column>, types: TypeRegistry.Types, src: nat, c: nat, dir: Value, index: int): SortSpec
    requires c < |cols|
  {
    var ty := SortType(cols[c]);
    SortSpec(src, c, dir, index, ty,
             TypeRegistry.Lookup(types.order, Text.ToJsString(ty) + "-pre"),
             TypeRegistry.Lookup(types.order, Text.ToJsString(ty) + "-" + Text.ToJsString(dir)))
  }

  /** The instructions one `[src, dir]` entry expands into. */
  function Expand(cols: seq<Column>, types: TypeRegistry.Types, src: nat, dir: Value, idx: Option<int>): (r: seq<SortSpec>)
    requires ColumnsWf(cols) && src < |cols| && KeysExist(cols, src)
    requires |cols[src].aDataSort| > 0 ==> idx.Some?
    ensures !Truthy(dir) ==> r == []
    ensures Truthy(dir) ==> |r| == |cols[src].aDataSort|
  {
    if !Truthy(dir) then []
    else
      var ads := cols[src].aDataSort;
      seq(|ads|, k requires 0 <= k < |ads| => SpecFor(cols, types, src, ads[k], dir, idx.value))
  }

  /** The instructions of one nested entry, or `None` when reading it throws. */
  function SpecsOf(cols: seq<Column>, types: TypeRegistry.Types, e: Nested): Option<seq<SortSpec>>
    requires ColumnsWf(cols)
  {
    match e
    case Nullish => None
    case Pair(col, dir, idx, _) =>
      match ColumnAt(cols, col)
      case None => Some([])
      case Some(src) =>
        if KeysExist(cols, src) then Some(Expand(cols, types, src, dir, EntryIdx(cols, src, dir, idx))) else None
  }

  /** One entry after the loop: `_idx` stamped when it names a column. */
  function Stamped(cols: seq<Column>, e: SortEntry): SortEntry
    requires ColumnsWf(cols)
  {
    match ColumnAt(cols, e.col)
    case None => e
    case Some(src) => e.(idx := EntryIdx(cols, src, e.dir, e.idx))
  }

  /**
   * One turn of the loop of `_fnSortFlatten` on an entry that can be read:
   * it throws when a key column is missing, after stamping `_idx` if the
   * first key column exists.
   */
  function FlatStep(cols: seq<Column>, types: TypeRegistry.Types, e: Nested, f: Flat): Flat
    requires ColumnsWf(cols) && e.Pair?
  {
    match ColumnAt(cols, e.col)
    case None => f
    case Some(src) =>
      var ix := EntryIdx(cols, src, e.dir, e.idx);
      var sorting :=
        if e.origin.Some? && e.origin.value < |f.sorting| then
          f.sorting[e.origin.value := f.sorting[e.origin.value].(idx := ix)]
        else f.sorting;
      if KeysExist(cols, src) then Flat(f.specs + Expand(cols, types, src, e.dir, ix), sorting, f.failed)
      else Flat(f.specs, sorting, true)
  }

  /** The loop of `_fnSortFlatten` from nested entry `i` on. */
  function FlatFrom(cols: seq<Column>, types: TypeRegistry.Types, ns: seq<Nested>, i: nat, f: Flat): Flat
    requires ColumnsWf(cols) && i <= |ns|
    decreases |ns| - i
  {
    if i == |ns| || f.failed then f
    else if ns[i].Nullish? then f.(failed := true)
    else FlatFrom(cols, types, ns, i + 1, FlatStep(cols, types, ns[i], f))
  }

  /** The nested list: the fixed array, `fixed.pre`, `aaSorting`, `fixed.post`, in that order. */
  function NestedOf(t: TableState): seq<Nested> {
    var fixed := t.fixed;
    (if fixed.Arr? then Resolve(t.columns, fixed) else [])
    + (if fixed.Obj? && Truthy(Prop(fixed, "pre")) then Resolve(t.columns, Prop(fixed, "pre")) else [])
    + ResolveSorting(t.sorting)
    + (if fixed.Obj? && Truthy(Prop(fixed, "post")) then Resolve(t.columns, Prop(fixed, "post")) else [])
  }

  /** `_fnSortFlatten(settings)`: the instructions and the new `aaSorting`. */
  function SortFlattenSpec(t: TableState, types: TypeRegistry.Types): (r: Flat)
    requires ColumnsWf(t.columns)
    ensures !t.features.bSort ==> r == Flat([], t.sorting, false)
  {
    if !t.features.bSort then Flat([], t.sorting, false)
    else FlatFrom(t.columns, types, NestedOf(t), 0, Flat([], t.sorting, false))
  }

  /**
   * The inner loop of `_fnSortFlatten` over one entry's `aDataSort`; `ok` is
   * false when it throws on a key column that does not exist.
   */
  method ExpandEntry(cols: seq<Column>, types: TypeRegistry.Types, src: nat, dir: Value, idx: Option<int>)
    returns (specs: seq<SortSpec>, ix: Option<int>, ok: bool)
    requires ColumnsWf(cols) && src < |cols|
    ensures ix == EntryIdx(cols, src, dir, idx)
    ensures ok == KeysExist(cols, src)
    ensures ok ==> specs == Expand(cols, types, src, dir, ix)
  {
    var ads := cols[src].aDataSort;
    specs, ix := [], idx;
    for k := 0 to |ads|
      invariant forall j :: 0 <= j < k ==> ads[j] < |cols|
      invariant k == 0 ==> ix == idx
      invariant k > 0 ==> ix == EntryIdx(cols, src, dir, idx)
      invariant !Truthy(dir) ==> specs == []
      invariant Truthy(dir) ==> |specs| == k
      invariant Truthy(dir) ==> forall j :: 0 <= j < k ==> specs[j] == SpecFor(cols, types, src, ads[j], dir, ix.value)
    {
      var c := ads[k];
      if c >= |cols| {
        assert !KeysExist(cols, src) by { assert cols[src].aDataSort[k] >= |cols|; }
        return specs, ix, false;
      }
      if ix.None? {
        ix := Some(DirIndex(cols[c].asSorting, dir));
      }
      assert ix == EntryIdx(cols, src, dir, idx);
      if Truthy(dir) {
        specs := specs + [SpecFor(cols, types, src, c, dir, ix.value)];
      }
    }
    assert KeysExist(cols, src);
    assert Truthy(dir) ==> specs == Expand(cols, types, src, dir, ix);
    ok := true;
  }

  /**
   * `_fnSortFlatten(settings)`. Returns the flat instructions, writes `_idx`
   * onto the `aaSorting` entries it reads, and throws on a `null` element of
   * a fixed 2-D list.
   */
  method SortFlatten(s: Settings, types: TypeRegistry.Types) returns (r: Result<seq<SortSpec>>)
    requires ColumnsWf(s.aoColumns)
    modifies s
    ensures var f := SortFlattenSpec(old(s.Contents()), types);
            s.Contents() == old(s.Contents()).(sorting := f.sorting) &&
            r == if f.failed then Throw("Cannot read properties of null") else Ok(f.specs)
  {
    if !s.oFeatures.bSort {
      return Ok([]);
    }
    ghost var t0 := s.Contents();
    var nested := BuildNested(s.aoColumns, s.aaSortingFixed, s.aaSorting);
    assert nested == NestedOf(t0);
    r := FlattenAll(s, s.aoColumns, types, nested);
  }

  /** The loop of `_fnSortFlatten` over the nested list. */
  method FlattenAll(s: Settings, cols: seq<Column>, types: TypeRegistry.Types, nested: seq<Nested>)
    returns (r: Result<seq<SortSpec>>)
    requires ColumnsWf(cols)
    modifies s
    ensures var f := FlatFrom(cols, types, nested, 0, Flat([], old(s.aaSorting), false));
            s.Contents() == old(s.Contents()).(sorting := f.sorting) &&
            r == if f.failed then Throw("Cannot read properties of null") else Ok(f.specs)
  {
    var aSort: seq<SortSpec> := [];
    var i := 0;
    while i < |nested|
      invariant 0 <= i <= |nested|
      invariant s.Contents() == old(s.Contents()).(sorting := s.aaSorting)
      invariant FlatFrom(cols, types, nested, 0, Flat([], old(s.aaSorting), false))
                == FlatFrom(cols, types, nested, i, Flat(aSort, s.aaSorting, false))
    {
      if nested[i].Nullish? {
        return Throw("Cannot read properties of null");
      }
      var ok;
      aSort, ok := FlattenEntry(s, cols, types, nested[i], aSort);
      if !ok {
        return Throw("Cannot read properties of null");
      }
      i := i + 1;
    }
    return Ok(aSort);
  }

  /** The resolution calls at the head of `_fnSortFlatten`. */
  method BuildNested(cols: seq<Column>, fixed: Value, sorting: seq<SortEntry>) returns (nested: seq<Nested>)
    ensures forall t: TableState :: t.columns == cols && t.fixed == fixed && t.sorting == sorting ==>
              nested == NestedOf(t)
  {
    nested := [];
    if fixed.Arr? {
      nested := SortResolve(cols, nested, fixed);
    }
    if fixed.Obj? && Truthy(Prop(fixed, "pre")) {
      nested := SortResolve(cols, nested, Prop(fixed, "pre"));
    }
    nested := nested + ResolveSorting(sorting);
    if fixed.Obj? && Truthy(Prop(fixed, "post")) {
      nested := SortResolve(cols, nested, Prop(fixed, "post"));
    }
  }

  /** The body of the loop of `_fnSortFlatten` for one readable entry; `ok` is false when it throws. */
  method FlattenEntry(s: Settings, cols: seq<Column>, types: TypeRegistry.Types, e: Nested, aSort: seq<SortSpec>)
    returns (r: seq<SortSpec>, ok: bool)
    requires ColumnsWf(cols) && e.Pair?
    modifies s
    ensures s.Contents() == old(s.Contents()).(sorting := s.aaSorting)
    ensures Flat(r, s.aaSorting, !ok) == FlatStep(cols, types, e, Flat(aSort, old(s.aaSorting), false))
  {
    r, ok := aSort, true;
    var src := ColumnAt(cols, e.col);
    if src.Some? {
      var more, ix, fine := ExpandEntry(cols, types, src.value, e.dir, e.idx);
      if fine {
        r := r + more;
      } else {
        ok := false;
      }
      if e.origin.Some? && e.origin.value < |s.aaSorting| {
        s.aaSorting := s.aaSorting[e.origin.value := s.aaSorting[e.origin.value].(idx := ix)];
      }
    }
  }

  // ---- properties of the flattening ----

  /** Concatenation of two instruction lists that may have thrown. */
  function Cat(x: Option<seq<SortSpec>>, y: Option<seq<SortSpec>>): Option<seq<SortSpec>> {
    if x.Some? && y.Some? then Some(x.value + y.value) else None
  }

  /** The instructions of a list of nested entries, concatenated; `None` once one throws. */
  function SpecsAll(cols: seq<Column>, types: TypeRegistry.Types, ns: seq<Nested>): Option<seq<SortSpec>>
    requires ColumnsWf(cols)
  {
    if |ns| == 0 then Some([]) else Cat(SpecsOf(cols, types, ns[0]), SpecsAll(cols, types, ns[1..]))
  }

  /** The loop's instructions are the entries' own instructions, in nested order. */
  lemma {:induction false} FlatFromSpecs(cols: seq<Column>, types: TypeRegistry.Types, ns: seq<Nested>, i: nat, f: Flat)
    requires ColumnsWf(cols) && i <= |ns| && !f.failed
    ensures var r := FlatFrom(cols, types, ns, i, f);
            (SpecsAll(cols, types, ns[i..]).Some? <==> !r.failed) &&
            (!r.failed ==> r.specs == f.specs + SpecsAll(cols, types, ns[i..]).value)
    decreases |ns| - i
  {
    if i < |ns| {
      assert ns[i..][1..] == ns[i + 1..];
      if ns[i].Pair? {
        var g := FlatStep(cols, types, ns[i], f);
        if g.failed {
          assert SpecsOf(cols, types, ns[i]).None?;
        } else {
          FlatFromSpecs(cols, types, ns, i + 1, g);
        }
      }
    }
  }

  lemma {:induction false} SpecsAllAppend(cols: seq<Column>, types: TypeRegistry.Types, a: seq<Nested>, b: seq<Nested>)
    requires ColumnsWf(cols)
    ensures SpecsAll(cols, types, a + b) == Cat(SpecsAll(cols, types, a), SpecsAll(cols, types, b))
  {
    if |a| == 0 {
      assert a + b == b;
      var y := SpecsAll(cols, types, b);
      if y.Some? {
        assert [] + y.value == y.value;
      }
    } else {
      var x, y, z := SpecsOf(cols, types, a[0]), SpecsAll(cols, types, a[1..]), SpecsAll(cols, types, b);
      calc {
        SpecsAll(cols, types, a + b);
        { assert (a + b)[1..] == a[1..] + b && (a + b)[0] == a[0]; }
        Cat(x, SpecsAll(cols, types, a[1..] + b));
        { SpecsAllAppend(cols, types, a[1..], b); }
        Cat(x, Cat(y, z));
        { CatAssoc(x, y, z); }
        Cat(Cat(x, y), z);
      }
    }
  }

  lemma CatAssoc(x: Option<seq<SortSpec>>, y: Option<seq<SortSpec>>, z: Option<seq<SortSpec>>)
    ensures Cat(x, Cat(y, z)) == Cat(Cat(x, y), z)
  {
    if x.Some? && y.Some? && z.Some? {
      assert x.value + (y.value + z.value) == (x.value + y.value) + z.value;
    }
  }

  /**
   * Unless a fixed list throws, the instructions are those of the fixed
   * array, then `fixed.pre`, then `aaSorting`, then `fixed.post`.
   */
  lemma FlattenOrder(t: TableState, types: TypeRegistry.Types)
    requires ColumnsWf(t.columns) && t.features.bSort
    requires !SortFlattenSpec(t, types).failed
    ensures var fixed := t.fixed;
            var n1 := if fixed.Arr? then Resolve(t.columns, fixed) else [];
            var n2 := if fixed.Obj? && Truthy(Prop(fixed, "pre")) then Resolve(t.columns, Prop(fixed, "pre")) else [];
            var n4 := if fixed.Obj? && Truthy(Prop(fixed, "post")) then Resolve(t.columns, Prop(fixed, "post")) else [];
            var a1 := SpecsAll(t.columns, types, n1);
            var a2 := SpecsAll(t.columns, types, n2);
            var a3 := SpecsAll(t.columns, types, ResolveSorting(t.sorting));
            var a4 := SpecsAll(t.columns, types, n4);
            a1.Some? && a2.Some? && a3.Some? && a4.Some? &&
            SortFlattenSpec(t, types).specs == a1.value + a2.value + a3.value + a4.value
  {
    var cols := t.columns;
    var fixed := t.fixed;
    var n1 := if fixed.Arr? then Resolve(cols, fixed) else [];
    var n2 := if fixed.Obj? && Truthy(Prop(fixed, "pre")) then Resolve(cols, Prop(fixed, "pre")) else [];
    var n3 := ResolveSorting(t.sorting);
    var n4 := if fixed.Obj? && Truthy(Prop(fixed, "post")) then Resolve(cols, Prop(fixed, "post")) else [];
    var ns := NestedOf(t);
    assert ns == n1 + n2 + n3 + n4;
    FlatFromSpecs(cols, types, ns, 0, Flat([], t.sorting, false));
    assert ns[0..] == ns;
    SpecsAllFour(cols, types, n1, n2, n3, n4);
  }

  /** Four lists of entries expand, when all four do, to their four expansions in order. */
  lemma SpecsAllFour(cols: seq<Column>, types: TypeRegistry.Types, n1: seq<Nested>, n2: seq<Nested>, n3: seq<Nested>,
                     n4: seq<Nested>)
    requires ColumnsWf(cols)
    ensures var all := SpecsAll(cols, types, n1 + n2 + n3 + n4);
            var a1, a2 := SpecsAll(cols, types, n1), SpecsAll(cols, types, n2);
            var a3, a4 := SpecsAll(cols, types, n3), SpecsAll(cols, types, n4);
            all.Some? ==>
              a1.Some? && a2.Some? && a3.Some? && a4.Some? && all.value == a1.value + a2.value + a3.value + a4.value
  {
    SpecsAllAppend(cols, types, n1 + n2 + n3, n4);
    SpecsAllAppend(cols, types, n1 + n2, n3);
    SpecsAllAppend(cols, types, n1, n2);
  }

  /**
   * An entry naming no column contributes nothing, and so does one with an
   * empty direction whose key columns all exist.
   */
  lemma SkippedEntries(cols: seq<Column>, types: TypeRegistry.Types, col: Value, dir: Value, idx: Option<int>, origin: Option<nat>)
    requires ColumnsWf(cols)
    requires ColumnAt(cols, col).None? || (KeysExist(cols, ColumnAt(cols, col).value) && !Truthy(dir))
    ensures SpecsOf(cols, types, Pair(col, dir, idx, origin)) == Some([])
  {
  }

  /** One entry that throws makes the whole list throw. */
  lemma {:induction false} SpecsAllNone(cols: seq<Column>, types: TypeRegistry.Types, ns: seq<Nested>, j: nat)
    requires ColumnsWf(cols) && j < |ns| && SpecsOf(cols, types, ns[j]).None?
    ensures SpecsAll(cols, types, ns).None?
  {
    if j > 0 {
      assert ns[1..][j - 1] == ns[j];
      SpecsAllNone(cols, types, ns[1..], j - 1);
    }
  }

  /**
   * An `aaSorting` entry on a column whose `aDataSort` names a column that
   * does not exist makes `_fnSortFlatten` throw, whatever the entry's
   * direction: `aoColumns[iCol].sType` is read before the direction is tested.
   */
  lemma MissingKeyThrows(t: TableState, types: TypeRegistry.Types, z: nat)
    requires ColumnsWf(t.columns) && t.features.bSort && z < |t.sorting|
    requires ColumnAt(t.columns, t.sorting[z].col).Some?
    requires !KeysExist(t.columns, ColumnAt(t.columns, t.sorting[z].col).value)
    ensures SortFlattenSpec(t, types).failed
  {
    NestedLayout(t);
    var ns := NestedOf(t);
    SpecsAllNone(t.columns, types, ns, PreCount(t) + z);
    FlatFromSpecs(t.columns, types, ns, 0, Flat([], t.sorting, false));
    assert ns[0..] == ns;
  }

  /**
   * An entry on column `src` with a direction expands to one instruction per
   * `aDataSort` column, in list order, each carrying the source column, the
   * direction, the stamped `_idx`, the column's type (`'string'` when it has
   * none) and that type's `-pre` and `-<dir>` functions.
   */
  lemma ExpandShape(cols: seq<Column>, types: TypeRegistry.Types, src: nat, dir: Value, idx: Option<int>)
    requires ColumnsWf(cols) && src < |cols| && KeysExist(cols, src) && Truthy(dir)
    ensures var ix := EntryIdx(cols, src, dir, idx);
            var r := Expand(cols, types, src, dir, ix);
            var ads := cols[src].aDataSort;
            |r| == |ads| &&
            forall k :: 0 <= k < |ads| ==>
              var c := ads[k];
              && r[k].src == src && r[k].col == c && r[k].dir == dir
              && r[k].index == (if idx.Some? then idx.value else DirIndex(cols[ads[0]].asSorting, dir))
              && (Truthy(cols[c].sType) ==> r[k].sType == cols[c].sType)
              && (!Truthy(cols[c].sType) ==> r[k].sType == Str("string"))
              && r[k].formatter == TypeRegistry.Lookup(types.order, Text.ToJsString(r[k].sType) + "-pre")
              && r[k].sorter == TypeRegistry.Lookup(types.order, Text.ToJsString(r[k].sType) + "-" + Text.ToJsString(dir))
  {
  }

  /** Every instruction names an existing column with a direction, drawn from its source's `aDataSort`. */
  ghost predicate SpecsWf(cols: seq<Column>, specs: seq<SortSpec>) {
    forall k :: 0 <= k < |specs| ==>
      specs[k].src < |cols| && specs[k].col < |cols| && Truthy(specs[k].dir) &&
      specs[k].col in cols[specs[k].src].aDataSort
  }

  lemma {:induction false} FlatFromWf(cols: seq<Column>, types: TypeRegistry.Types, ns: seq<Nested>, i: nat, f: Flat)
    requires ColumnsWf(cols) && i <= |ns| && SpecsWf(cols, f.specs)
    ensures SpecsWf(cols, FlatFrom(cols, types, ns, i, f).specs)
    ensures |FlatFrom(cols, types, ns, i, f).sorting| == |f.sorting|
    decreases |ns| - i
  {
    if i < |ns| && !f.failed {
      match ns[i]
      case Nullish =>
      case Pair(col, dir, idx, origin) =>
        match ColumnAt(cols, col)
        case None =>
          FlatFromWf(cols, types, ns, i + 1, f);
        case Some(src) =>
          if !KeysExist(cols, src) {
            return;
          }
          var ix := EntryIdx(cols, src, dir, idx);
          var e := Expand(cols, types, src, dir, ix);
          var sorting :=
            if origin.Some? && origin.value < |f.sorting| then
              f.sorting[origin.value := f.sorting[origin.value].(idx := ix)]
            else f.sorting;
          assert SpecsWf(cols, f.specs + e) by {
            forall k | 0 <= k < |e| ensures e[k].col in cols[src].aDataSort {
              assert e[k].col == cols[src].aDataSort[k];
            }
          }
          assert FlatStep(cols, types, ns[i], f) == Flat(f.specs + e, sorting, false);
          FlatFromWf(cols, types, ns, i + 1, Flat(f.specs + e, sorting, false));
    }
  }

  /** The flattened instructions always name existing columns, with a direction. */
  lemma FlattenWf(t: TableState, types: TypeRegistry.Types)
    requires ColumnsWf(t.columns)
    ensures SpecsWf(t.columns, SortFlattenSpec(t, types).specs)
    ensures |SortFlattenSpec(t, types).sorting| == |t.sorting|
  {
    if t.features.bSort {
      FlatFromWf(t.columns, types, NestedOf(t), 0, Flat([], t.sorting, false));
    }
  }

  /** The only entries with an `aaSorting` origin are entries `lo ..` of `ns`, entry `lo + z` being `aaSorting[z]`. */
  ghost predicate OriginsAt(ns: seq<Nested>, lo: nat, n: nat) {
    forall j :: 0 <= j < |ns| ==>
      ns[j].Pair? && ns[j].origin.Some? ==> lo <= j && ns[j].origin.value == j - lo && j - lo < n
  }

  /** An `aaSorting` entry the loop has or has not reached yet. */
  ghost predicate StampedUpTo(cols: seq<Column>, old0: seq<SortEntry>, cur: seq<SortEntry>, lo: nat, i: nat)
    requires ColumnsWf(cols)
  {
    |cur| == |old0| &&
    forall z :: 0 <= z < |old0| ==>
      cur[z] == if lo + z < i then Stamped(cols, old0[z]) else old0[z]
  }

  lemma {:induction false} FlatFromIdx(cols: seq<Column>, types: TypeRegistry.Types, ns: seq<Nested>,
                                       lo: nat, old0: seq<SortEntry>, i: nat, f: Flat)
    requires ColumnsWf(cols) && i <= |ns|
    requires OriginsAt(ns, lo, |old0|)
    requires forall z :: 0 <= z < |old0| && lo + z < |ns| ==>
               ns[lo + z] == Pair(old0[z].col, old0[z].dir, old0[z].idx, Some(z))
    requires StampedUpTo(cols, old0, f.sorting, lo, i)
    ensures |FlatFrom(cols, types, ns, i, f).sorting| == |f.sorting|
    ensures var r := FlatFrom(cols, types, ns, i, f);
            (!r.failed ==> StampedUpTo(cols, old0, r.sorting, lo, |ns|)) &&
            (forall z :: 0 <= z < |old0| ==> r.sorting[z] == old0[z] || r.sorting[z] == Stamped(cols, old0[z]))
    decreases |ns| - i
  {
    if i < |ns| && ns[i].Pair? && !f.failed {
      StampAt(cols, types, ns, lo, old0, i, f);
      FlatFromIdx(cols, types, ns, lo, old0, i + 1, FlatStep(cols, types, ns[i], f));
    } else {
      StampedEither(cols, old0, f.sorting, lo, i);
    }
  }

  /** One readable entry stamps its `aaSorting` origin, if it has one, and nothing else. */
  lemma StampAt(cols: seq<Column>, types: TypeRegistry.Types, ns: seq<Nested>, lo: nat, old0: seq<SortEntry>, i: nat, f: Flat)
    requires ColumnsWf(cols) && i < |ns| && ns[i].Pair? && !f.failed
    requires OriginsAt(ns, lo, |old0|)
    requires forall z :: 0 <= z < |old0| && lo + z < |ns| ==>
               ns[lo + z] == Pair(old0[z].col, old0[z].dir, old0[z].idx, Some(z))
    requires StampedUpTo(cols, old0, f.sorting, lo, i)
    ensures StampedUpTo(cols, old0, FlatStep(cols, types, ns[i], f).sorting, lo, i + 1)
  {
    var origin := ns[i].origin;
    if origin.Some? {
      var z := origin.value;
      assert lo + z == i && ns[lo + z] == Pair(old0[z].col, old0[z].dir, old0[z].idx, Some(z));
    }
  }

  /** While the loop runs, every `aaSorting` entry is either untouched or stamped. */
  lemma StampedEither(cols: seq<Column>, old0: seq<SortEntry>, cur: seq<SortEntry>, lo: nat, i: nat)
    requires ColumnsWf(cols) && StampedUpTo(cols, old0, cur, lo, i)
    ensures forall z :: 0 <= z < |old0| ==> cur[z] == old0[z] || cur[z] == Stamped(cols, old0[z])
  {
  }


  /** `Resolve` builds fresh entries: none of them is an `aaSorting` entry. */
  lemma {:induction false} PushAllNoOrigin(cols: seq<Column>, items: seq<Value>)
    ensures forall j :: 0 <= j < |PushAll(cols, items)| && PushAll(cols, items)[j].Pair? ==>
              PushAll(cols, items)[j].origin.None?
  {
    if |items| > 0 {
      PushAllNoOrigin(cols, items[..|items| - 1]);
    }
  }

  lemma ResolveNoOrigin(cols: seq<Column>, v: Value)
    ensures forall j :: 0 <= j < |Resolve(cols, v)| && Resolve(cols, v)[j].Pair? ==> Resolve(cols, v)[j].origin.None?
  {
    if v.Arr? {
      PushAllNoOrigin(cols, v.items);
    }
  }

  /**
   * `_idx` is written onto the `aaSorting` entries the loop reaches, and only
   * where it was undefined: an entry naming a column gets the index of its
   * direction in the first sort column's `asSorting`. Unless a fixed list
   * throws, every entry is reached.
   */
  lemma FlattenIdx(t: TableState, types: TypeRegistry.Types)
    requires ColumnsWf(t.columns)
    ensures var r := SortFlattenSpec(t, types);
            |r.sorting| == |t.sorting| &&
            (forall z :: 0 <= z < |t.sorting| ==>
               r.sorting[z] == t.sorting[z] || r.sorting[z] == Stamped(t.columns, t.sorting[z])) &&
            (forall z :: 0 <= z < |t.sorting| && t.sorting[z].idx.Some? ==> r.sorting[z] == t.sorting[z]) &&
            (t.features.bSort && !r.failed ==>
               forall z :: 0 <= z < |t.sorting| ==> r.sorting[z] == Stamped(t.columns, t.sorting[z]))
  {
    if t.features.bSort {
      NestedLayout(t);
      FlattenIdxFrom(t.columns, types, NestedOf(t), PreCount(t), t.sorting);
    }
  }

  /** `FlattenIdx` for any nested list that holds `aaSorting`'s entries, with their origins, from `lo`. */
  lemma FlattenIdxFrom(cols: seq<Column>, types: TypeRegistry.Types, ns: seq<Nested>, lo: nat, sorting: seq<SortEntry>)
    requires ColumnsWf(cols) && lo + |sorting| <= |ns| && OriginsAt(ns, lo, |sorting|)
    requires forall z :: 0 <= z < |sorting| && lo + z < |ns| ==>
               ns[lo + z] == Pair(sorting[z].col, sorting[z].dir, sorting[z].idx, Some(z))
    ensures var r := FlatFrom(cols, types, ns, 0, Flat([], sorting, false));
            |r.sorting| == |sorting| &&
            (forall z :: 0 <= z < |sorting| ==> r.sorting[z] == sorting[z] || r.sorting[z] == Stamped(cols, sorting[z])) &&
            (forall z :: 0 <= z < |sorting| && sorting[z].idx.Some? ==> r.sorting[z] == sorting[z]) &&
            (!r.failed ==> forall z :: 0 <= z < |sorting| ==> r.sorting[z] == Stamped(cols, sorting[z]))
  {
    FlatFromIdx(cols, types, ns, lo, sorting, 0, Flat([], sorting, false));
  }

  /** The number of entries the fixed lists put before `aaSorting`'s. */
  function PreCount(t: TableState): nat {
    var fixed := t.fixed;
    |(if fixed.Arr? then Resolve(t.columns, fixed) else [])
     + (if fixed.Obj? && Truthy(Prop(fixed, "pre")) then Resolve(t.columns, Prop(fixed, "pre")) else [])|
  }

  /** `aaSorting`'s entries sit after the fixed ones, each carrying its own position as origin; no other entry has one. */
  lemma NestedLayout(t: TableState)
    ensures PreCount(t) + |t.sorting| <= |NestedOf(t)|
    ensures OriginsAt(NestedOf(t), PreCount(t), |t.sorting|)
    ensures forall z :: 0 <= z < |t.sorting| && PreCount(t) + z < |NestedOf(t)| ==>
              NestedOf(t)[PreCount(t) + z] == Pair(t.sorting[z].col, t.sorting[z].dir, t.sorting[z].idx, Some(z))
  {
    var n1, n2, n4 := NestedParts(t);
    LayoutOfFour(NestedOf(t), PreCount(t), n1, n2, n4, t.sorting);
  }

  /** The fixed lists before and after `aaSorting` in the nested list; none of them carries an origin. */
  lemma NestedParts(t: TableState) returns (n1: seq<Nested>, n2: seq<Nested>, n4: seq<Nested>)
    ensures NoOrigins(n1) && NoOrigins(n2) && NoOrigins(n4)
    ensures NestedOf(t) == n1 + n2 + ResolveSorting(t.sorting) + n4
    ensures PreCount(t) == |n1| + |n2|
  {
    var cols := t.columns;
    var fixed := t.fixed;
    var pre, post := Prop(fixed, "pre"), Prop(fixed, "post");
    n1 := if fixed.Arr? then Resolve(cols, fixed) else [];
    n2 := if fixed.Obj? && Truthy(pre) then Resolve(cols, pre) else [];
    n4 := if fixed.Obj? && Truthy(post) then Resolve(cols, post) else [];
    ResolveNoOrigin(cols, fixed);
    ResolveNoOrigin(cols, pre);
    ResolveNoOrigin(cols, post);
  }

  predicate NoOrigins(ns: seq<Nested>) {
    forall j :: 0 <= j < |ns| && ns[j].Pair? ==> ns[j].origin.None?
  }

  /** Entries without origins around the resolved `aaSorting`: only the latter carry origins, their own positions. */
  lemma LayoutOfFour(ns: seq<Nested>, lo: nat, n1: seq<Nested>, n2: seq<Nested>, n4: seq<Nested>, sorting: seq<SortEntry>)
    requires ns == n1 + n2 + ResolveSorting(sorting) + n4 && lo == |n1| + |n2|
    requires NoOrigins(n1) && NoOrigins(n2) && NoOrigins(n4)
    ensures OriginsAt(ns, lo, |sorting|)
    ensures forall z :: 0 <= z < |sorting| && lo + z < |ns| ==>
              ns[lo + z] == Pair(sorting[z].col, sorting[z].dir, sorting[z].idx, Some(z))
  {
    NoOriginsConcat(n1, n2);
    LayoutOrigins(n1 + n2, n4, sorting);
    LayoutEntries(n1 + n2, n4, sorting);
  }

  lemma NoOriginsConcat(n1: seq<Nested>, n2: seq<Nested>)
    requires NoOrigins(n1) && NoOrigins(n2)
    ensures NoOrigins(n1 + n2)
  {
    var a := n1 + n2;
    forall j | 0 <= j < |a| && a[j].Pair? ensures a[j].origin.None? {
      if j < |n1| { assert a[j] == n1[j]; } else { assert a[j] == n2[j - |n1|]; }
    }
  }

  lemma LayoutOrigins(a: seq<Nested>, n4: seq<Nested>, sorting: seq<SortEntry>)
    requires NoOrigins(a) && NoOrigins(n4)
    ensures OriginsAt(a + ResolveSorting(sorting) + n4, |a|, |sorting|)
  {
    var n3 := ResolveSorting(sorting);
    var b := a + n3;
    var ns := b + n4;
    var lo := |a|;
    forall j | 0 <= j < |ns|
      ensures ns[j].Pair? && ns[j].origin.Some? ==> lo <= j && ns[j].origin.value == j - lo && j - lo < |sorting|
    {
      if j >= |b| {
        assert ns[j] == n4[j - |b|];
      } else if j >= lo {
        assert ns[j] == b[j] == n3[j - lo];
      } else {
        assert ns[j] == b[j] == a[j];
      }
    }
  }

  lemma LayoutEntries(a: seq<Nested>, n4: seq<Nested>, sorting: seq<SortEntry>)
    ensures var ns := a + ResolveSorting(sorting) + n4;
            forall z :: 0 <= z < |sorting| ==>
              ns[|a| + z] == Pair(sorting[z].col, sorting[z].dir, sorting[z].idx, Some(z))
  {
    var n3 := ResolveSorting(sorting);
    var b := a + n3;
    forall z | 0 <= z < |sorting| ensures (b + n4)[|a| + z] == Pair(sorting[z].col, sorting[z].dir, sorting[z].idx, Some(z)) {
      assert (b + n4)[|a| + z] == b[|a| + z] == n3[z];
    }
  }
}
