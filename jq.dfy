/**
 * The jQuery-style helpers of `src/core/core.jq.js`: `_extend` (shallow and
 * deep merging of plain objects), `_map` and `_each`. A plain object is an
 * `Obj` value and an array an `Arr` value; `_isPlainObject` and
 * `isArrayLike` become these constructor tests.
 */
module Jq {
  import opened Wrappers
  import opened JsValue

  /** The key `_extend` refuses to write, against prototype pollution. */
  const ProtoKey: string := "__proto__"

  /** The kinds deep mode descends into: plain objects and arrays. */
  predicate IsContainer(v: Value) {
    v.Obj? || v.Arr?
  }

  /**
   * The value deep mode merges a container into: the target's current value
   * when it is of the same kind, otherwise a fresh empty one.
   */
  function CloneFor(src: Value, copy: Value): (r: Value)
    requires IsContainer(copy)
    ensures IsContainer(r) && (r.Arr? <==> copy.Arr?)
    ensures src.Arr? == copy.Arr? && IsContainer(src) ==> r == src
  {
    if copy.Arr? then (if src.Arr? then src else Arr([]))
    else (if src.Obj? then src else Obj([]))
  }

  /** Deep-merge container `copy` into container `target` of the same kind. */
  function Merge(deep: bool, target: Value, copy: Value): (r: Value)
    requires IsContainer(target) && IsContainer(copy) && (target.Arr? <==> copy.Arr?)
    ensures IsContainer(r) && (r.Arr? <==> copy.Arr?)
    decreases copy, 1
  {
    if copy.Obj? then Obj(MergeFields(deep, target.fields, copy.fields))
    else Arr(MergeItems(deep, target.items, copy.items, 0))
  }

  /**
   * What one property of a source does to the target's current value `cur`:
   * `Some(v)` writes `v`, `None` leaves the property alone (undefined is
   * never copied).
   */
  function MergeEntry(deep: bool, cur: Value, copy: Value): (r: Option<Value>)
    ensures r.None? <==> copy == Undefined
    decreases copy, 2
  {
    if deep && IsContainer(copy) then Some(Merge(deep, CloneFor(cur, copy), copy))
    else if copy != Undefined then Some(copy)
    else None
  }

  /** The `for (name in options)` loop over a plain object's properties. */
  function MergeFields(deep: bool, t: seq<Field>, c: seq<Field>): (r: seq<Field>)
    decreases c, 0
  {
    if |c| == 0 then t
    else
      var name := c[0].key;
      var t' := if name == ProtoKey then t
                else match MergeEntry(deep, Get(t, name), c[0].val)
                  case None => t
                  case Some(v) => Put(t, name, v);
      MergeFields(deep, t', c[1..])
  }

  /** `a[i] = v` on an array: past the end, the holes read as undefined. */
  function SetIndex(a: seq<Value>, i: nat, v: Value): (r: seq<Value>)
    ensures |r| == if i < |a| then |a| else i + 1
    ensures r[i] == v
    ensures forall j :: 0 <= j < |a| && j != i ==> r[j] == a[j]
    ensures forall j :: |a| <= j < |r| && j != i ==> r[j] == Undefined
  {
    if i < |a| then a[i := v] else a + seq(i - |a|, _ => Undefined) + [v]
  }

  /** The same loop over an array's indices `at`, `at + 1`, ... */
  function MergeItems(deep: bool, t: seq<Value>, c: seq<Value>, at: nat): (r: seq<Value>)
    decreases c, 0
  {
    if |c| == 0 then t
    else
      var cur := if at < |t| then t[at] else Undefined;
      var t' := match MergeEntry(deep, cur, c[0])
                case None => t
                case Some(v) => SetIndex(t, at, v);
      MergeItems(deep, t', c[1..], at + 1)
  }

  /** The properties `for (name in options)` enumerates, by kind of source. */
  function SourceFields(v: Value): seq<Field> {
    match v
    case Obj(fields) => fields
    case Arr(items) => seq(|items|, i requires 0 <= i < |items| => Field(NatToString(i), items[i]))
    case Str(s) => seq(|s|, i requires 0 <= i < |s| => Field(NatToString(i), Str([s[i]])))
    case _ => []
  }

  /** `arguments[0] || {}`, then a non-object target replaced by `{}`. */
  function TargetFields(target: Value): seq<Field> {
    if target.Obj? then target.fields else []
  }

  /** `_extend(deep, target, ...sources)` with at least one source. */
  function Extend(deep: bool, target: seq<Field>, sources: seq<Value>): (r: seq<Field>)
    ensures (forall i :: 0 <= i < |sources| ==> IsNullish(sources[i])) ==> r == target
    decreases |sources|
  {
    if |sources| == 0 then target
    else
      var t' := if IsNullish(sources[0]) then target else MergeFields(deep, target, SourceFields(sources[0]));
      Extend(deep, t', sources[1..])
  }

  // ---- the imperative merge, proved against the functions above ----

  /** The recursive body of `_extend` on one container source. */
  method MergeInto(deep: bool, target: Value, copy: Value) returns (r: Value)
    requires IsContainer(target) && IsContainer(copy) && (target.Arr? <==> copy.Arr?)
    ensures r == Merge(deep, target, copy)
    decreases copy, 1
  {
    if copy.Obj? {
      var t := MergeFieldsInto(deep, target.fields, copy.fields);
      r := Obj(t);
    } else {
      var t := target.items;
      var c := copy.items;
      var i := 0;
      while i < |c|
        invariant 0 <= i <= |c|
        invariant MergeItems(deep, target.items, c, 0) == MergeItems(deep, t, c[i..], i)
      {
        assert c[i..][1..] == c[i + 1..];
        var cur := if i < |t| then t[i] else Undefined;
        var e := EntryInto(deep, cur, c[i]);
        if e.Some? {
          t := SetIndex(t, i, e.value);
        }
        i := i + 1;
      }
      r := Arr(t);
    }
  }

  method MergeFieldsInto(deep: bool, t0: seq<Field>, c: seq<Field>) returns (t: seq<Field>)
    ensures t == MergeFields(deep, t0, c)
    decreases c, 0
  {
    t := t0;
    var j := 0;
    while j < |c|
      invariant 0 <= j <= |c|
      invariant MergeFields(deep, t0, c) == MergeFields(deep, t, c[j..])
    {
      assert c[j..][1..] == c[j + 1..];
      var name := c[j].key;
      if name != ProtoKey {
        var e := EntryInto(deep, Get(t, name), c[j].val);
        if e.Some? {
          t := Put(t, name, e.value);
        }
      }
      j := j + 1;
    }
  }

  method EntryInto(deep: bool, cur: Value, copy: Value) returns (r: Option<Value>)
    ensures r == MergeEntry(deep, cur, copy)
    decreases copy, 2
  {
    if deep && IsContainer(copy) {
      var v := MergeInto(deep, CloneFor(cur, copy), copy);
      r := Some(v);
    } else if copy != Undefined {
      r := Some(copy);
    } else {
      r := None;
    }
  }

  /** `_extend(deep, target, ...sources)`: the outer loop over the sources. */
  method ExtendAll(deep: bool, target: Value, sources: seq<Value>) returns (r: seq<Field>)
    ensures r == Extend(deep, TargetFields(target), sources)
  {
    r := TargetFields(target);
    var i := 0;
    while i < |sources|
      invariant 0 <= i <= |sources|
      invariant Extend(deep, TargetFields(target), sources) == Extend(deep, r, sources[i..])
    {
      assert sources[i..][1..] == sources[i + 1..];
      if !IsNullish(sources[i]) {
        r := MergeFieldsInto(deep, r, SourceFields(sources[i]));
      }
      i := i + 1;
    }
  }

  // ---- properties of the merge ----

  /**
   * Shallow merging: a key takes the source's value when the source defines it
   * (and it is not `__proto__`), otherwise keeps the target's.
   */
  lemma {:induction false} ShallowLookup(t: seq<Field>, c: seq<Field>, k: string)
    requires UniqueKeys(c)
    ensures Get(MergeFields(false, t, c), k) ==
            if k != ProtoKey && Get(c, k) != Undefined then Get(c, k) else Get(t, k)
    decreases c
  {
    if |c| > 0 {
      var name := c[0].key;
      var t' := if name == ProtoKey then t
                else match MergeEntry(false, Get(t, name), c[0].val)
                  case None => t
                  case Some(v) => Put(t, name, v);
      ShallowLookup(t', c[1..], k);
      if k == name {
        assert !HasKey(c[1..], k);
      }
    }
  }

  /** Later sources override earlier ones key by key. */
  lemma LaterSourceWins(t: seq<Field>, a: seq<Field>, b: seq<Field>, k: string)
    requires UniqueKeys(a) && UniqueKeys(b) && k != ProtoKey
    ensures Get(Extend(false, t, [Obj(a), Obj(b)]), k) ==
            if Get(b, k) != Undefined then Get(b, k)
            else if Get(a, k) != Undefined then Get(a, k)
            else Get(t, k)
  {
    var ta := MergeFields(false, t, a);
    ShallowLookup(t, a, k);
    ShallowLookup(ta, b, k);
    ExtendTwo(t, a, b);
  }

  /** Extending with two objects merges the first, then the second. */
  lemma ExtendTwo(t: seq<Field>, a: seq<Field>, b: seq<Field>)
    ensures Extend(false, t, [Obj(a), Obj(b)]) == MergeFields(false, MergeFields(false, t, a), b)
  {
    var ta := MergeFields(false, t, a);
    assert [Obj(a), Obj(b)][1..] == [Obj(b)] && [Obj(b)][1..] == [];
    assert Extend(false, t, [Obj(a), Obj(b)]) == Extend(false, ta, [Obj(b)]);
    assert Extend(false, ta, [Obj(b)]) == Extend(false, MergeFields(false, ta, b), []);
  }

  /** `__proto__` is never written, in either mode. */
  lemma {:induction false} ProtoUntouched(deep: bool, t: seq<Field>, c: seq<Field>)
    ensures Get(MergeFields(deep, t, c), ProtoKey) == Get(t, ProtoKey)
    decreases c
  {
    if |c| > 0 {
      var name := c[0].key;
      var t' := if name == ProtoKey then t
                else match MergeEntry(deep, Get(t, name), c[0].val)
                  case None => t
                  case Some(v) => Put(t, name, v);
      ProtoUntouched(deep, t', c[1..]);
    }
  }

  /**
   * A value a deep copy reproduces exactly: no undefined entries (never
   * copied), no `__proto__` keys, and distinct property names at every level.
   */
  predicate Clean(v: Value)
    decreases v, 1
  {
    match v
    case Obj(fields) => UniqueKeys(fields) && CleanFields(fields)
    case Arr(items) => CleanItems(items)
    case _ => true
  }

  predicate CleanFields(fs: seq<Field>)
    decreases fs, 0
  {
    |fs| == 0 ||
    (fs[0].key != ProtoKey && fs[0].val != Undefined && Clean(fs[0].val) && CleanFields(fs[1..]))
  }

  predicate CleanItems(xs: seq<Value>)
    decreases xs, 0
  {
    |xs| == 0 || (xs[0] != Undefined && Clean(xs[0]) && CleanItems(xs[1..]))
  }

  /** Deep mode clones: deep-extending an empty target with a clean value gives that value back. */
  lemma {:induction false} DeepCloneExact(v: Value)
    requires IsContainer(v) && Clean(v)
    ensures Merge(true, if v.Arr? then Arr([]) else Obj([]), v) == v
    decreases v, 1
  {
    if v.Obj? {
      assert [] + v.fields == v.fields;
      DeepCloneFields([], v.fields);
      assert [] + v.fields == v.fields;
    } else {
      DeepCloneItems([], v.items);
      assert [] + v.items == v.items;
    }
  }

  /** Entry by entry, the clone appends exactly the source's entries. */
  lemma {:induction false} DeepCloneEntry(v: Value)
    requires v != Undefined && Clean(v)
    ensures MergeEntry(true, Undefined, v) == Some(v)
    decreases v, 2
  {
    if IsContainer(v) {
      DeepCloneExact(v);
    }
  }

  lemma {:induction false} DeepCloneFields(t: seq<Field>, c: seq<Field>)
    requires UniqueKeys(t + c) && CleanFields(c)
    ensures MergeFields(true, t, c) == t + c
    decreases c, 0
  {
    if |c| > 0 {
      var name := c[0].key;
      UniqueAppendFresh(t, c);
      DeepCloneEntry(c[0].val);
      PutFresh(t, name, c[0].val);
      assert t + c == (t + [c[0]]) + c[1..];
      DeepCloneFields(t + [c[0]], c[1..]);
    }
  }

  lemma {:induction false} DeepCloneItems(t: seq<Value>, c: seq<Value>)
    requires CleanItems(c)
    ensures MergeItems(true, t, c, |t|) == t + c
    decreases c, 0
  {
    if |c| > 0 {
      DeepCloneEntry(c[0]);
      assert SetIndex(t, |t|, c[0]) == t + [c[0]];
      assert t + c == (t + [c[0]]) + c[1..];
      DeepCloneItems(t + [c[0]], c[1..]);
    }
  }

  /** With distinct names, the first new name is absent from what precedes it. */
  lemma {:induction false} UniqueAppendFresh(t: seq<Field>, c: seq<Field>)
    requires |c| > 0 && UniqueKeys(t + c)
    ensures !HasKey(t, c[0].key) && UniqueKeys(t + [c[0]])
    decreases |t|
  {
    if |t| > 0 {
      assert (t + c)[1..] == t[1..] + c;
      UniqueAppendFresh(t[1..], c);
      HasKeyAppend(t[1..], c, t[0].key);
      HasKeyAppend(t[1..], [c[0]], t[0].key);
      assert (t + [c[0]])[1..] == t[1..] + [c[0]];
    } else {
      assert t + [c[0]] == [c[0]];
    }
  }

  lemma {:induction false} HasKeyAppend(a: seq<Field>, b: seq<Field>, k: string)
    ensures HasKey(a + b, k) <==> HasKey(a, k) || HasKey(b, k)
  {
    if |a| > 0 {
      assert (a + b)[1..] == a[1..] + b;
      HasKeyAppend(a[1..], b, k);
    } else {
      assert a + b == b;
    }
  }

  /** Writing a new name appends it at the end. */
  lemma {:induction false} PutFresh(t: seq<Field>, k: string, v: Value)
    requires !HasKey(t, k)
    ensures Put(t, k, v) == t + [Field(k, v)]
  {
    if |t| > 0 {
      PutFresh(t[1..], k, v);
      assert [t[0]] + (t[1..] + [Field(k, v)]) == t + [Field(k, v)];
    }
  }

  // ---- _map and _each ----

  /** The (value, key-or-index) pairs `_map` and `_each` visit, in order. */
  function Entries(elems: Value): seq<(Value, Value)> {
    match elems
    case Arr(items) => seq(|items|, i requires 0 <= i < |items| => (items[i], Num(i)))
    case Obj(fields) => seq(|fields|, i requires 0 <= i < |fields| => (fields[i].val, Str(fields[i].key)))
    case _ => []
  }

  /** `[].flat()`: array elements are spread one level, others kept. */
  function Flat(xs: seq<Value>): (r: seq<Value>)
    ensures (forall i :: 0 <= i < |xs| ==> !xs[i].Arr?) ==> r == xs
  {
    if |xs| == 0 then []
    else (if xs[0].Arr? then xs[0].items else [xs[0]]) + Flat(xs[1..])
  }

  /** The callback results `_map` keeps, before flattening. */
  function Kept(es: seq<(Value, Value)>, callback: (Value, Value, Value) -> Value, arg: Value): seq<Value> {
    if |es| == 0 then []
    else
      var v := callback(es[0].0, es[0].1, arg);
      (if IsNullish(v) then [] else [v]) + Kept(es[1..], callback, arg)
  }

  /** No kept callback result is null or undefined. */
  lemma {:induction false} KeptNoNullish(es: seq<(Value, Value)>, callback: (Value, Value, Value) -> Value, arg: Value)
    ensures forall i :: 0 <= i < |Kept(es, callback, arg)| ==> !IsNullish(Kept(es, callback, arg)[i])
  {
    if |es| > 0 {
      KeptNoNullish(es[1..], callback, arg);
      var v := callback(es[0].0, es[0].1, arg);
      var r := Kept(es, callback, arg);
      var rest := Kept(es[1..], callback, arg);
      assert r == (if IsNullish(v) then [] else [v]) + rest;
      forall i | 0 <= i < |r| ensures !IsNullish(r[i]) {
        if IsNullish(v) {
          assert r[i] == rest[i];
        } else if i == 0 {
          assert r[i] == v;
        } else {
          assert r[i] == rest[i - 1];
        }
      }
    }
  }

  /** The entries from `i` on: the `i`-th entry's result if it is kept, then the rest. */
  lemma KeptAt(es: seq<(Value, Value)>, callback: (Value, Value, Value) -> Value, arg: Value, i: nat)
    requires i < |es|
    ensures var v := callback(es[i].0, es[i].1, arg);
            Kept(es[i..], callback, arg) == (if IsNullish(v) then [] else [v]) + Kept(es[i + 1..], callback, arg)
  {
    assert es[i..][1..] == es[i + 1..];
  }

  /** `_map(elems, callback, arg)`. */
  method Map(elems: Value, callback: (Value, Value, Value) -> Value, arg: Value) returns (ret: seq<Value>)
    ensures ret == Flat(Kept(Entries(elems), callback, arg))
  {
    var es := Entries(elems);
    var acc := KeepResults(es, callback, arg);
    ret := Flat(acc);
  }

  /** The translating loop of `_map`: calls the callback on each entry, keeping the non-null results. */
  method KeepResults(es: seq<(Value, Value)>, callback: (Value, Value, Value) -> Value, arg: Value) returns (acc: seq<Value>)
    ensures acc == Kept(es, callback, arg)
  {
    acc := [];
    var i := 0;
    while i < |es|
      invariant 0 <= i <= |es|
      invariant acc + Kept(es[i..], callback, arg) == Kept(es, callback, arg)
    {
      KeptAt(es, callback, arg, i);
      var value := callback(es[i].0, es[i].1, arg);
      if !IsNullish(value) {
        assert acc + ([value] + Kept(es[i + 1..], callback, arg)) == (acc + [value]) + Kept(es[i + 1..], callback, arg);
        acc := acc + [value];
      } else {
        assert [] + Kept(es[i + 1..], callback, arg) == Kept(es[i + 1..], callback, arg);
      }
      i := i + 1;
    }
  }

  /** A callback that never returns null, undefined or an array makes `_map` a plain map. */
  lemma {:induction false} MapPlain(es: seq<(Value, Value)>, callback: (Value, Value, Value) -> Value, arg: Value)
    requires forall i :: 0 <= i < |es| ==> var v := callback(es[i].0, es[i].1, arg); !IsNullish(v) && !v.Arr?
    ensures Flat(Kept(es, callback, arg)) == seq(|es|, i requires 0 <= i < |es| => callback(es[i].0, es[i].1, arg))
  {
    KeptAll(es, callback, arg);
  }

  lemma {:induction false} KeptAll(es: seq<(Value, Value)>, callback: (Value, Value, Value) -> Value, arg: Value)
    requires forall i :: 0 <= i < |es| ==> !IsNullish(callback(es[i].0, es[i].1, arg))
    ensures Kept(es, callback, arg) == seq(|es|, i requires 0 <= i < |es| => callback(es[i].0, es[i].1, arg))
  {
    if |es| > 0 {
      KeptAll(es[1..], callback, arg);
    }
  }

  /** A callback returning null or undefined everywhere gives an empty result. */
  lemma {:induction false} MapAllNull(es: seq<(Value, Value)>, callback: (Value, Value, Value) -> Value, arg: Value)
    requires forall i :: 0 <= i < |es| ==> IsNullish(callback(es[i].0, es[i].1, arg))
    ensures Kept(es, callback, arg) == []
  {
    if |es| > 0 {
      MapAllNull(es[1..], callback, arg);
    }
  }

  /**
   * `_each(obj, callback)`: visits entries in order and stops after the first
   * callback returning `false`. The result is how many callbacks ran.
   */
  method Each(elems: Value, callback: (Value, Value) -> Value) returns (visited: nat)
    ensures visited <= |Entries(elems)|
    ensures forall i :: 0 <= i < visited - 1 ==> callback(Entries(elems)[i].0, Entries(elems)[i].1) != Bool(false)
    ensures visited < |Entries(elems)| ==>
              visited > 0 && callback(Entries(elems)[visited - 1].0, Entries(elems)[visited - 1].1) == Bool(false)
  {
    var es := Entries(elems);
    var i := 0;
    while i < |es|
      invariant 0 <= i <= |es|
      invariant forall j :: 0 <= j < i ==> callback(es[j].0, es[j].1) != Bool(false)
    {
      if callback(es[i].0, es[i].1) == Bool(false) {
        return i + 1;
      }
      i := i + 1;
    }
    return i;
  }
}
