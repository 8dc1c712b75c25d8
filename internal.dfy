/**
 * The array and string helpers of `src/core/core.internal.js` that the table
 * engine is built on.
 */
module Internal {
  import opened Wrappers
  import opened JsValue
  import Sorting

  // ---- _unique / _areAllUnique ----

  predicate NoDuplicates<T(==)>(s: seq<T>) {
    forall i, j :: 0 <= i < j < |s| ==> s[i] != s[j]
  }

  /** `Array.prototype.indexOf`: the first position holding `x`, or -1. */
  function IndexOf<T(==)>(s: seq<T>, x: T): (r: int)
    ensures -1 <= r < |s|
    ensures r >= 0 ==> s[r] == x && forall j :: 0 <= j < r ==> s[j] != x
    ensures r < 0 <==> x !in s
  {
    if |s| == 0 then -1
    else if s[0] == x then 0
    else
      var k := IndexOf(s[1..], x);
      if k < 0 then -1 else k + 1
  }

  /** The distinct elements of `s`, each at the position of its first occurrence. */
  function Distinct<T(==,!new)>(s: seq<T>): (r: seq<T>)
    ensures forall x :: x in r <==> x in s
    ensures NoDuplicates(r)
  {
    if |s| == 0 then []
    else
      var d := Distinct(s[..|s| - 1]);
      assert s == s[..|s| - 1] + [s[|s| - 1]];
      if s[|s| - 1] in d then d else d + [s[|s| - 1]]
  }

  /** A list without repeats is its own distinct list. */
  lemma {:induction false} DistinctOfUnique<T(!new)>(s: seq<T>)
    requires NoDuplicates(s)
    ensures Distinct(s) == s
  {
    if |s| > 0 {
      DistinctOfUnique(s[..|s| - 1]);
      assert s[|s| - 1] !in s[..|s| - 1];
      assert s == s[..|s| - 1] + [s[|s| - 1]];
    }
  }

  /** Appending elements already present changes nothing. */
  lemma {:induction false} DistinctAppendSeen<T(!new)>(a: seq<T>, b: seq<T>)
    requires forall x :: x in b ==> x in a
    ensures Distinct(a + b) == Distinct(a)
  {
    if |b| > 0 {
      var b' := b[..|b| - 1];
      var ab := a + b;
      assert ab[..|ab| - 1] == a + b';
      assert forall x :: x in b' ==> x in b;
      DistinctAppendSeen(a, b');
      assert b[|b| - 1] in b;
      assert ab[|ab| - 1] == b[|b| - 1];
      assert ab[|ab| - 1] in Distinct(a + b');
      assert Distinct(ab) == Distinct(ab[..|ab| - 1]);
    } else {
      assert a + b == a;
    }
  }

  /** A selector list naming the same thing twice resolves like naming it once. */
  lemma DistinctTwice<T(!new)>(s: seq<T>)
    ensures Distinct(s + s) == Distinct(s)
  {
    DistinctAppendSeen(s, s);
  }

  lemma {:induction false} NoDuplicatesMultiset<T>(s: seq<T>)
    ensures NoDuplicates(s) <==> forall x :: multiset(s)[x] <= 1
  {
    if |s| > 0 {
      var init := s[..|s| - 1];
      var last := s[|s| - 1];
      NoDuplicatesMultiset(init);
      assert s == init + [last];
      assert multiset(s) == multiset(init) + multiset{last};
      if NoDuplicates(s) {
        forall i | 0 <= i < |init| ensures init[i] != last {
          assert s[i] == init[i];
        }
        assert last !in init;
        assert NoDuplicates(init) by {
          forall i, j | 0 <= i < j < |init| ensures init[i] != init[j] {
            assert s[i] == init[i] && s[j] == init[j];
          }
        }
      }
      if forall x :: multiset(s)[x] <= 1 {
        assert multiset(init)[last] == 0;
        assert forall x :: multiset(init)[x] <= multiset(s)[x];
        assert NoDuplicates(init);
        assert NoDuplicates(s) by {
          forall i, j | 0 <= i < j < |s| ensures s[i] != s[j] {
            if j == |s| - 1 {
              assert s[i] in multiset(init);
            } else {
              assert s[i] == init[i] && s[j] == init[j];
            }
          }
        }
      }
    }
  }

  function IntOrder(): (int, int) -> int {
    (a: int, b: int) => a - b
  }

  lemma IntOrderStrict()
    ensures Sorting.Consistent(IntOrder()) && Sorting.Strict(IntOrder())
  {
  }

  lemma NoDuplicatesPermutation<T>(a: seq<T>, b: seq<T>)
    requires multiset(a) == multiset(b)
    ensures NoDuplicates(a) <==> NoDuplicates(b)
  {
    NoDuplicatesMultiset(a);
    NoDuplicatesMultiset(b);
  }

  lemma SortedAdjacentUnique(s: seq<int>)
    requires Sorting.Sorted(s, IntOrder())
    requires forall k :: 1 <= k < |s| ==> s[k] != s[k - 1]
    ensures NoDuplicates(s)
  {
    forall i, j | 0 <= i < j < |s| ensures s[i] != s[j] {
      assert s[i] <= s[j - 1] <= s[j];
    }
  }

  /**
   * `_areAllUnique`: true for fewer than two elements, otherwise iff no two
   * neighbours of a sorted copy are equal.
   */
  method AreAllUnique(src: seq<int>) returns (unique: bool)
    ensures unique <==> NoDuplicates(src)
  {
    if |src| < 2 {
      return true;
    }
    var sorted := Sorting.InsertionSort(src, IntOrder());
    IntOrderStrict();
    Sorting.InsertionSortSorted(src, IntOrder());
    NoDuplicatesPermutation(src, sorted);
    var last := sorted[0];
    var i := 1;
    while i < |sorted|
      invariant 1 <= i <= |sorted|
      invariant last == sorted[i - 1]
      invariant forall k :: 1 <= k < i ==> sorted[k] != sorted[k - 1]
    {
      if sorted[i] == last {
        assert !NoDuplicates(sorted);
        return false;
      }
      last := sorted[i];
      i := i + 1;
    }
    SortedAdjacentUnique(sorted);
    return true;
  }

  /**
   * `_unique`: `Array.from(new Set(src))` where `Set` exists (a Set iterates
   * in first-insertion order), otherwise a copy when all elements differ,
   * otherwise a first-occurrence scan. Every path returns the distinct list.
   */
  method Unique(src: seq<int>, hasSet: bool) returns (out: seq<int>)
    ensures out == Distinct(src)
  {
    if hasSet {
      return Distinct(src);
    }
    var allUnique := AreAllUnique(src);
    if allUnique {
      DistinctOfUnique(src);
      return src;
    }
    out := [];
    var i := 0;
    while i < |src|
      invariant 0 <= i <= |src|
      invariant out == Distinct(src[..i])
    {
      var val := src[i];
      var seen := false;
      var j := 0;
      while j < |out|
        invariant 0 <= j <= |out|
        invariant seen <==> val in out[..j]
      {
        if out[j] == val {
          seen := true;
          break;
        }
        j := j + 1;
      }
      assert seen <==> val in out by {
        if !seen { assert out[..j] == out; }
      }
      if !seen {
        out := out + [val];
      }
      assert src[..i + 1][..i] == src[..i];
      i := i + 1;
    }
    assert src[..i] == src;
  }

  // ---- _range ----

  /** The integers from `lo` up to, not including, `hi`. */
  function Interval(lo: int, hi: int): (r: seq<int>)
    ensures |r| == if hi > lo then hi - lo else 0
    ensures forall x :: x in r <==> lo <= x < hi
    ensures NoDuplicates(r)
    ensures Sorting.Sorted(r, IntOrder())
    decreases hi - lo
  {
    if hi <= lo then []
    else
      var r := Interval(lo, hi - 1) + [hi - 1];
      assert forall k :: 0 <= k < |r| - 1 ==> r[k] in Interval(lo, hi - 1);
      r
  }

  lemma IntervalAt(lo: int, hi: int, k: int)
    requires 0 <= k < |Interval(lo, hi)|
    ensures Interval(lo, hi)[k] == lo + k
    decreases hi - lo
  {
    if k < hi - lo - 1 { IntervalAt(lo, hi - 1, k); }
  }

  /** `_range(len)` is `[0, len)`; `_range(a, b)` is `[a, b)`. */
  method Range(len: int, start: Option<int>) returns (out: seq<int>)
    ensures start.None? ==> out == Interval(0, len)
    ensures start.Some? ==> out == Interval(len, start.value)
  {
    var lo, hi := 0, len;
    if start.Some? {
      lo, hi := len, start.value;
    }
    out := [];
    var i := lo;
    while i < hi
      invariant i == lo || lo < i <= hi
      invariant out == Interval(lo, i)
    {
      out := out + [i];
      i := i + 1;
    }
  }

  // ---- _removeEmpty ----

  /** The truthy elements of `a`, in order. */
  function Truthies(a: seq<Value>): (r: seq<Value>)
    ensures |r| <= |a|
    ensures forall x :: x in r <==> x in a && Truthy(x)
  {
    if |a| == 0 then []
    else
      assert a == a[..|a| - 1] + [a[|a| - 1]];
      Truthies(a[..|a| - 1]) + (if Truthy(a[|a| - 1]) then [a[|a| - 1]] else [])
  }

  lemma {:induction false} TruthiesOfTruthy(a: seq<Value>)
    requires forall i :: 0 <= i < |a| ==> Truthy(a[i])
    ensures Truthies(a) == a
  {
    if |a| > 0 {
      TruthiesOfTruthy(a[..|a| - 1]);
      assert a == a[..|a| - 1] + [a[|a| - 1]];
    }
  }

  /** Removing empties twice is removing them once. */
  lemma TruthiesIdempotent(a: seq<Value>)
    ensures Truthies(Truthies(a)) == Truthies(a)
  {
    var r := Truthies(a);
    assert forall i :: 0 <= i < |r| ==> r[i] in r;
    TruthiesOfTruthy(r);
  }

  /** `_removeEmpty`: keeps exactly the truthy elements, in order. */
  method RemoveEmpty(a: seq<Value>) returns (out: seq<Value>)
    ensures out == Truthies(a)
  {
    out := [];
    for i := 0 to |a|
      invariant out == Truthies(a[..i])
    {
      if Truthy(a[i]) {
        out := out + [a[i]];
      }
      assert a[..i + 1][..i] == a[..i];
    }
    assert a[..|a|] == a;
  }

  // ---- _pluck / _pluck_order ----

  /** The value `_pluck` takes from one element, when it takes one. */
  function PluckOne(e: Value, prop: string, prop2: Option<string>): Option<Value> {
    match prop2
    case None => if Truthy(e) then Some(Prop(e, prop)) else None
    case Some(p2) => if Truthy(e) && Truthy(Prop(e, prop)) then Some(Prop(Prop(e, prop), p2)) else None
  }

  /** `_pluck(a, prop, prop2)`, element by element. */
  function PluckSpec(a: seq<Value>, prop: string, prop2: Option<string>): (r: seq<Value>)
    ensures |r| <= |a|
  {
    if |a| == 0 then []
    else
      PluckSpec(a[..|a| - 1], prop, prop2)
        + match PluckOne(a[|a| - 1], prop, prop2) { case Some(v) => [v] case None => [] }
  }

  /** Without a second key, one value is taken from each truthy element. */
  lemma {:induction false} PluckCountsTruthy(a: seq<Value>, prop: string)
    ensures |PluckSpec(a, prop, None)| == |Truthies(a)|
  {
    if |a| > 0 {
      PluckCountsTruthy(a[..|a| - 1], prop);
    }
  }

  /** Over objects only, `_pluck` is the property read element by element. */
  lemma {:induction false} PluckObjects(a: seq<Value>, prop: string)
    requires forall i :: 0 <= i < |a| ==> a[i].Obj?
    ensures |PluckSpec(a, prop, None)| == |a|
    ensures forall i :: 0 <= i < |a| ==> PluckSpec(a, prop, None)[i] == Prop(a[i], prop)
  {
    if |a| > 0 {
      PluckObjects(a[..|a| - 1], prop);
    }
  }

  method Pluck(a: seq<Value>, prop: string, prop2: Option<string>) returns (out: seq<Value>)
    ensures out == PluckSpec(a, prop, prop2)
  {
    out := [];
    for i := 0 to |a|
      invariant out == PluckSpec(a[..i], prop, prop2)
    {
      var picked := PluckOne(a[i], prop, prop2);
      if picked.Some? {
        out := out + [picked.value];
      }
      assert a[..i + 1][..i] == a[..i];
    }
    assert a[..|a|] == a;
  }

  /** `a[order[i]]` for each index: `undefined` where the index is out of range. */
  function Pick(a: seq<Value>, order: seq<int>): (r: seq<Value>)
    ensures |r| == |order|
    ensures forall i :: 0 <= i < |order| ==> r[i] == (if 0 <= order[i] < |a| then a[order[i]] else Undefined)
  {
    seq(|order|, i requires 0 <= i < |order| => if 0 <= order[i] < |a| then a[order[i]] else Undefined)
  }

  /** `_pluck_order(a, order, prop, prop2)`, following `order`. */
  function PluckOrderSpec(a: seq<Value>, order: seq<int>, prop: string, prop2: Option<string>): seq<Value> {
    if |order| == 0 then []
    else
      var k := order[|order| - 1];
      var e := if 0 <= k < |a| then a[k] else Undefined;
      PluckOrderSpec(a, order[..|order| - 1], prop, prop2)
        + match PluckOne(e, prop, prop2) { case Some(v) => [v] case None => [] }
  }

  /** Plucking through an index list is plucking the picked elements. */
  lemma {:induction false} PluckOrderIsPluckOfPick(a: seq<Value>, order: seq<int>, prop: string, prop2: Option<string>)
    ensures PluckOrderSpec(a, order, prop, prop2) == PluckSpec(Pick(a, order), prop, prop2)
  {
    if |order| > 0 {
      PluckOrderIsPluckOfPick(a, order[..|order| - 1], prop, prop2);
      assert Pick(a, order)[..|order| - 1] == Pick(a, order[..|order| - 1]);
    }
  }

  method PluckOrder(a: seq<Value>, order: seq<int>, prop: string, prop2: Option<string>) returns (out: seq<Value>)
    ensures out == PluckOrderSpec(a, order, prop, prop2)
  {
    out := [];
    for i := 0 to |order|
      invariant out == PluckOrderSpec(a, order[..i], prop, prop2)
    {
      var k := order[i];
      var e := if 0 <= k < |a| then a[k] else Undefined;
      var picked := PluckOne(e, prop, prop2);
      if picked.Some? {
        out := out + [picked.value];
      }
      assert order[..i + 1][..i] == order[..i];
    }
    assert order[..|order|] == order;
  }

  // ---- _flatten ----

  /** The non-array leaves of a value, left to right. */
  function Leaves(v: Value): seq<Value>
    decreases v, 1
  {
    match v
    case Arr(items) => LeavesOf(items)
    case _ => [v]
  }

  function LeavesOf(items: seq<Value>): seq<Value>
    decreases items, 0
  {
    if |items| == 0 then [] else LeavesOf(items[..|items| - 1]) + Leaves(items[|items| - 1])
  }

  lemma {:induction false} LeavesFlat(v: Value)
    ensures forall x :: x in Leaves(v) ==> !x.Arr?
    decreases v, 1
  {
    if v.Arr? { LeavesOfFlat(v.items); }
  }

  lemma {:induction false} LeavesOfFlat(items: seq<Value>)
    ensures forall x :: x in LeavesOf(items) ==> !x.Arr?
    decreases items, 0
  {
    if |items| > 0 {
      LeavesOfFlat(items[..|items| - 1]);
      LeavesFlat(items[|items| - 1]);
    }
  }

  /** An array with no nested arrays flattens to its own elements. */
  lemma {:induction false} LeavesOfFlatArray(items: seq<Value>)
    requires forall i :: 0 <= i < |items| ==> !items[i].Arr?
    ensures LeavesOf(items) == items
  {
    if |items| > 0 {
      LeavesOfFlatArray(items[..|items| - 1]);
      assert items == items[..|items| - 1] + [items[|items| - 1]];
    }
  }

  /** `_flatten(out, val)`: appends every nested leaf of `val` to `out`. */
  method Flatten(out: seq<Value>, val: Value) returns (result: seq<Value>)
    ensures result == out + Leaves(val)
    decreases val
  {
    match val
    case Arr(items) =>
      result := out;
      for i := 0 to |items|
        invariant result == out + LeavesOf(items[..i])
      {
        result := Flatten(result, items[i]);
        assert items[..i + 1][..i] == items[..i];
      }
      assert items[..|items|] == items;
    case _ =>
      result := out + [val];
  }

  // ---- _intVal ----

  predicate IsIntegerString(s: string) {
    (|s| > 0 && AllDigits(s)) || (|s| > 1 && (s[0] == '-' || s[0] == '+') && AllDigits(s[1..]))
  }

  function IntegerStringValue(s: string): int
    requires IsIntegerString(s)
  {
    if AllDigits(s) then DigitsValue(s)
    else if s[0] == '-' then -(DigitsValue(s[1..]) as int)
    else DigitsValue(s[1..])
  }

  /**
   * `_intVal`: a number is itself; a string is its integer value when, after
   * trimming, it is an optionally signed run of decimal digits; anything else
   * is `null`.
   */
  function IntVal(v: Value): (r: Option<int>)
    ensures v.Num? ==> r == Some(v.n)
    ensures !v.Num? && !v.Str? ==> r.None?
  {
    match v
    case Num(n) => Some(n)
    case Str(s) => if IsIntegerString(Trim(s)) then Some(IntegerStringValue(Trim(s))) else None
    case _ => None
  }

  /** A printed index reads back as the same index. */
  lemma IntValOfPrinted(n: nat)
    ensures IntVal(Str(NatToString(n))) == Some(n)
  {
    var s := NatToString(n);
    assert TrimStart(s) == s;
    assert TrimEnd(s) == s;
    NatToStringRoundTrip(n);
  }

  // ---- _stringToCss ----

  function EndsWithDigit(s: string): bool {
    |s| > 0 && IsDigit(s[|s| - 1])
  }

  /**
   * `_stringToCss`: `null` and negative numbers give `"0px"`, other numbers get
   * `"px"`, a string ending in a digit gets `"px"`, other strings pass through;
   * any other value has no `match` method and throws.
   */
  function StringToCss(v: Value): (r: Result<string>)
    ensures r.Ok? <==> v.Null? || v.Num? || v.Str?
    ensures r.Ok? ==> !EndsWithDigit(r.value)
    ensures v.Null? ==> r == Ok("0px")
    ensures v.Num? && v.n < 0 ==> r == Ok("0px")
    ensures v.Num? && v.n >= 0 ==> r == Ok(NatToString(v.n) + "px")
    ensures v.Str? && EndsWithDigit(v.s) ==> r == Ok(v.s + "px")
    ensures v.Str? && !EndsWithDigit(v.s) ==> r == Ok(v.s)
  {
    match v
    case Null => Ok("0px")
    case Num(n) => Ok(if n < 0 then "0px" else NatToString(n) + "px")
    case Str(s) => Ok(if EndsWithDigit(s) then s + "px" else s)
    case _ => Throw("s.match is not a function")
  }

  /** A CSS length made by `_stringToCss` is left alone by a second pass. */
  lemma StringToCssIdempotent(v: Value)
    requires StringToCss(v).Ok?
    ensures StringToCss(Str(StringToCss(v).value)) == StringToCss(v)
  {
  }

  // ---- _splitObjNotation ----

  /**
   * Tokens of `/(\\.|[^.])+/g`: maximal runs where a backslash takes the next
   * character with it and an unescaped dot separates; `cur` is the run so far.
   */
  function Tokens(s: string, cur: string): seq<string>
    decreases |s|
  {
    if |s| == 0 then (if cur == "" then [] else [cur])
    else if s[0] == '\\' && |s| >= 2 then Tokens(s[2..], cur + s[..2])
    else if s[0] == '.' then (if cur == "" then [] else [cur]) + Tokens(s[1..], "")
    else Tokens(s[1..], cur + [s[0]])
  }

  /** `s.replace(/\\\./g, ".")`. */
  function Unescape(s: string): (r: string)
    ensures |r| <= |s|
    decreases |s|
  {
    if |s| >= 2 && s[0] == '\\' && s[1] == '.' then "." + Unescape(s[2..])
    else if |s| == 0 then ""
    else [s[0]] + Unescape(s[1..])
  }

  /** `_splitObjNotation`: split on unescaped dots, then unescape; `[""]` when nothing matches. */
  function SplitObjNotation(str: string): (r: seq<string>)
    ensures |r| > 0
  {
    var parts := Tokens(str, "");
    if |parts| == 0 then [""]
    else seq(|parts|, i requires 0 <= i < |parts| => Unescape(parts[i]))
  }

  predicate PlainSegment(p: string) {
    |p| > 0 && '.' !in p && '\\' !in p
  }

  function JoinDots(parts: seq<string>): string
    requires |parts| > 0
  {
    if |parts| == 1 then parts[0] else parts[0] + "." + JoinDots(parts[1..])
  }

  lemma {:induction false} TokensPlain(p: string, rest: string, cur: string)
    requires '.' !in p && '\\' !in p
    ensures Tokens(p + rest, cur) == Tokens(rest, cur + p)
    decreases |p|
  {
    if |p| > 0 {
      assert (p + rest)[0] == p[0];
      assert (p + rest)[1..] == p[1..] + rest;
      TokensPlain(p[1..], rest, cur + [p[0]]);
      assert cur + [p[0]] + p[1..] == cur + p;
    } else {
      assert p + rest == rest;
      assert cur + p == cur;
    }
  }

  lemma {:induction false} TokensJoin(parts: seq<string>)
    requires |parts| > 0
    requires forall i :: 0 <= i < |parts| ==> PlainSegment(parts[i])
    ensures Tokens(JoinDots(parts), "") == parts
  {
    if |parts| == 1 {
      TokensPlain(parts[0], "", "");
      assert parts[0] + "" == parts[0];
      assert "" + parts[0] == parts[0];
    } else {
      var rest := JoinDots(parts[1..]);
      assert JoinDots(parts) == parts[0] + ("." + rest);
      TokensPlain(parts[0], "." + rest, "");
      assert "" + parts[0] == parts[0];
      assert ("." + rest)[0] == '.';
      assert ("." + rest)[1..] == rest;
      assert Tokens("." + rest, parts[0]) == [parts[0]] + Tokens(rest, "");
      TokensJoin(parts[1..]);
      assert parts == [parts[0]] + parts[1..];
    }
  }

  lemma {:induction false} UnescapePlain(p: string)
    requires '\\' !in p
    ensures Unescape(p) == p
    decreases |p|
  {
    if |p| > 0 {
      UnescapePlain(p[1..]);
      assert p == [p[0]] + p[1..];
    }
  }

  /** Dotted paths without escapes split back into their segments. */
  lemma SplitJoinRoundTrip(parts: seq<string>)
    requires |parts| > 0
    requires forall i :: 0 <= i < |parts| ==> PlainSegment(parts[i])
    ensures SplitObjNotation(JoinDots(parts)) == parts
  {
    TokensJoin(parts);
    forall i | 0 <= i < |parts| ensures Unescape(parts[i]) == parts[i] {
      UnescapePlain(parts[i]);
    }
  }

  /** An escaped dot stays inside its segment. */
  lemma SplitEscapedDot()
    ensures SplitObjNotation("a\\.b.c") == ["a.b", "c"]
  {
    calc {
      Tokens("a\\.b.c", "");
      { assert "a\\.b.c"[1..] == "\\.b.c"; assert "" + ['a'] == "a"; }
      Tokens("\\.b.c", "a");
      { assert "\\.b.c"[2..] == "b.c"; assert "a" + "\\.b.c"[..2] == "a\\."; }
      Tokens("b.c", "a\\.");
      { assert "b.c"[1..] == ".c"; assert "a\\." + ['b'] == "a\\.b"; }
      Tokens(".c", "a\\.b");
      { assert ".c"[1..] == "c"; }
      ["a\\.b"] + Tokens("c", "");
      { assert "c"[1..] == ""; assert "" + ['c'] == "c"; }
      ["a\\.b"] + Tokens("", "c");
      ["a\\.b", "c"];
    }
    assert Unescape("b") == "b";
    assert Unescape("\\.b") == "." + Unescape("b");
    assert Unescape("a\\.b") == ['a'] + Unescape("\\.b");
    assert Unescape("c") == "c";
    var r := SplitObjNotation("a\\.b.c");
    assert |r| == 2 && r[0] == "a.b" && r[1] == "c";
  }

  lemma SplitEmpty()
    ensures SplitObjNotation("") == [""]
    ensures SplitObjNotation("..") == [""]
  {
    assert Tokens("..", "") == [];
  }
}
