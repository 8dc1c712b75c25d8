/**
 * JavaScript values as DataTables handles them: cell data, selector atoms,
 * option objects and registry entries. Numbers are integers (floating point
 * and NaN are not modelled); functions are opaque handles whose behaviour is
 * supplied by the caller; `Node` is a DOM node that DataTables has tagged with
 * its row index (`_DT_RowIndex`) and/or cell index (`_DT_CellIndex`).
 */
module JsValue {
  import opened Wrappers

  datatype CellPos = CellPos(row: nat, column: nat)

  datatype NodeRef = NodeRef(rowIndex: Option<nat>, cellIndex: Option<CellPos>)

  datatype Value =
    | Undefined
    | Null
    | Bool(b: bool)
    | Num(n: int)
    | Str(s: string)
    | Arr(items: seq<Value>)
    | Obj(fields: seq<Field>)
    | Fn(id: nat)
    | Node(ref: NodeRef)

  /** One own property of a plain object, in insertion order. */
  datatype Field = Field(key: string, val: Value)

  /** JavaScript truthiness (`!!v`). */
  predicate Truthy(v: Value) {
    match v
    case Undefined => false
    case Null => false
    case Bool(b) => b
    case Num(n) => n != 0
    case Str(s) => s != ""
    case _ => true
  }

  /** `_empty`: falsy, `true`, or the dash DataTables shows for missing data. */
  predicate IsEmpty(v: Value) {
    !Truthy(v) || v == Bool(true) || v == Str("-")
  }

  lemma EmptyExactly(v: Value)
    ensures IsEmpty(v) <==>
      v in {Undefined, Null, Bool(false), Bool(true), Num(0), Str(""), Str("-")}
  {
  }

  /** `v === null || v === undefined`, the test behind `!= null` in the source. */
  predicate IsNullish(v: Value) {
    v == Undefined || v == Null
  }

  // ---- plain objects as ordered property lists ----

  /** Property names are distinct, as in any JavaScript object. */
  predicate UniqueKeys(fields: seq<Field>) {
    |fields| == 0 || (!HasKey(fields[1..], fields[0].key) && UniqueKeys(fields[1..]))
  }

  /** `key in o` for an own property. */
  predicate HasKey(fields: seq<Field>, key: string) {
    |fields| > 0 && (fields[0].key == key || HasKey(fields[1..], key))
  }

  /** `o[key]`: the property's value, or `undefined` when it is absent. */
  function Get(fields: seq<Field>, key: string): (r: Value)
    ensures !HasKey(fields, key) ==> r == Undefined
  {
    if |fields| == 0 then Undefined
    else if fields[0].key == key then fields[0].val
    else Get(fields[1..], key)
  }

  /** `o[key] = v`: overwrites the property in place, or appends a new one. */
  function Put(fields: seq<Field>, key: string, v: Value): (r: seq<Field>)
    ensures Get(r, key) == v
    ensures forall k :: k != key ==> Get(r, k) == Get(fields, k)
    ensures forall k :: HasKey(r, k) <==> HasKey(fields, k) || k == key
    ensures UniqueKeys(fields) ==> UniqueKeys(r)
  {
    if |fields| == 0 then [Field(key, v)]
    else if fields[0].key == key then [Field(key, v)] + fields[1..]
    else
      var rest := Put(fields[1..], key, v);
      assert ([fields[0]] + rest)[1..] == rest;
      [fields[0]] + rest
  }

  /**
   * `v[key]` on a value known to be non-null: a plain object's own property,
   * an array's or a string's `length`, an element or a one-character string
   * for a canonical decimal index (no leading zero), `undefined` otherwise.
   */
  function Prop(v: Value, key: string): (r: Value)
    ensures v.Arr? && key == "length" ==> r == Num(|v.items|)
    ensures v.Str? && key == "length" ==> r == Num(|v.s|)
    ensures v.Arr? && !IsIndex(key) && key != "length" ==> r == Undefined
  {
    match v
    case Obj(fields) => Get(fields, key)
    case Arr(items) =>
      if key == "length" then Num(|items|)
      else if IsIndex(key) && DigitsValue(key) < |items| then items[DigitsValue(key)] else Undefined
    case Str(s) =>
      if key == "length" then Num(|s|)
      else if IsIndex(key) && DigitsValue(key) < |s| then Str([s[DigitsValue(key)]]) else Undefined
    case _ => Undefined
  }

  /** A canonical array index: decimal digits with no leading zero, or `0` itself. */
  predicate IsIndex(key: string) {
    |key| > 0 && AllDigits(key) && (key[0] != '0' || key == "0")
  }

  /** Only 0 is printed with a leading zero. */
  lemma {:induction false} NatToStringLeading(n: nat)
    ensures NatToString(n)[0] == '0' <==> n == 0
  {
    if n >= 10 {
      NatToStringLeading(n / 10);
      assert NatToString(n)[0] == NatToString(n / 10)[0];
    }
  }

  /** Reading an array at a printed index gives the element there. */
  lemma PropAtPrinted(items: seq<Value>, i: nat)
    requires i < |items|
    ensures Prop(Arr(items), NatToString(i)) == items[i]
  {
    NatToStringLeading(i);
    NatToStringRoundTrip(i);
  }

  // ---- whitespace ----

  /** The white space and line terminators `String.prototype.trim` removes. */
  predicate IsSpace(c: char) {
    || c in {' ', '\t', '\n', '\r', '\U{B}', '\U{C}', '\U{A0}', '\U{1680}', '\U{2028}', '\U{2029}',
             '\U{202F}', '\U{205F}', '\U{3000}', '\U{FEFF}'}
    || '\U{2000}' <= c <= '\U{200A}'
  }

  function TrimStart(s: string): (r: string)
    ensures |r| <= |s| && r == s[|s| - |r|..]
    ensures |r| > 0 ==> !IsSpace(r[0])
  {
    if |s| > 0 && IsSpace(s[0]) then TrimStart(s[1..]) else s
  }

  /** `TrimStart` removes only white space. */
  lemma {:induction false} TrimStartSpaces(s: string)
    ensures forall k :: 0 <= k < |s| - |TrimStart(s)| ==> IsSpace(s[k])
  {
    if |s| > 0 && IsSpace(s[0]) {
      TrimStartSpaces(s[1..]);
    }
  }

  function TrimEnd(s: string): (r: string)
    ensures |r| <= |s| && r == s[..|r|]
    ensures |r| > 0 ==> !IsSpace(r[|r| - 1])
  {
    if |s| > 0 && IsSpace(s[|s| - 1]) then TrimEnd(s[..|s| - 1]) else s
  }

  /** `TrimEnd` keeps a first character that is not white space. */
  lemma {:induction false} TrimEndKeepsHead(s: string)
    requires |s| > 0 && !IsSpace(s[0])
    ensures |TrimEnd(s)| > 0 && TrimEnd(s)[0] == s[0]
  {
    if IsSpace(s[|s| - 1]) {
      TrimEndKeepsHead(s[..|s| - 1]);
    }
  }

  /** `TrimEnd` removes only white space. */
  lemma {:induction false} TrimEndSpaces(s: string)
    ensures forall k :: |TrimEnd(s)| <= k < |s| ==> IsSpace(s[k])
  {
    if |s| > 0 && IsSpace(s[|s| - 1]) {
      TrimEndSpaces(s[..|s| - 1]);
    }
  }

  /** `String.prototype.trim`. */
  function Trim(s: string): (r: string)
    ensures |r| <= |s|
    ensures |r| > 0 ==> !IsSpace(r[0]) && !IsSpace(r[|r| - 1])
    ensures exists i, j :: 0 <= i <= j <= |s| && r == s[i..j] &&
                           forall k :: 0 <= k < i || j <= k < |s| ==> IsSpace(s[k])
  {
    var t := TrimStart(s);
    var r := TrimEnd(t);
    assert |r| > 0 ==> r[0] == t[0];
    var i := |s| - |t|;
    SliceOfSlice(s, t, r, i);
    TrimStartSpaces(s);
    BackSpaces(s, t, i);
    TrimSlice(s, r, i, i + |r|);
    r
  }

  /** The witness for `Trim`: a slice with only white space on either side of it. */
  lemma TrimSlice(s: string, r: string, i: nat, j: nat)
    requires i <= j <= |s| && r == s[i..j]
    requires forall k :: 0 <= k < i ==> IsSpace(s[k])
    requires forall k :: j <= k < |s| ==> IsSpace(s[k])
    ensures exists i, j :: 0 <= i <= j <= |s| && r == s[i..j] &&
                           forall k :: 0 <= k < i || j <= k < |s| ==> IsSpace(s[k])
  {
    assert forall k :: 0 <= k < i || j <= k < |s| ==> IsSpace(s[k]);
  }

  lemma SliceOfSlice(s: string, t: string, r: string, i: nat)
    requires i <= |s| && t == s[i..] && |r| <= |t| && r == t[..|r|]
    ensures r == s[i..i + |r|]
  {
    forall k | 0 <= k < |r| ensures r[k] == s[i + k] {
      assert r[k] == t[k];
    }
  }

  lemma BackSpaces(s: string, t: string, i: nat)
    requires i <= |s| && t == s[i..]
    ensures forall k :: i + |TrimEnd(t)| <= k < |s| ==> IsSpace(s[k])
  {
    TrimEndSpaces(t);
    forall k | i + |TrimEnd(t)| <= k < |s| ensures IsSpace(s[k]) {
      assert s[k] == t[k - i];
    }
  }


  lemma {:induction false} TrimIdempotent(s: string)
    ensures Trim(Trim(s)) == Trim(s)
  {
    var r := Trim(s);
    if |r| > 0 {
      assert TrimStart(r) == r;
      assert TrimEnd(r) == r;
    }
  }

  // ---- decimal digit strings ----

  predicate IsDigit(c: char) {
    '0' <= c <= '9'
  }

  predicate AllDigits(s: string) {
    forall i :: 0 <= i < |s| ==> IsDigit(s[i])
  }

  function DigitChar(d: nat): (c: char)
    requires d < 10
    ensures IsDigit(c) && c as int - '0' as int == d
  {
    ('0' as int + d) as char
  }

  /** `String(n)` for a non-negative integer. */
  function NatToString(n: nat): (s: string)
    ensures |s| > 0 && AllDigits(s)
  {
    if n < 10 then [DigitChar(n)] else NatToString(n / 10) + [DigitChar(n % 10)]
  }

  /** `String(i)` for any integer. */
  function IntToString(i: int): (s: string)
    ensures |s| > 0
  {
    if i < 0 then "-" + NatToString(-i) else NatToString(i)
  }

  /** The number a string of decimal digits denotes. */
  function DigitsValue(s: string): (n: nat)
    requires AllDigits(s)
  {
    if |s| == 0 then 0
    else DigitsValue(s[..|s| - 1]) * 10 + (s[|s| - 1] as int - '0' as int)
  }

  /** Printing a number and reading it back gives the number. */
  lemma {:induction false} NatToStringRoundTrip(n: nat)
    ensures DigitsValue(NatToString(n)) == n
  {
    if n >= 10 {
      var s := NatToString(n);
      assert s[..|s| - 1] == NatToString(n / 10);
      NatToStringRoundTrip(n / 10);
    }
  }
}
