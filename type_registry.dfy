/**
 * The column type registry of `src/ext/ext.types.js`: class names, detectors
 * (tagged with their type name), order functions (`-pre`/`-asc`/`-desc`),
 * renderers and search formatters, with the `_dt_type` getter/setter, the
 * built-in registration order, and the `string`/`html` formatters and
 * detectors. Registered functions are opaque `Fn` handles.
 */
module TypeRegistry {
  import opened Wrappers
  import opened JsValue
  import Text
  import Internal
  import Sorting

  /** A detector with the `_name` it was tagged with. */
  datatype Detector = Detector(name: string, fn: Value)

  /** `_dt_ext_types`. */
  datatype Types = Types(className: map<string, Value>, detect: seq<Detector>,
                         render: map<string, Value>, search: map<string, Value>, order: map<string, Value>)

  datatype OrderFns = OrderFns(pre: Value, asc: Value, desc: Value)

  /** What `_dt_type(name)` returns. */
  datatype TypeInfo = TypeInfo(className: Value, detect: Value, order: OrderFns, render: Value, search: Value)

  /** A property read on a registry object: `undefined` when absent. */
  function Lookup(m: map<string, Value>, k: string): Value {
    if k in m then m[k] else Undefined
  }

  /** `_dt_listTypes()`. */
  function Names(ds: seq<Detector>): (r: seq<string>)
    ensures |r| == |ds| && forall i :: 0 <= i < |ds| ==> r[i] == ds[i].name
  {
    if |ds| == 0 then [] else [ds[0].name] + Names(ds[1..])
  }

  /** `detect.findIndex(item => item._name === name)`, with -1 for none. */
  function IndexOfName(ds: seq<Detector>, name: string): (r: int)
    ensures -1 <= r < |ds|
    ensures r == -1 <==> forall i :: 0 <= i < |ds| ==> ds[i].name != name
    ensures r >= 0 ==> ds[r].name == name && forall i :: 0 <= i < r ==> ds[i].name != name
  {
    if |ds| == 0 then -1
    else if ds[0].name == name then 0
    else
      var k := IndexOfName(ds[1..], name);
      if k == -1 then -1 else k + 1
  }

  /** `detect.find(fn => fn._name === name)`. */
  function FindDetector(ds: seq<Detector>, name: string): Value {
    var k := IndexOfName(ds, name);
    if k == -1 then Undefined else ds[k].fn
  }

  function PreKey(name: string): string { name + "-pre" }
  function AscKey(name: string): string { name + "-asc" }
  function DescKey(name: string): string { name + "-desc" }

  /** `_dt_type(name)` with no property: every registry's entry for `name`. */
  function Describe(t: Types, name: string): (r: TypeInfo)
    ensures name !in Names(t.detect) ==> r.detect == Undefined
    ensures name !in t.className ==> r.className == Undefined
    ensures name !in t.render ==> r.render == Undefined
    ensures name !in t.search ==> r.search == Undefined
  {
    TypeInfo(Lookup(t.className, name), FindDetector(t.detect, name),
             OrderFns(Lookup(t.order, PreKey(name)), Lookup(t.order, AscKey(name)), Lookup(t.order, DescKey(name))),
             Lookup(t.render, name), Lookup(t.search, name))
  }

  /** `setDetect` on the detector list: a new name is prepended, a known name replaced where it stands. */
  function SetDetectList(ds: seq<Detector>, name: string, d: Value): (r: seq<Detector>)
    ensures IndexOfName(ds, name) == -1 ==> r == [Detector(name, d)] + ds
    ensures IndexOfName(ds, name) != -1 ==> r == ds[IndexOfName(ds, name) := Detector(name, d)]
  {
    var idx := IndexOfName(ds, name);
    if idx == -1 then [Detector(name, d)] + ds else ds[idx := Detector(name, d)]
  }

  function SetDetect(t: Types, name: string, d: Value): Types {
    t.(detect := SetDetectList(t.detect, name, d))
  }

  /** `setOrder`: all three keys are written, undefined ones included. */
  function SetOrder(t: Types, name: string, obj: Value): Types {
    t.(order := t.order[PreKey(name) := Prop(obj, "pre")][AscKey(name) := Prop(obj, "asc")][DescKey(name) := Prop(obj, "desc")])
  }

  /**
   * The setter forms of `_dt_type(name, prop, val)` (called with a truthy
   * `prop`): with `val` undefined, `prop` is the value and the object form
   * applies.
   */
  function Apply(t: Types, name: string, prop: Value, val: Value): Types {
    var p := if val == Undefined then Null else prop;
    var v := if val == Undefined then prop else val;
    if p == Str("className") then t.(className := t.className[name := v])
    else if p == Str("detect") then SetDetect(t, name, v)
    else if p == Str("order") then SetOrder(t, name, v)
    else if p == Str("render") then t.(render := t.render[name := v])
    else if p == Str("search") then t.(search := t.search[name := v])
    else if !Truthy(p) then ApplyObject(t, name, v)
    else t
  }

  /** The object form: `className`/`order` when truthy, the others when defined. */
  function ApplyObject(t: Types, name: string, v: Value): Types {
    ApplyParts(t, name, Prop(v, "className"), Prop(v, "detect"), Prop(v, "order"), Prop(v, "render"), Prop(v, "search"))
  }

  /**
   * The object form on the five properties read from the object. The setters
   * run in the order class name, detector, order, renderer, search formatter;
   * each writes a registry of its own, so the result is stated registry by
   * registry.
   */
  function ApplyParts(t: Types, name: string, className: Value, detect: Value, order: Value, render: Value,
                      search: Value): Types {
    Types(if Truthy(className) then t.className[name := className] else t.className,
          if detect != Undefined then SetDetectList(t.detect, name, detect) else t.detect,
          if render != Undefined then t.render[name := render] else t.render,
          if search != Undefined then t.search[name := search] else t.search,
          if Truthy(order) then SetOrder(t, name, order).order else t.order)
  }

  // ---- properties of the setters ----

  /** Setting a detector keeps the type names unique, and the name then finds the new detector. */
  lemma SetDetectUnique(ds: seq<Detector>, name: string, d: Value)
    requires Internal.NoDuplicates(Names(ds))
    ensures Internal.NoDuplicates(Names(SetDetectList(ds, name, d)))
    ensures name in Names(SetDetectList(ds, name, d))
    ensures FindDetector(SetDetectList(ds, name, d), name) == d
  {
    var r := SetDetectList(ds, name, d);
    var idx := IndexOfName(ds, name);
    if idx == -1 {
      assert Names(r) == [name] + Names(ds);
      assert name !in Names(ds);
    } else {
      assert Names(r) == Names(ds);
    }
    assert Names(r)[if idx == -1 then 0 else idx] == name;
    FindAfterSet(ds, name, d);
  }

  /** Setting one type's detector leaves every other type's detector where it was. */
  lemma SetDetectOthers(ds: seq<Detector>, name: string, d: Value, other: string)
    requires other != name
    ensures FindDetector(SetDetectList(ds, name, d), other) == FindDetector(ds, other)
  {
    var r := SetDetectList(ds, name, d);
    var idx := IndexOfName(ds, name);
    var k := IndexOfName(ds, other);
    var k' := IndexOfName(r, other);
    if idx == -1 {
      assert r[1..] == ds;
      assert k' == if k == -1 then -1 else k + 1 by {
        assert r[0].name != other;
      }
    } else {
      if k' != -1 {
        assert r[k'] == ds[k'];
      }
      if k != -1 {
        assert r[k] == ds[k];
      }
    }
  }

  lemma SuffixKeysDistinct(a: string, b: string)
    ensures PreKey(a) != AscKey(b) && PreKey(a) != DescKey(b) && AscKey(a) != DescKey(b)
    ensures PreKey(a) == PreKey(b) || AscKey(a) == AscKey(b) || DescKey(a) == DescKey(b) ==> a == b
  {
    var pa, ab, db, aa := PreKey(a), AscKey(b), DescKey(b), AscKey(a);
    assert pa[|pa| - 3] == 'p' && ab[|ab| - 3] == 'a';
    assert pa[|pa| - 1] == 'e' && db[|db| - 1] == 'c';
    assert aa[|aa| - 3] == 'a' && db[|db| - 3] == 'e';
    if PreKey(a) == PreKey(b) {
      assert a == PreKey(a)[..|a|] && b == PreKey(b)[..|b|];
    }
    if AscKey(a) == AscKey(b) {
      assert a == AscKey(a)[..|a|] && b == AscKey(b)[..|b|];
    }
    if DescKey(a) == DescKey(b) {
      assert a == DescKey(a)[..|a|] && b == DescKey(b)[..|b|];
    }
  }

  /** Setting order writes all three functions of that type, and no other type's. */
  lemma SetOrderEffect(t: Types, name: string, obj: Value, other: string)
    ensures Describe(SetOrder(t, name, obj), name).order == OrderFns(Prop(obj, "pre"), Prop(obj, "asc"), Prop(obj, "desc"))
    ensures other != name ==> Describe(SetOrder(t, name, obj), other).order == Describe(t, other).order
  {
    SuffixKeysDistinct(name, name);
    SuffixKeysDistinct(name, other);
    SuffixKeysDistinct(other, name);
  }

  /** The object form sets exactly the sub-properties it carries: class name, renderer and search formatter. */
  lemma ApplyObjectPlain(t: Types, name: string, v: Value)
    ensures var i := Describe(ApplyObject(t, name, v), name);
            var o := Describe(t, name);
            i.className == (if Truthy(Prop(v, "className")) then Prop(v, "className") else o.className) &&
            i.render == (if Prop(v, "render") != Undefined then Prop(v, "render") else o.render) &&
            i.search == (if Prop(v, "search") != Undefined then Prop(v, "search") else o.search)
  {
  }

  /** The object form sets the detector when one is given. */
  lemma ApplyObjectDetect(t: Types, name: string, v: Value)
    ensures Describe(ApplyObject(t, name, v), name).detect ==
            if Prop(v, "detect") != Undefined then Prop(v, "detect") else Describe(t, name).detect
  {
    if Prop(v, "detect") != Undefined {
      FindAfterSet(t.detect, name, Prop(v, "detect"));
    }
  }

  /** The object form sets all three order functions when `order` is truthy. */
  lemma ApplyObjectOrder(t: Types, name: string, v: Value)
    ensures var o := Prop(v, "order");
            Describe(ApplyObject(t, name, v), name).order ==
            if Truthy(o) then OrderFns(Prop(o, "pre"), Prop(o, "asc"), Prop(o, "desc")) else Describe(t, name).order
  {
    if Truthy(Prop(v, "order")) {
      SetOrderEffect(t, name, Prop(v, "order"), name);
    }
  }

  /** After `setDetect`, looking the name up finds the new detector. */
  lemma FindAfterSet(ds: seq<Detector>, name: string, d: Value)
    ensures FindDetector(SetDetectList(ds, name, d), name) == d
  {
    var r := SetDetectList(ds, name, d);
    var idx := IndexOfName(ds, name);
    assert r[if idx == -1 then 0 else idx].name == name;
  }

  // ---- the built-in types ----

  /** Handles standing for the built-in detectors, pre-formatters and search formatters. */
  function BuiltIn(id: nat, className: Value, hasPre: bool, hasSearch: bool): Value {
    Obj([Field("className", className), Field("detect", Fn(10 * id)),
         Field("order", Obj(if hasPre then [Field("pre", Fn(10 * id + 1))] else [Field("asc", Fn(10 * id + 2)), Field("desc", Fn(10 * id + 3))])),
         Field("search", if hasSearch then Fn(10 * id + 4) else Undefined)])
  }

  /** Registration order in `_registerBuiltInTypes`. */
  const Registration: seq<string> :=
    ["string", "string-utf8", "html", "html-utf8", "date", "html-num-fmt", "html-num", "num-fmt", "num"]

  /** The order detection tries them in afterwards: the reverse, since each new name is prepended. */
  const DetectOrder: seq<string> :=
    ["num", "num-fmt", "html-num", "html-num-fmt", "date", "html-utf8", "html", "string-utf8", "string"]

  /** Detection relies on `html` being third from the end of the built-in list. */
  lemma HtmlThirdFromEnd()
    ensures |DetectOrder| == 9 && DetectOrder[|DetectOrder| - 3] == "html"
    ensures Internal.NoDuplicates(DetectOrder)
  {
  }

  /** The descriptors `_registerBuiltInTypes()` passes, in call order. */
  const BuiltIns: seq<(string, Value)> := [
    ("string", BuiltIn(1, Undefined, true, true)),
    ("string-utf8", BuiltIn(2, Undefined, false, true)),
    ("html", BuiltIn(3, Undefined, true, true)),
    ("html-utf8", BuiltIn(4, Undefined, false, true)),
    ("date", BuiltIn(5, Str("dt-type-date"), true, false)),
    ("html-num-fmt", BuiltIn(6, Str("dt-type-numeric"), true, true)),
    ("html-num", BuiltIn(7, Str("dt-type-numeric"), true, true)),
    ("num-fmt", BuiltIn(8, Str("dt-type-numeric"), true, false)),
    ("num", BuiltIn(9, Str("dt-type-numeric"), true, false))]

  /** `_dt_type(name, descriptor)` for each registration in turn. */
  function ApplyAll(t: Types, regs: seq<(string, Value)>): Types {
    if |regs| == 0 then t
    else
      var last := regs[|regs| - 1];
      Apply(ApplyAll(t, regs[..|regs| - 1]), last.0, last.1, Undefined)
  }

  lemma BuiltInDetect(id: nat, cls: Value, hasPre: bool, hasSearch: bool)
    ensures Prop(BuiltIn(id, cls, hasPre, hasSearch), "detect") == Fn(10 * id)
  {
    var fs := BuiltIn(id, cls, hasPre, hasSearch).fields;
    assert fs[0].key != "detect" && fs[1].key == "detect";
    assert Get(fs, "detect") == Get(fs[1..], "detect");
  }

  /** Registering a descriptor with a detector under a new name puts that name first. */
  lemma RegisterNew(t: Types, name: string, v: Value)
    requires v.Obj? && Prop(v, "detect") != Undefined
    requires name !in Names(t.detect)
    ensures Names(Apply(t, name, v, Undefined).detect) == [name] + Names(t.detect)
  {
    var t1 := if Truthy(Prop(v, "className")) then t.(className := t.className[name := Prop(v, "className")]) else t;
    var t2 := SetDetect(t1, name, Prop(v, "detect"));
    assert IndexOfName(t.detect, name) == -1;
    assert Apply(t, name, v, Undefined).detect == t2.detect == [Detector(name, Prop(v, "detect"))] + t.detect;
  }

  /** The names of `regs`, last registered first. */
  function RevNames(regs: seq<(string, Value)>): (r: seq<string>)
    ensures |r| == |regs|
    ensures forall i :: 0 <= i < |regs| ==> r[i] == regs[|regs| - 1 - i].0
  {
    if |regs| == 0 then [] else [regs[|regs| - 1].0] + RevNames(regs[..|regs| - 1])
  }

  /** Registering distinct new names one by one lists them in reverse order, ahead of the old ones. */
  lemma {:induction false} ApplyAllNames(t: Types, regs: seq<(string, Value)>)
    requires forall i :: 0 <= i < |regs| ==> regs[i].1.Obj? && Prop(regs[i].1, "detect") != Undefined
    requires forall i, j :: 0 <= i < j < |regs| ==> regs[i].0 != regs[j].0
    requires forall i :: 0 <= i < |regs| ==> regs[i].0 !in Names(t.detect)
    ensures Names(ApplyAll(t, regs).detect) == RevNames(regs) + Names(t.detect)
  {
    if |regs| > 0 {
      var init := regs[..|regs| - 1];
      var last := regs[|regs| - 1];
      assert forall i :: 0 <= i < |init| ==> init[i] == regs[i];
      ApplyAllNames(t, init);
      RevNamesAvoid(init, last.0);
      assert last.0 !in Names(t.detect);
      assert last.0 !in RevNames(init) + Names(t.detect);
      ApplyAllLast(t, regs);
      assert RevNames(regs) == [last.0] + RevNames(init);
    }
  }

  /** The last registration of a new name with a detector puts that name first. */
  lemma ApplyAllLast(t: Types, regs: seq<(string, Value)>)
    requires |regs| > 0
    requires var last := regs[|regs| - 1];
             last.1.Obj? && Prop(last.1, "detect") != Undefined && last.0 !in Names(ApplyAll(t, regs[..|regs| - 1]).detect)
    ensures Names(ApplyAll(t, regs).detect) == [regs[|regs| - 1].0] + Names(ApplyAll(t, regs[..|regs| - 1]).detect)
  {
    var last := regs[|regs| - 1];
    RegisterNew(ApplyAll(t, regs[..|regs| - 1]), last.0, last.1);
  }

  /** A name none of the registrations uses is not among their names. */
  lemma {:induction false} RevNamesAvoid(regs: seq<(string, Value)>, name: string)
    requires forall i :: 0 <= i < |regs| ==> regs[i].0 != name
    ensures name !in RevNames(regs)
  {
    if |regs| > 0 {
      var init := regs[..|regs| - 1];
      assert forall i :: 0 <= i < |init| ==> init[i] == regs[i];
      RevNamesAvoid(init, name);
    }
  }

  lemma BuiltInsHaveDetectors()
    ensures forall i :: 0 <= i < |BuiltIns| ==> BuiltIns[i].1.Obj? && Prop(BuiltIns[i].1, "detect") != Undefined
  {
    forall i | 0 <= i < |BuiltIns|
      ensures BuiltIns[i].1.Obj? && Prop(BuiltIns[i].1, "detect") != Undefined
    {
      var id := i + 1;
      assert BuiltIns[i].1 == BuiltIn(id, BuiltIns[i].1.fields[0].val, BuiltIns[i].1.fields[2].val.fields[0].key == "pre",
                                     BuiltIns[i].1.fields[3].val != Undefined);
      BuiltInDetect(id, BuiltIns[i].1.fields[0].val, BuiltIns[i].1.fields[2].val.fields[0].key == "pre",
                    BuiltIns[i].1.fields[3].val != Undefined);
    }
  }

  lemma BuiltInNames()
    ensures forall i :: 0 <= i < |BuiltIns| ==> BuiltIns[i].0 == Registration[i]
    ensures RevNames(BuiltIns) == DetectOrder
  {
    var r := RevNames(BuiltIns);
    forall i | 0 <= i < 9 ensures r[i] == DetectOrder[i] {
      assert r[i] == BuiltIns[8 - i].0;
    }
  }

  /** From an empty registry, the built-ins are detected in reverse registration order. */
  lemma BuiltInsOrder(t: Types)
    requires t.detect == []
    ensures Names(ApplyAll(t, BuiltIns).detect) == DetectOrder
  {
    BuiltInsHaveDetectors();
    BuiltInNames();
    assert Internal.NoDuplicates(Registration);
    ApplyAllNames(t, BuiltIns);
  }

  class TypeRegistryState {
    var className: map<string, Value>
    var detect: seq<Detector>
    var render: map<string, Value>
    var search: map<string, Value>
    var order: map<string, Value>

    function Contents(): Types
      reads this
    {
      Types(className, detect, render, search, order)
    }

    constructor ()
      ensures Contents() == Types(map[], [], map[], map[], map[])
    {
      className, detect, render, search, order := map[], [], map[], map[], map[];
    }

    /** `_dt_listTypes()`. */
    function ListTypes(): (r: seq<string>)
      reads this
      ensures |r| == |detect|
    {
      Names(detect)
    }

    /**
     * `_dt_type(name, prop, val)`: a falsy `prop` reads the type and changes
     * nothing; otherwise the setter forms apply.
     */
    method Type(name: string, prop: Value, val: Value) returns (info: Option<TypeInfo>)
      modifies this
      ensures !Truthy(prop) ==> info == Some(Describe(old(Contents()), name)) && Contents() == old(Contents())
      ensures Truthy(prop) ==> info.None? && Contents() == Apply(old(Contents()), name, prop, val)
    {
      if !Truthy(prop) {
        return Some(Describe(Contents(), name));
      }
      var t := Apply(Contents(), name, prop, val);
      className, detect, render, search, order := t.className, t.detect, t.render, t.search, t.order;
      info := None;
    }

    /** `_registerBuiltInTypes()`. */
    method RegisterBuiltIns()
      modifies this
      ensures Contents() == ApplyAll(old(Contents()), BuiltIns)
    {
      ghost var t0 := Contents();
      RegisterBuiltIn(0, t0);
      RegisterBuiltIn(1, t0);
      RegisterBuiltIn(2, t0);
      RegisterBuiltIn(3, t0);
      RegisterBuiltIn(4, t0);
      RegisterBuiltIn(5, t0);
      RegisterBuiltIn(6, t0);
      RegisterBuiltIn(7, t0);
      RegisterBuiltIn(8, t0);
      assert BuiltIns[..9] == BuiltIns;
    }

    /** The `k`-th call of `_registerBuiltInTypes()`. */
    method RegisterBuiltIn(k: nat, ghost t0: Types)
      requires k < |BuiltIns| && Contents() == ApplyAll(t0, BuiltIns[..k])
      modifies this
      ensures Contents() == ApplyAll(t0, BuiltIns[..k + 1])
    {
      assert BuiltIns[..k + 1][..k] == BuiltIns[..k];
      assert Truthy(BuiltIns[k].1);
      var _ := Type(BuiltIns[k].0, BuiltIns[k].1, Undefined);
    }
  }

  // ---- built-in formatters and detectors ----

  /** ASCII lower-casing of a string (`toLowerCase` beyond ASCII is not modelled). */
  function LowerString(s: string): (r: string)
    ensures |r| == |s| && forall i :: 0 <= i < |s| ==> r[i] == Text.Lower(s[i])
    ensures forall i :: 0 <= i < |r| ==> !('A' <= r[i] <= 'Z')
  {
    seq(|s|, i requires 0 <= i < |s| => Text.Lower(s[i]))
  }

  /** The `string` type's `-pre`: empty non-booleans become `""`, strings are lower-cased, the rest stringified. */
  function StringPre(a: Value): (r: Value)
    ensures r.Str?
    ensures a.Str? && !IsEmpty(a) ==> r == Str(LowerString(a.s))
    ensures IsEmpty(a) && !a.Bool? ==> r == Str("")
  {
    if IsEmpty(a) && !a.Bool? then Str("")
    else if a.Str? then Str(LowerString(a.s))
    else Str(Text.ToJsString(a))
  }

  /** Pre-formatting a string twice is the same as once. */
  lemma StringPreIdempotentOnStrings(s: string)
    ensures StringPre(StringPre(Str(s))) == StringPre(Str(s))
  {
    var r := StringPre(Str(s));
    if !IsEmpty(r) {
      assert LowerString(r.s) == r.s;
    }
  }

  /** The `html` type's `-pre`: tags stripped, trimmed, lower-cased; may throw for overlong input. */
  function HtmlPre(a: Value, removeTags: string -> string): (r: Result<Value>)
    ensures r.Ok? ==> r.value.Str?
    ensures IsEmpty(a) ==> r == Ok(Str(""))
    ensures r.Ok? && a.Str? && !IsEmpty(a) ==>
              forall i :: 0 <= i < |r.value.s| ==> !('A' <= r.value.s[i] <= 'Z')
  {
    if IsEmpty(a) then Ok(Str(""))
    else if a.Str? then
      match Text.StripHtmlSpec(a, removeTags)
      case Throw(m) => Throw(m)
      case Ok(v) => Ok(Str(LowerString(Trim(v.s))))
    else Ok(Str(Text.ToJsString(a)))
  }

  predicate HasLessThan(d: Value) {
    d.Str? && '<' in d.s
  }

  /** The `html` detector's `allOf` test: every value must pass. */
  predicate HtmlAllOf(d: Value) {
    IsEmpty(d) || HasLessThan(d)
  }

  /** The `html` detector's `oneOf` test: at least one value must pass. */
  predicate HtmlOneOf(d: Value) {
    !IsEmpty(d) && HasLessThan(d)
  }

  /** `oneOf` is `allOf` restricted to non-empty values. */
  lemma HtmlOneOfIsNonEmptyAllOf(d: Value)
    ensures HtmlOneOf(d) <==> HtmlAllOf(d) && !IsEmpty(d)
    ensures d == Str("<") ==> HtmlOneOf(d)
    ensures IsEmpty(d) ==> HtmlAllOf(d) && !HtmlOneOf(d)
  {
  }
}
