/**
 * The data side of the paging control (`src/features/features.page.js`): the
 * option defaults, the dynamic button layout, the page arithmetic and the
 * per-button state. Drawing the buttons is DOM work and is not modelled.
 */
module Paging {
  import opened Wrappers
  import opened JsValue
  import Jq

  /** A paging button: a named control (`"first"`, `"ellipsis"`, ...) or a page number. */
  datatype Button = Label(name: string) | Number(n: int)

  /**
   * `_constructFeature_page`: no control without pagination; otherwise the
   * caller's options over the defaults. `numbersLength` (the renderer's
   * default button count) and `pagingType` come from outside.
   */
  function PageOptions(bPaginate: bool, numbersLength: Value, pagingType: Value, opts: Value): (r: Option<seq<Field>>)
    ensures r.None? <==> !bPaginate
  {
    if !bPaginate then None
    else
      Some(Jq.Extend(false,
        [Field("buttons", numbersLength), Field("type", pagingType), Field("boundaryNumbers", Bool(true)),
         Field("firstLast", Bool(true)), Field("previousNext", Bool(true)), Field("numbers", Bool(true))],
        [opts]))
  }

  /** The three layout flags default to true; a defined option value replaces the default. */
  lemma FlagDefaults(numbersLength: Value, pagingType: Value, opts: seq<Field>, flag: string)
    requires UniqueKeys(opts)
    requires flag == "firstLast" || flag == "previousNext" || flag == "numbers" || flag == "boundaryNumbers"
    ensures var r := PageOptions(true, numbersLength, pagingType, Obj(opts));
            r.Some? && Get(r.value, flag) == if Get(opts, flag) != Undefined then Get(opts, flag) else Bool(true)
  {
    var defaults := [Field("buttons", numbersLength), Field("type", pagingType), Field("boundaryNumbers", Bool(true)),
         Field("firstLast", Bool(true)), Field("previousNext", Bool(true)), Field("numbers", Bool(true))];
    Jq.ShallowLookup(defaults, opts, flag);
    assert [Obj(opts)][1..] == [];
    assert Jq.Extend(false, defaults, [Obj(opts)]) == Jq.MergeFields(false, defaults, opts);
    assert Get(defaults, flag) == Get(defaults[2..], flag) == Bool(true) by {
      assert defaults[0].key != flag && defaults[1].key != flag;
      if flag != "boundaryNumbers" {
        assert Get(defaults[2..], flag) == Get(defaults[3..], flag);
        if flag != "firstLast" {
          assert Get(defaults[3..], flag) == Get(defaults[4..], flag);
          if flag != "previousNext" {
            assert Get(defaults[4..], flag) == Get(defaults[5..], flag);
          }
        }
      }
    }
  }

  /** The layout `_pagingDynamic` produces, written out in display order. */
  function Layout(numbers: bool, previousNext: bool, firstLast: bool): seq<string> {
    (if firstLast then ["first"] else []) + (if previousNext then ["previous"] else []) +
    (if numbers then ["numbers"] else []) +
    (if previousNext then ["next"] else []) + (if firstLast then ["last"] else [])
  }

  /** `_pagingDynamic(opts)`: numbers, then previous/next around it, then first/last around that. */
  method PagingDynamic(opts: seq<Field>) returns (out: seq<string>)
    ensures out == Layout(Truthy(Get(opts, "numbers")), Truthy(Get(opts, "previousNext")), Truthy(Get(opts, "firstLast")))
  {
    out := [];
    if Truthy(Get(opts, "numbers")) {
      out := out + ["numbers"];
    }
    if Truthy(Get(opts, "previousNext")) {
      out := ["previous"] + out + ["next"];
    }
    if Truthy(Get(opts, "firstLast")) {
      out := ["first"] + out + ["last"];
    }
  }

  /** The partner of each control on the opposite side of the layout. */
  function Mirror(b: string): string {
    match b
    case "first" => "last"
    case "last" => "first"
    case "previous" => "next"
    case "next" => "previous"
    case _ => b
  }

  /** First/last and previous/next are placed symmetrically around the numbers. */
  lemma LayoutSymmetric(numbers: bool, previousNext: bool, firstLast: bool)
    ensures var l := Layout(numbers, previousNext, firstLast);
            forall i :: 0 <= i < |l| ==> l[|l| - 1 - i] == Mirror(l[i])
  {
  }

  /** A control is in the layout exactly when its option is on; nothing appears twice. */
  lemma LayoutMembers(numbers: bool, previousNext: bool, firstLast: bool)
    ensures var l := Layout(numbers, previousNext, firstLast);
            ("numbers" in l <==> numbers) && ("previous" in l <==> previousNext) && ("next" in l <==> previousNext) &&
            ("first" in l <==> firstLast) && ("last" in l <==> firstLast) &&
            |l| == (if numbers then 1 else 0) + (if previousNext then 2 else 0) + (if firstLast then 2 else 0)
  {
  }

  // ---- page arithmetic ----

  function CeilDiv(a: nat, b: nat): (q: nat)
    requires b > 0
    ensures (q - 1) * b < a <= q * b || (a == 0 && q == 0)
  {
    if a % b == 0 then a / b else a / b + 1
  }

  /** A page length is positive, or -1 for "show all". */
  predicate ValidLength(len: int) {
    len == -1 || len > 0
  }

  /** `page`/`pages` as `_pagingDraw` computes them: `ceil` for both. */
  function DrawPages(start: nat, len: int, records: nat): (r: (nat, nat))
    requires ValidLength(len)
    ensures len == -1 ==> r == (0, 1)
  {
    if len == -1 then (0, 1) else (CeilDiv(start, len), CeilDiv(records, len))
  }

  /** `page`/`pages` as `page.info()` reports them: `floor` for the page. */
  function InfoPages(start: nat, len: int, records: nat): (r: (nat, nat))
    requires ValidLength(len)
    ensures len == -1 ==> r == (0, 1)
  {
    if len == -1 then (0, 1) else (start / len, CeilDiv(records, len))
  }

  /** The two computations agree exactly when the start lies on a page boundary. */
  lemma DrawInfoAgree(start: nat, len: int, records: nat)
    requires len > 0
    ensures DrawPages(start, len, records) == InfoPages(start, len, records) <==> start % len == 0
  {
  }

  /** With `ceil`, the first page is page 0 exactly when the display starts at the first record. */
  lemma DrawFirstPage(start: nat, len: int, records: nat)
    requires len > 0
    ensures DrawPages(start, len, records).0 == 0 <==> start == 0
  {
  }

  /** On a page boundary, the current page is the last one exactly when no record follows it. */
  lemma AlignedLastPage(start: nat, len: int, records: nat)
    requires len > 0 && start % len == 0 && start < records
    ensures var (page, pages) := DrawPages(start, len, records);
            page < pages && (page == pages - 1 <==> start + len >= records)
  {
    var k := start / len;
    var q := CeilDiv(records, len);
    assert start == k * len;
    assert DrawPages(start, len, records) == (k, q);
    assert records > 0;
    assert (q - 1) * len < records <= q * len;
    if q <= k {
      MulMonotone(q, k, len);
      assert false;
    }
    if k == q - 1 {
      assert start + len == q * len;
    } else {
      MulMonotone(k + 1, q - 1, len);
      assert start + len == (k + 1) * len;
    }
  }

  lemma MulMonotone(a: int, b: int, c: nat)
    requires a <= b
    ensures a * c <= b * c
  {
  }

  // ---- per-button state ----

  /** The four navigation captions of `oLanguage.oPaginate`. */
  datatype Captions = Captions(sFirst: string, sPrevious: string, sNext: string, sLast: string)

  datatype ButtonInfo = ButtonInfo(display: string, active: bool, disabled: bool)

  /** `_pagingButtonInfo`; `formatNumber` is the table's `fnFormatNumber`. */
  function PagingButtonInfo(lang: Captions, button: Button, page: int, pages: int, formatNumber: int -> string): (o: ButtonInfo)
    ensures o.active <==> button == Number(page)
    ensures o.disabled <==>
      (button in {Label("first"), Label("previous")} && page == 0) ||
      (button in {Label("next"), Label("last")} && (pages == 0 || page == pages - 1))
    ensures button.Number? ==> o.display == formatNumber(button.n + 1)
  {
    match button
    case Label("ellipsis") => ButtonInfo("&#x2026;", false, false)
    case Label("first") => ButtonInfo(lang.sFirst, false, page == 0)
    case Label("previous") => ButtonInfo(lang.sPrevious, false, page == 0)
    case Label("next") => ButtonInfo(lang.sNext, false, pages == 0 || page == pages - 1)
    case Label("last") => ButtonInfo(lang.sLast, false, pages == 0 || page == pages - 1)
    case Label(_) => ButtonInfo("", false, false)
    case Number(n) => ButtonInfo(formatNumber(n + 1), page == n, false)
  }

  /** On a page strictly between the first and the last, no navigation button is disabled. */
  lemma MiddlePageAllEnabled(lang: Captions, page: int, pages: int, formatNumber: int -> string)
    requires 0 < page < pages - 1
    ensures forall b :: b in Layout(true, true, true) ==> !PagingButtonInfo(lang, Label(b), page, pages, formatNumber).disabled
  {
  }

  /** With a single page, all four navigation buttons are disabled. */
  lemma SinglePageAllDisabled(lang: Captions, formatNumber: int -> string)
    ensures forall b :: b in Layout(false, true, true) ==> PagingButtonInfo(lang, Label(b), 0, 1, formatNumber).disabled
  {
  }

  /** Among the number buttons `0 .. pages-1`, exactly the current page is active. */
  lemma ExactlyOneActive(lang: Captions, page: int, pages: int, formatNumber: int -> string, k: int)
    requires 0 <= page < pages && 0 <= k < pages
    ensures PagingButtonInfo(lang, Number(k), page, pages, formatNumber).active <==> k == page
    ensures !PagingButtonInfo(lang, Label("ellipsis"), page, pages, formatNumber).active
    ensures !PagingButtonInfo(lang, Label("ellipsis"), page, pages, formatNumber).disabled
  {
  }
}
