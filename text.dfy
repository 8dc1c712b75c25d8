/**
 * The replaceable string utilities (`escapeHtml`, `stripHtml`, `normalize`)
 * and the search-string filter built from them.
 *
 * Two steps are supplied by the caller: the complete-tag removal regex (the
 * source names `_re_html`, whose definition is not part of this model) and
 * Unicode NFD decomposition.
 */
module Text {
  import opened Wrappers
  import opened JsValue

  // ---- escapeHtml ----

  /** `s.replace(new RegExp(c, "g"), rep)`. */
  function ReplaceChar(s: string, c: char, rep: string): string {
    if |s| == 0 then "" else (if s[0] == c then rep else [s[0]]) + ReplaceChar(s[1..], c, rep)
  }

  lemma {:induction false} ReplaceCharAppend(a: string, b: string, c: char, rep: string)
    ensures ReplaceChar(a + b, c, rep) == ReplaceChar(a, c, rep) + ReplaceChar(b, c, rep)
  {
    if |a| > 0 {
      assert (a + b)[1..] == a[1..] + b;
      ReplaceCharAppend(a[1..], b, c, rep);
    } else {
      assert a + b == b;
    }
  }

  /** The four chained replacements, `&` first. */
  function EscapeString(s: string): string {
    ReplaceChar(ReplaceChar(ReplaceChar(ReplaceChar(s, '&', "&amp;"), '<', "&lt;"), '>', "&gt;"), '"', "&quot;")
  }

  /** The entity each character is written as. */
  function EscapeChar(c: char): string {
    if c == '&' then "&amp;"
    else if c == '<' then "&lt;"
    else if c == '>' then "&gt;"
    else if c == '"' then "&quot;"
    else [c]
  }

  function EscapeEach(s: string): string {
    if |s| == 0 then "" else EscapeChar(s[0]) + EscapeEach(s[1..])
  }

  lemma {:induction false} ReplaceCharAbsent(s: string, c: char, rep: string)
    requires c !in s
    ensures ReplaceChar(s, c, rep) == s
  {
    if |s| > 0 {
      ReplaceCharAbsent(s[1..], c, rep);
      assert s == [s[0]] + s[1..];
    }
  }

  lemma ReplaceCharOne(x: char, c: char, rep: string)
    ensures ReplaceChar([x], c, rep) == if x == c then rep else [x]
  {
    assert [x][1..] == "";
  }

  lemma EscapeStringOne(c: char)
    ensures EscapeString([c]) == EscapeChar(c)
  {
    ReplaceCharOne(c, '&', "&amp;");
    if c == '&' {
      EscapeAfter("&amp;", 1);
    } else {
      ReplaceCharOne(c, '<', "&lt;");
      if c == '<' {
        EscapeAfter("&lt;", 2);
      } else {
        ReplaceCharOne(c, '>', "&gt;");
        if c == '>' {
          EscapeAfter("&gt;", 3);
        } else {
          ReplaceCharOne(c, '"', "&quot;");
        }
      }
    }
  }

  /** The replacements after the `n`-th leave an entity free of their characters unchanged. */
  lemma EscapeAfter(e: string, n: nat)
    requires 1 <= n <= 3
    requires '>' !in e && '"' !in e && (n == 1 ==> '<' !in e)
    ensures n == 1 ==> ReplaceChar(ReplaceChar(ReplaceChar(e, '<', "&lt;"), '>', "&gt;"), '"', "&quot;") == e
    ensures n == 2 ==> ReplaceChar(ReplaceChar(e, '>', "&gt;"), '"', "&quot;") == e
    ensures n == 3 ==> ReplaceChar(e, '"', "&quot;") == e
  {
    if n == 1 {
      ReplaceCharAbsent(e, '<', "&lt;");
    }
    if n <= 2 {
      ReplaceCharAbsent(e, '>', "&gt;");
    }
    ReplaceCharAbsent(e, '"', "&quot;");
  }

  lemma {:induction false} EscapeStringAppend(a: string, b: string)
    ensures EscapeString(a + b) == EscapeString(a) + EscapeString(b)
  {
    ReplaceCharAppend(a, b, '&', "&amp;");
    var a1, b1 := ReplaceChar(a, '&', "&amp;"), ReplaceChar(b, '&', "&amp;");
    ReplaceCharAppend(a1, b1, '<', "&lt;");
    var a2, b2 := ReplaceChar(a1, '<', "&lt;"), ReplaceChar(b1, '<', "&lt;");
    ReplaceCharAppend(a2, b2, '>', "&gt;");
    var a3, b3 := ReplaceChar(a2, '>', "&gt;"), ReplaceChar(b2, '>', "&gt;");
    ReplaceCharAppend(a3, b3, '"', "&quot;");
  }

  /**
   * Because `&` is replaced first, the chain escapes every character exactly
   * once: no entity written by a later step is escaped again.
   */
  lemma {:induction false} EscapeChainIsPerCharacter(s: string)
    ensures EscapeString(s) == EscapeEach(s)
  {
    if |s| > 0 {
      assert s == [s[0]] + s[1..];
      EscapeStringAppend([s[0]], s[1..]);
      EscapeStringOne(s[0]);
      EscapeChainIsPerCharacter(s[1..]);
    } else {
      assert EscapeString(s) == "";
    }
  }

  /** Escaped text has no raw `<`, `>` or `"`. */
  lemma {:induction false} EscapeEachSafe(s: string)
    ensures '<' !in EscapeEach(s) && '>' !in EscapeEach(s) && '"' !in EscapeEach(s)
  {
    if |s| > 0 {
      EscapeEachSafe(s[1..]);
    }
  }

  /** Decoding the four entities `escapeHtml` writes. */
  function UnescapeEntities(s: string): string
    decreases |s|
  {
    if |s| >= 5 && s[..5] == "&amp;" then "&" + UnescapeEntities(s[5..])
    else if |s| >= 4 && s[..4] == "&lt;" then "<" + UnescapeEntities(s[4..])
    else if |s| >= 4 && s[..4] == "&gt;" then ">" + UnescapeEntities(s[4..])
    else if |s| >= 6 && s[..6] == "&quot;" then "\"" + UnescapeEntities(s[6..])
    else if |s| == 0 then ""
    else [s[0]] + UnescapeEntities(s[1..])
  }

  lemma UnescapeAmp(t: string)
    ensures UnescapeEntities("&amp;" + t) == "&" + UnescapeEntities(t)
  {
    var e := "&amp;" + t;
    assert e[..5] == "&amp;" && e[5..] == t;
  }

  lemma UnescapeLt(t: string)
    ensures UnescapeEntities("&lt;" + t) == "<" + UnescapeEntities(t)
  {
    var e := "&lt;" + t;
    assert e[1] == 'l';
    assert e[..4] == "&lt;" && e[4..] == t;
  }

  lemma UnescapeGt(t: string)
    ensures UnescapeEntities("&gt;" + t) == ">" + UnescapeEntities(t)
  {
    var e := "&gt;" + t;
    assert e[1] == 'g';
    assert e[..4] == "&gt;" && e[4..] == t;
  }

  lemma UnescapeQuot(t: string)
    ensures UnescapeEntities("&quot;" + t) == "\"" + UnescapeEntities(t)
  {
    var e := "&quot;" + t;
    assert e[1] == 'q';
    assert e[..6] == "&quot;" && e[6..] == t;
  }

  lemma UnescapePlainChar(c: char, t: string)
    requires c != '&'
    ensures UnescapeEntities([c] + t) == [c] + UnescapeEntities(t)
  {
    var e := [c] + t;
    assert e[0] == c && e[1..] == t;
  }

  lemma UnescapeAfterChar(c: char, t: string)
    ensures UnescapeEntities(EscapeChar(c) + t) == [c] + UnescapeEntities(t)
  {
    if c == '&' { UnescapeAmp(t); }
    else if c == '<' { UnescapeLt(t); }
    else if c == '>' { UnescapeGt(t); }
    else if c == '"' { UnescapeQuot(t); }
    else { UnescapePlainChar(c, t); }
  }

  /** Escaping loses nothing: the entities decode back to the original text. */
  lemma {:induction false} EscapeRoundTrip(s: string)
    ensures UnescapeEntities(EscapeString(s)) == s
  {
    EscapeChainIsPerCharacter(s);
    EscapeEachRoundTrip(s);
  }

  lemma {:induction false} EscapeEachRoundTrip(s: string)
    ensures UnescapeEntities(EscapeEach(s)) == s
  {
    if |s| > 0 {
      UnescapeAfterChar(s[0], EscapeEach(s[1..]));
      EscapeEachRoundTrip(s[1..]);
      assert s == [s[0]] + s[1..];
    }
  }

  /** `String(v)` where the model knows it; a function's source text is not modelled. */
  function ToJsString(v: Value): string {
    match v
    case Undefined => "undefined"
    case Null => "null"
    case Bool(b) => if b then "true" else "false"
    case Num(n) => IntToString(n)
    case Str(s) => s
    case Arr(items) => JoinComma(items)
    case Obj(_) => "[object Object]"
    case Fn(_) => "function"
    case Node(_) => "[object HTMLElement]"
  }

  /** `items.join(",")`: `null` and `undefined` print as empty. */
  function JoinComma(items: seq<Value>): string
    decreases items
  {
    if |items| == 0 then ""
    else
      var first := if IsNullish(items[0]) then "" else ToJsString(items[0]);
      if |items| == 1 then first else first + "," + JoinComma(items[1..])
  }

  /**
   * `escapeHtml`: arrays are joined with commas first; strings are escaped;
   * any other value is returned as it is.
   */
  function EscapeHtml(d: Value): (r: Value)
    ensures !d.Arr? && !d.Str? ==> r == d
    ensures r.Str? ==> '<' !in r.s && '>' !in r.s && '"' !in r.s
    ensures d.Str? ==> r.Str? && UnescapeEntities(r.s) == d.s
    ensures d.Arr? ==> r.Str? && UnescapeEntities(r.s) == JoinComma(d.items)
  {
    var v := if d.Arr? then Str(JoinComma(d.items)) else d;
    if v.Str? then
      EscapeChainIsPerCharacter(v.s);
      EscapeEachSafe(v.s);
      EscapeRoundTrip(v.s);
      Str(EscapeString(v.s))
    else v
  }

  // ---- stripHtml ----

  const MaxStrLen: nat := 268435456  // 2^28

  /** ASCII case folding, which is all `/i` does for the letters of `<script`. */
  function Lower(c: char): char {
    if 'A' <= c <= 'Z' then (c as int + 32) as char else c
  }

  const ScriptTag: string := "<script"

  /** `<script` in any letter case starts at position `i`. */
  predicate ScriptAt(s: string, i: nat) {
    i + 7 <= |s| && forall k :: 0 <= k < 7 ==> Lower(s[i + k]) == ScriptTag[k]
  }

  predicate HasScript(s: string) {
    exists i: nat :: i < |s| && ScriptAt(s, i)
  }

  function FindScript(s: string, from: nat): (r: Option<nat>)
    ensures r.Some? ==> from <= r.value && ScriptAt(s, r.value)
    ensures r.Some? ==> forall j: nat :: from <= j < r.value ==> !ScriptAt(s, j)
    ensures r.None? ==> forall j: nat :: from <= j ==> !ScriptAt(s, j)
    decreases |s| - from
  {
    if from + 7 > |s| then None
    else if ScriptAt(s, from) then Some(from)
    else FindScript(s, from + 1)
  }

  /** `s.replace(/<script/i, "")`: removes the first occurrence only. */
  function RemoveFirstScript(s: string): (r: string)
    ensures r == s <==> !HasScript(s)
    ensures r != s ==> |r| == |s| - 7
  {
    match FindScript(s, 0)
    case Some(i) => s[..i] + s[i + 7..]
    case None => s
  }

  /** Remove `<script` occurrences until none is left. */
  function RemoveScripts(s: string): (r: string)
    ensures !HasScript(r)
    ensures |r| <= |s|
    decreases |s|
  {
    var next := RemoveFirstScript(s);
    if next == s then s else RemoveScripts(next)
  }

  lemma RemoveScriptsIdempotent(s: string)
    ensures RemoveScripts(RemoveScripts(s)) == RemoveScripts(s)
  {
  }

  /** `stripHtml` as a value: its observable result. */
  function StripHtmlSpec(input: Value, removeTags: string -> string): Result<Value> {
    if !Truthy(input) || !input.Str? then Ok(input)
    else if |input.s| > MaxStrLen then Throw("Exceeded max str len")
    else Ok(Str(RemoveScripts(removeTags(input.s))))
  }

  /**
   * `stripHtml`: falsy and non-string input is returned unchanged, overlong
   * input throws, otherwise complete tags are removed and then `<script`
   * (any case) is removed repeatedly until a pass changes nothing.
   */
  method StripHtml(input: Value, removeTags: string -> string) returns (r: Result<Value>)
    ensures r == StripHtmlSpec(input, removeTags)
    ensures r.Ok? && r.value.Str? && input.Str? && input.s != "" ==> !HasScript(r.value.s)
  {
    if !Truthy(input) || !input.Str? {
      return Ok(input);
    }
    if |input.s| > MaxStrLen {
      return Throw("Exceeded max str len");
    }
    var start := removeTags(input.s);
    var previous := start;
    var current := RemoveFirstScript(previous);
    while current != previous
      invariant current == RemoveFirstScript(previous)
      invariant RemoveScripts(previous) == RemoveScripts(start)
      decreases |previous|
    {
      previous := current;
      current := RemoveFirstScript(previous);
    }
    return Ok(Str(previous));
  }

  // ---- normalize ----

  predicate IsCombiningMark(c: char) {
    '\U{300}' <= c <= '\U{36F}'
  }

  /** `s.replace(/[̀-ͯ]/g, "")`. */
  function RemoveMarks(s: string): (r: string)
    ensures forall c :: c in r ==> c in s && !IsCombiningMark(c)
    ensures |r| <= |s|
  {
    if |s| == 0 then "" else (if IsCombiningMark(s[0]) then "" else [s[0]]) + RemoveMarks(s[1..])
  }

  /**
   * `normalize(str, both)`: non-strings pass through; when NFD changes the
   * length, the combining marks are dropped (prefixed by the original and a
   * space when `both`); otherwise the NFD form is returned as it is.
   */
  function Normalize(str: Value, both: bool, nfd: string -> string): (r: Value)
    ensures !str.Str? ==> r == str
    ensures str.Str? && |nfd(str.s)| == |str.s| ==> r == Str(nfd(str.s))
    ensures str.Str? && |nfd(str.s)| != |str.s| ==>
      r == Str((if both then str.s + " " else "") + RemoveMarks(nfd(str.s)))
    ensures str.Str? && |nfd(str.s)| != |str.s| && !both ==>
      r.Str? && forall c :: c in r.s ==> !IsCombiningMark(c)
  {
    if !str.Str? then str
    else
      var res := nfd(str.s);
      if |res| != |str.s| then Str((if both then str.s + " " else "") + RemoveMarks(res))
      else Str(res)
  }

  /** Text already in decomposed form keeps its combining marks. */
  lemma NormalizeKeepsDecomposedMarks(nfd: string -> string)
    requires nfd("e\U{301}") == "e\U{301}"
    ensures Normalize(Str("e\U{301}"), false, nfd) == Str("e\U{301}")
    ensures exists c :: c in Normalize(Str("e\U{301}"), false, nfd).s && IsCombiningMark(c)
  {
    assert "e\U{301}"[1] == '\U{301}';
    assert '\U{301}' in Normalize(Str("e\U{301}"), false, nfd).s;
  }

  /**
   * A reference, with no counterpart in the library, that always drops the
   * combining marks after NFD, where `normalize` drops them only when NFD
   * changed the length.
   */
  function NormalizeMarks(str: Value, both: bool, nfd: string -> string): (r: Value)
    ensures !str.Str? ==> r == str
    ensures r.Str? && str.Str? && !both ==> forall c :: c in r.s ==> !IsCombiningMark(c)
    ensures str.Str? && |nfd(str.s)| != |str.s| ==> r == Normalize(str, both, nfd)
  {
    if !str.Str? then str
    else
      var res := nfd(str.s);
      if |res| != |str.s| then Str((if both then str.s + " " else "") + RemoveMarks(res))
      else if both then Str(str.s + " " + RemoveMarks(res))
      else Str(RemoveMarks(res))
  }

  lemma NormalizeMarksFixesDecomposed(nfd: string -> string)
    requires nfd("e\U{301}") == "e\U{301}"
    ensures NormalizeMarks(Str("e\U{301}"), false, nfd) == Str("e")
  {
    assert RemoveMarks("e\U{301}") == ['e'] + RemoveMarks("\U{301}");
  }

  // ---- _filterString ----

  predicate IsNewline(c: char) {
    c == '\r' || c == '\n' || c == '\U{2028}'
  }

  /** `str.replace(/[\r\n ]/g, " ")`. */
  function NewlinesToSpaces(s: string): (r: string)
    ensures |r| == |s|
    ensures forall i :: 0 <= i < |s| ==> r[i] == (if IsNewline(s[i]) then ' ' else s[i])
  {
    seq(|s|, i requires 0 <= i < |s| => if IsNewline(s[i]) then ' ' else s[i])
  }

  /**
   * The function `_filterString(stripHtml, normalize)` returns, applied to
   * `str`: empty and non-string values pass through; otherwise new lines
   * become spaces, then HTML is stripped if asked, then marks are removed if
   * asked.
   */
  function FilterString(stripHtml: bool, normalize: bool, str: Value,
                        removeTags: string -> string, nfd: string -> string): (r: Result<Value>)
    ensures IsEmpty(str) || !str.Str? ==> r == Ok(str)
    ensures str.Str? && !IsEmpty(str) && !stripHtml && !normalize ==>
      r.Ok? && r.value.Str? && |r.value.s| == |str.s| && forall c :: c in r.value.s ==> !IsNewline(c)
    ensures str.Str? && !IsEmpty(str) && stripHtml && |str.s| > MaxStrLen ==> r.Throw?
  {
    if IsEmpty(str) || !str.Str? then Ok(str)
    else
      var s1 := Str(NewlinesToSpaces(str.s));
      var s2 := if stripHtml then StripHtmlSpec(s1, removeTags) else Ok(s1);
      match s2
      case Throw(m) => Throw(m)
      case Ok(v) => Ok(if normalize then Normalize(v, false, nfd) else v)
  }

  /** Filtering an already filtered plain string changes nothing. */
  lemma FilterStringPlainIdempotent(str: Value, removeTags: string -> string, nfd: string -> string)
    requires FilterString(false, false, str, removeTags, nfd).Ok?
    ensures var once := FilterString(false, false, str, removeTags, nfd).value;
            FilterString(false, false, once, removeTags, nfd) == Ok(once)
  {
    if str.Str? && !IsEmpty(str) {
      var once := NewlinesToSpaces(str.s);
      assert NewlinesToSpaces(once) == once;
    }
  }
}
