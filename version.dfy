/** The library's version string and `versionCheck` (`src/api/api.version.js`). */
module Version {
  import opened Wrappers
  import opened JsValue

  const CurrentVersion: string := "2.3.2"

  /** `s.split(sep)`: empty pieces are kept, and `""` splits into `[""]`. */
  function Split(s: string, sep: char): (r: seq<string>)
    ensures |r| > 0
    ensures forall i :: 0 <= i < |r| ==> sep !in r[i]
  {
    if |s| == 0 then [""]
    else
      var rest := Split(s[1..], sep);
      if s[0] == sep then [""] + rest else [[s[0]] + rest[0]] + rest[1..]
  }

  /** Joining the pieces with the separator restores the string. */
  lemma {:induction false} SplitJoin(s: string, sep: char)
    ensures Join(Split(s, sep), sep) == s
  {
    if |s| > 0 {
      SplitJoin(s[1..], sep);
      var rest := Split(s[1..], sep);
      if s[0] != sep {
        if |rest| > 1 {
          assert rest == [rest[0]] + rest[1..];
        }
      }
      assert s == [s[0]] + s[1..];
    }
  }

  function Join(parts: seq<string>, sep: char): string
    requires |parts| > 0
  {
    if |parts| == 1 then parts[0] else parts[0] + [sep] + Join(parts[1..], sep)
  }

  /** The longest run of decimal digits at the start of `s`. */
  function DigitPrefix(s: string): (r: string)
    ensures AllDigits(r) && |r| <= |s| && r == s[..|r|]
    ensures |r| < |s| ==> !IsDigit(s[|r|])
  {
    if |s| > 0 && IsDigit(s[0]) then [s[0]] + DigitPrefix(s[1..]) else ""
  }

  /**
   * `parseInt(s, 10) || 0`: leading white space and one sign are skipped, the
   * leading digits are read; no digits (NaN) and minus zero both give 0.
   */
  function ParseIntOrZero(s: string): (n: int)
    ensures AllDigits(s) && |s| > 0 ==> n == DigitsValue(s)
  {
    var t := TrimStart(s);
    var neg := |t| > 0 && t[0] == '-';
    var body := if |t| > 0 && (t[0] == '-' || t[0] == '+') then t[1..] else t;
    var digits := DigitPrefix(body);
    assert AllDigits(s) && |s| > 0 ==> t == s && body == s && digits == s;
    if |digits| == 0 then 0
    else if neg then -(DigitsValue(digits) as int)
    else DigitsValue(digits)
  }

  /** Component `i` of a split version; a missing component reads as 0. */
  function Component(parts: seq<string>, i: nat): int {
    if i < |parts| then ParseIntOrZero(parts[i]) else 0
  }

  /**
   * The result `versionCheck` computes: the first of the required version's
   * components that differs decides, and all equal means "at least".
   */
  function AtLeastFrom(have: seq<string>, need: seq<string>, i: nat): bool
    decreases |need| - i
  {
    if i >= |need| then true
    else if Component(have, i) != Component(need, i) then Component(have, i) > Component(need, i)
    else AtLeastFrom(have, need, i + 1)
  }

  /** The version being checked: the second argument when truthy, else this library's. */
  function Candidate(version2: Option<string>): string {
    if version2.Some? && version2.value != "" then version2.value else CurrentVersion
  }

  /**
   * `versionCheck(version, version2)`: is `version2` (or the library's own
   * version) at least `version`?
   */
  method VersionCheck(version: string, version2: Option<string>) returns (ok: bool)
    ensures ok == AtLeastFrom(Split(Candidate(version2), '.'), Split(version, '.'), 0)
  {
    var candidate := Candidate(version2);
    var aThis := Split(candidate, '.');
    var aThat := Split(version, '.');
    ok := CompareParts(aThis, aThat);
  }

  /** The comparison loop of `versionCheck`, over already split versions. */
  method CompareParts(aThis: seq<string>, aThat: seq<string>) returns (ok: bool)
    ensures ok == AtLeastFrom(aThis, aThat, 0)
  {
    var i := 0;
    while i < |aThat|
      invariant 0 <= i <= |aThat|
      invariant AtLeastFrom(aThis, aThat, 0) == AtLeastFrom(aThis, aThat, i)
    {
      var iThis := if i < |aThis| then ParseIntOrZero(aThis[i]) else 0;
      var iThat := ParseIntOrZero(aThat[i]);
      if iThis != iThat {
        return iThis > iThat;
      }
      i := i + 1;
    }
    return true;
  }

  /** Every version is at least itself. */
  lemma {:induction false} AtLeastReflexive(parts: seq<string>, i: nat)
    ensures AtLeastFrom(parts, parts, i)
    decreases |parts| - i
  {
    if i < |parts| {
      AtLeastReflexive(parts, i + 1);
    }
  }

  /** Of two versions, one is always at least the other. */
  lemma {:induction false} AtLeastTotal(a: seq<string>, b: seq<string>, i: nat)
    ensures AtLeastFrom(a, b, i) || AtLeastFrom(b, a, i)
    decreases |b| - i
  {
    if i < |a| && i < |b| && Component(a, i) == Component(b, i) {
      AtLeastTotal(a, b, i + 1);
    }
  }

  /** Components past the length of the required version are never compared. */
  lemma {:induction false} AtLeastIgnoresExtra(have: seq<string>, need: seq<string>, extra: seq<string>, i: nat)
    requires |have| >= |need|
    ensures AtLeastFrom(have, need, i) == AtLeastFrom(have + extra, need, i)
    decreases |need| - i
  {
    if i < |need| {
      AtLeastIgnoresExtra(have, need, extra, i + 1);
      ComponentOfPrefix(have, extra, i);
    }
  }


  lemma ComponentOfPrefix(have: seq<string>, extra: seq<string>, i: nat)
    requires i < |have|
    ensures Component(have + extra, i) == Component(have, i)
  {
    assert (have + extra)[i] == have[i];
  }

  /** A missing component counts as 0, so a trailing ".0" requirement changes nothing. */
  lemma {:induction false} TrailingZeroIrrelevant(have: seq<string>, need: seq<string>, i: nat)
    requires |have| <= |need| && i <= |need|
    ensures AtLeastFrom(have, need + ["0"], i) == AtLeastFrom(have, need, i)
    decreases |need| - i
  {
    var need' := need + ["0"];
    if i < |need| {
      ComponentOfPrefix(need, ["0"], i);
      TrailingZeroIrrelevant(have, need, i + 1);
    } else {
      assert need'[i] == "0";
      ZeroComponent();
      assert Component(need', i) == 0 == Component(have, i);
      assert AtLeastFrom(have, need', i + 1);
    }
  }

  lemma ZeroComponent()
    ensures ParseIntOrZero("0") == 0
  {
    var zero := "0";
    assert AllDigits(zero) && zero[..0] == "";
    assert DigitsValue(zero) == 0;
  }

  /** Components compare as numbers, not as text: 1.9 is below 1.10. */
  lemma NumericNotLexical()
    ensures !AtLeastFrom(["1", "9"], ["1", "10"], 0)
    ensures AtLeastFrom(["1", "10"], ["1", "9"], 0)
  {
    assert AllDigits("1") && AllDigits("9") && AllDigits("10");
    assert DigitsValue("10") == 10 by { assert "10"[..1] == "1"; }
    assert Component(["1", "9"], 1) == 9;
    assert Component(["1", "10"], 1) == 10;
  }

  /** `versionCheck(v, v)` holds for every version string. */
  lemma VersionCheckReflexive(v: string)
    requires v != ""
    ensures AtLeastFrom(Split(Candidate(Some(v)), '.'), Split(v, '.'), 0)
  {
    AtLeastReflexive(Split(v, '.'), 0);
  }
}
