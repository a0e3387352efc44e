/** The few Python string operations the scripts rely on: `str.strip()`,
    `in` on strings, `str.replace(old, "")`, `int(text)` and `float(text)`.
    Strings are sequences of Unicode scalar values. A Python `str` holds code
    points and may contain lone surrogates; the model assumes text without
    them. */
module Text {
  import opened Wrappers

  // ---------------------------------------------------------------------
  // Whitespace and str.strip()
  // ---------------------------------------------------------------------

  /** The characters for which Python's `str.isspace()` holds. */
  predicate IsSpace(c: char) {
    c == ' ' || c == '\t' || c == '\n' || c == '\r' || c == '\U{B}' || c == '\U{C}'
    || ('\U{1C}' <= c <= '\U{1F}') || c == '\U{85}' || c == '\U{A0}' || c == '\U{1680}'
    || ('\U{2000}' <= c <= '\U{200A}') || c == '\U{2028}' || c == '\U{2029}'
    || c == '\U{202F}' || c == '\U{205F}' || c == '\U{3000}'
  }

  function StripLeft(s: string): (r: string)
    ensures |r| <= |s|
    ensures r != [] ==> !IsSpace(r[0])
  {
    if s != [] && IsSpace(s[0]) then StripLeft(s[1..]) else s
  }

  function StripRight(s: string): (r: string)
    ensures |r| <= |s|
    ensures r != [] ==> !IsSpace(r[|r| - 1])
  {
    if s != [] && IsSpace(s[|s| - 1]) then StripRight(s[..|s| - 1]) else s
  }

  /** Python's `s.strip()`. */
  function Strip(s: string): string {
    StripRight(StripLeft(s))
  }

  /** `StripLeft` keeps a suffix and drops only whitespace. */
  lemma {:induction false} StripLeftSpec(s: string)
    ensures StripLeft(s) == s[|s| - |StripLeft(s)|..]
    ensures forall i :: 0 <= i < |s| - |StripLeft(s)| ==> IsSpace(s[i])
    decreases |s|
  {
    if s != [] && IsSpace(s[0]) {
      StripLeftSpec(s[1..]);
      assert forall i :: 1 <= i < |s| - |StripLeft(s)| ==> s[i] == s[1..][i - 1];
    }
  }

  /** `StripRight` keeps a prefix and drops only whitespace. */
  lemma {:induction false} StripRightSpec(s: string)
    ensures StripRight(s) == s[..|StripRight(s)|]
    ensures forall i :: |StripRight(s)| <= i < |s| ==> IsSpace(s[i])
    decreases |s|
  {
    if s != [] && IsSpace(s[|s| - 1]) {
      StripRightSpec(s[..|s| - 1]);
    }
  }

  /** `s.strip()` is the slice of `s` left once the whitespace at both ends
      is dropped: it neither starts nor ends with whitespace, and everything
      outside it is whitespace. */
  lemma {:induction false} StripSpec(s: string)
    ensures var r := Strip(s); var k := |s| - |StripLeft(s)|;
      && (r != [] ==> !IsSpace(r[0]) && !IsSpace(r[|r| - 1]))
      && k + |r| <= |s| && r == s[k..k + |r|]
      && (forall i :: 0 <= i < k ==> IsSpace(s[i]))
      && (forall i :: k + |r| <= i < |s| ==> IsSpace(s[i]))
  {
    var l := StripLeft(s);
    var r := Strip(s);
    var k := |s| - |l|;
    StripLeftSpec(s);
    StripRightSpec(l);
    if r != [] {
      assert r[0] == l[0];
    }
    forall i | k + |r| <= i < |s| ensures IsSpace(s[i]) {
      assert s[i] == l[i - k];
    }
  }

  /** Stripping twice changes nothing more than stripping once. */
  lemma {:induction false} StripIdempotent(s: string)
    ensures Strip(Strip(s)) == Strip(s)
  {
    var r := Strip(s);
    StripSpec(s);
    assert StripLeft(r) == r;
  }

  // ---------------------------------------------------------------------
  // Substrings and str.replace
  // ---------------------------------------------------------------------

  predicate IsPrefix(pat: string, s: string) {
    |pat| <= |s| && s[..|pat|] == pat
  }

  /** Python's `pat in s`. */
  predicate Contains(s: string, pat: string)
    decreases |s|
  {
    IsPrefix(pat, s) || (s != [] && Contains(s[1..], pat))
  }

  lemma {:induction false} ShortNotContains(t: string, pat: string)
    requires |t| < |pat|
    ensures !Contains(t, pat)
    decreases |t|
  {
    if t != [] { ShortNotContains(t[1..], pat); }
  }

  /** `pat` has no proper border: no proper suffix of it is also a prefix,
      so two of its occurrences never overlap. */
  predicate Borderless(pat: string) {
    forall k :: 0 < k < |pat| ==> pat[k..] != pat[..|pat| - k]
  }

  /** Python's `s.replace(pat, rep)` for a non-empty `pat`: occurrences are
      found left to right and do not overlap; text produced by a replacement
      is not scanned again. */
  function ReplaceAll(s: string, pat: string, rep: string): string
    requires |pat| > 0
    decreases |s|
  {
    if |s| < |pat| then s
    else if s[..|pat|] == pat then rep + ReplaceAll(s[|pat|..], pat, rep)
    else [s[0]] + ReplaceAll(s[1..], pat, rep)
  }

  /** Replacing a pattern that does not occur leaves the text as it is. */
  lemma {:induction false} ReplaceAbsent(s: string, pat: string, rep: string)
    requires |pat| > 0 && !Contains(s, pat)
    ensures ReplaceAll(s, pat, rep) == s
    decreases |s|
  {
    if |s| >= |pat| {
      assert s[..|pat|] != pat;
      ReplaceAbsent(s[1..], pat, rep);
      assert [s[0]] + s[1..] == s;
    }
  }

  /** An occurrence at the very front is replaced and the scan resumes
      right after it. */
  lemma {:induction false} ReplaceLeading(pat: string, t: string, rep: string)
    requires |pat| > 0
    ensures ReplaceAll(pat + t, pat, rep) == rep + ReplaceAll(t, pat, rep)
  {
    assert (pat + t)[..|pat|] == pat;
    assert (pat + t)[|pat|..] == t;
  }

  /** A borderless `pat` absent from a non-empty `u` does not start `u + pat`. */
  lemma {:induction false} NotLeading(u: string, pat: string)
    requires u != [] && |pat| > 0 && Borderless(pat) && !Contains(u, pat)
    ensures (u + pat)[..|pat|] != pat
  {
    var s := u + pat;
    if |u| >= |pat| {
      assert s[..|pat|] == u[..|pat|];
    } else {
      var k := |u|;
      assert pat[k..] != pat[..|pat| - k];
      assert s[k..|pat|] == pat[..|pat| - k];
    }
  }

  /** For a borderless `pat` that does not occur in `u`, the only occurrence
      in `u + pat` is the trailing one. */
  lemma {:induction false} ReplaceTrailing(u: string, pat: string, rep: string)
    requires |pat| > 0 && Borderless(pat) && !Contains(u, pat)
    ensures ReplaceAll(u + pat, pat, rep) == u + rep
    decreases |u|
  {
    if u == [] {
      assert u + pat == pat + [];
      ReplaceLeading(pat, [], rep);
    } else {
      NotLeading(u, pat);
      ReplaceTrailing(u[1..], pat, rep);
      assert (u + pat)[1..] == u[1..] + pat;
      assert [u[0]] + (u[1..] + rep) == u + rep;
    }
  }

  // ---------------------------------------------------------------------
  // Decimal digits, int(text) and float(text)
  // ---------------------------------------------------------------------

  predicate IsDigit(c: char) { '0' <= c <= '9' }

  predicate AllDigits(s: string) {
    forall i :: 0 <= i < |s| ==> IsDigit(s[i])
  }

  /** The value of a string of decimal digits (0 for the empty string). */
  function DigitsValue(s: string): nat
    requires AllDigits(s)
  {
    if s == [] then 0
    else DigitsValue(s[..|s| - 1]) * 10 + ((s[|s| - 1] as int) - ('0' as int))
  }

  /** The decimal rendering of `n`, as Python's `str(n)` gives it. */
  function NatToDigits(n: nat): (r: string)
    ensures |r| > 0 && AllDigits(r)
  {
    if n < 10 then [(('0' as int) + n) as char]
    else NatToDigits(n / 10) + [(('0' as int) + n % 10) as char]
  }

  /** Reading back a rendered number gives the number. */
  lemma {:induction false} DigitsRoundTrip(n: nat)
    ensures DigitsValue(NatToDigits(n)) == n
  {
    if n >= 10 {
      var r := NatToDigits(n);
      assert r[..|r| - 1] == NatToDigits(n / 10);
      DigitsRoundTrip(n / 10);
    }
  }

  /** Python's `int(text)` in base 10: surrounding whitespace, an optional
      sign, then one or more ASCII digits. `None` stands for the ValueError. */
  function ParseInt(text: string): Option<int> {
    var t := Strip(text);
    if t != [] && (t[0] == '-' || t[0] == '+') then
      var body := t[1..];
      if body != [] && AllDigits(body) then
        var v: int := DigitsValue(body);
        Some(if t[0] == '-' then -v else v)
      else None
    else if t != [] && AllDigits(t) then Some(DigitsValue(t))
    else None
  }

  /** `str(n)` for an int, with its minus sign. */
  function IntToText(n: int): string {
    if n < 0 then "-" + NatToDigits(-n) else NatToDigits(n)
  }

  lemma {:induction false} StripDigits(s: string)
    requires s != [] && AllDigits(s)
    ensures Strip(s) == s
  {
    assert StripLeft(s) == s;
  }

  /** `int(str(n)) == n`. */
  lemma {:induction false} ParseIntRoundTrip(n: int)
    ensures ParseInt(IntToText(n)) == Some(n)
  {
    var t := IntToText(n);
    if n < 0 {
      var d := NatToDigits(-n);
      assert t[1..] == d;
      assert StripLeft(t) == t;
      assert !IsSpace(t[|t| - 1]);
      DigitsRoundTrip(-n);
    } else {
      StripDigits(t);
      DigitsRoundTrip(n);
    }
  }

  function Pow10(k: nat): (r: nat)
    ensures r >= 1
  {
    if k == 0 then 1 else 10 * Pow10(k - 1)
  }

  /** The index of the first `c` in `s`, if any. */
  function IndexOf(s: string, c: char): (r: Option<nat>)
    ensures r.Some? ==> r.value < |s| && s[r.value] == c
    ensures r.Some? ==> forall i :: 0 <= i < r.value ==> s[i] != c
    ensures r.None? ==> forall i :: 0 <= i < |s| ==> s[i] != c
  {
    if s == [] then None
    else if s[0] == c then Some(0)
    else match IndexOf(s[1..], c)
      case None => None
      case Some(i) => Some(i + 1)
  }

  /** An unsigned decimal numeral: digits, optionally a point and more
      digits, with at least one digit in all. */
  function UnsignedDecimal(body: string): Option<real> {
    match IndexOf(body, '.')
    case None =>
      if body != [] && AllDigits(body) then Some(DigitsValue(body) as real) else None
    case Some(k) =>
      var whole, frac := body[..k], body[k + 1..];
      if |whole| + |frac| > 0 && AllDigits(whole) && AllDigits(frac) then
        Some(DigitsValue(whole) as real + DigitsValue(frac) as real / Pow10(|frac|) as real)
      else None
  }

  /** Python's `float(text)` for plain decimal numerals: surrounding
      whitespace, an optional sign and an unsigned decimal. `None` stands for
      the ValueError. */
  function ParseDecimal(text: string): Option<real> {
    var t := Strip(text);
    if t != [] && (t[0] == '-' || t[0] == '+') then
      match UnsignedDecimal(t[1..])
      case None => None
      case Some(x) => Some(if t[0] == '-' then -x else x)
    else UnsignedDecimal(t)
  }

  /** `float(str(n)) == n` for a natural number. */
  lemma {:induction false} ParseDecimalWhole(n: nat)
    ensures ParseDecimal(NatToDigits(n)) == Some(n as real)
  {
    var t := NatToDigits(n);
    StripDigits(t);
    assert IndexOf(t, '.') == None;
    DigitsRoundTrip(n);
  }
}
