/**
 The confidence-score text: the filter that keeps only digits and dots, and
 Python's `float()` on the strings that filter produces, read as exact reals.
 */
module Score {
  import opened Wrappers
  import opened Text

  /** An ASCII decimal digit (`str.isdigit` restricted to ASCII). */
  predicate IsDigit(c: char) {
    '0' <= c <= '9'
  }

  /** A character the score filter keeps: a digit or the literal `.`. */
  predicate IsScoreChar(c: char) {
    IsDigit(c) || c == '.'
  }

  predicate AllScoreChars(s: string) {
    forall k :: 0 <= k < |s| ==> IsScoreChar(s[k])
  }

  predicate AllDigits(s: string) {
    forall k :: 0 <= k < |s| ==> IsDigit(s[k])
  }

  /** `"".join(c for c in s if c.isdigit() or c == '.')`. */
  function KeepScoreChars(s: string): (r: string)
    ensures |r| <= |s|
    ensures AllScoreChars(r)
  {
    if s == [] then "" else Kept(s[0]) + KeepScoreChars(s[1..])
  }

  /** What the filter makes of one character. */
  function Kept(c: char): string {
    if IsScoreChar(c) then [c] else ""
  }

  /** The filter works character by character: filtering a concatenation filters each part. */
  lemma {:induction false} KeepScoreCharsAppend(a: string, b: string)
    ensures KeepScoreChars(a + b) == KeepScoreChars(a) + KeepScoreChars(b)
    decreases |a|
  {
    if a == [] {
      assert a + b == b;
    } else {
      var c := a + b;
      assert c[0] == a[0] && c[1..] == a[1..] + b;
      KeepScoreCharsAppend(a[1..], b);
      calc {
        KeepScoreChars(c);
        Kept(a[0]) + KeepScoreChars(a[1..] + b);
        Kept(a[0]) + (KeepScoreChars(a[1..]) + KeepScoreChars(b));
        (Kept(a[0]) + KeepScoreChars(a[1..])) + KeepScoreChars(b);
      }
    }
  }

  /** A string made only of digits and dots passes the filter unchanged. */
  lemma {:induction false} KeepScoreCharsKeepsAll(s: string)
    requires AllScoreChars(s)
    ensures KeepScoreChars(s) == s
    decreases |s|
  {
    if s != [] {
      KeepScoreCharsKeepsAll(s[1..]);
    }
  }

  /** A string with no digit and no dot filters to nothing. */
  lemma {:induction false} KeepScoreCharsDropsAll(s: string)
    requires forall k :: 0 <= k < |s| ==> !IsScoreChar(s[k])
    ensures KeepScoreChars(s) == ""
    decreases |s|
  {
    if s != [] {
      KeepScoreCharsDropsAll(s[1..]);
    }
  }

  lemma KeepScoreCharsSplitAt(s: string, i: nat)
    requires i <= |s|
    ensures KeepScoreChars(s) == KeepScoreChars(s[..i]) + KeepScoreChars(s[i..])
  {
    assert s == s[..i] + s[i..];
    KeepScoreCharsAppend(s[..i], s[i..]);
  }

  lemma SpacesAreDropped(s: string)
    requires AllSpace(s)
    ensures KeepScoreChars(s) == ""
  {
    forall k | 0 <= k < |s| ensures !IsScoreChar(s[k]) {
      assert IsSpace(s[k]);
    }
    KeepScoreCharsDropsAll(s);
  }

  lemma DropLeadingSpaces(s: string, i: nat)
    requires i <= |s| && forall k :: 0 <= k < i ==> IsSpace(s[k])
    ensures KeepScoreChars(s) == KeepScoreChars(s[i..])
  {
    KeepScoreCharsSplitAt(s, i);
    SpacesAreDropped(s[..i]);
    assert "" + KeepScoreChars(s[i..]) == KeepScoreChars(s[i..]);
  }

  lemma DropTrailingSpaces(s: string, e: nat)
    requires e <= |s| && forall k :: e <= k < |s| ==> IsSpace(s[k])
    ensures KeepScoreChars(s) == KeepScoreChars(s[..e])
  {
    KeepScoreCharsSplitAt(s, e);
    SpacesAreDropped(s[e..]);
    assert KeepScoreChars(s[..e]) + "" == KeepScoreChars(s[..e]);
  }

  /** Whitespace is never kept, so stripping before filtering changes nothing. */
  lemma StripThenKeep(s: string)
    ensures KeepScoreChars(Strip(s)) == KeepScoreChars(s)
  {
    var i := LeadingSpaces(s);
    var t := s[i..];
    var e := ContentEnd(t);
    assert Strip(s) == t[..e];
    DropLeadingSpaces(s, i);
    DropTrailingSpaces(t, e);
  }

  function CountDots(s: string): (n: nat)
    ensures n <= |s|
  {
    if s == [] then 0 else (if s[0] == '.' then 1 else 0) + CountDots(s[1..])
  }

  /** Counting dots in two halves of a string adds up. */
  lemma {:induction false} CountDotsSplitAt(s: string, i: nat)
    requires i <= |s|
    ensures CountDots(s) == CountDots(s[..i]) + CountDots(s[i..])
    decreases i
  {
    if i > 0 {
      CountDotsSplitAt(s[1..], i - 1);
      assert s[1..][..i - 1] == s[..i][1..];
      assert s[1..][i - 1..] == s[i..];
    } else {
      assert s[0..] == s;
    }
  }

  /** A string has no dot exactly when its dot count is zero. */
  lemma {:induction false} CountDotsZero(s: string)
    ensures CountDots(s) == 0 <==> forall k :: 0 <= k < |s| ==> s[k] != '.'
    decreases |s|
  {
    if s != [] {
      CountDotsZero(s[1..]);
      assert forall k :: 1 <= k < |s| ==> s[k] == s[1..][k - 1];
    }
  }

  /** The index of the first `.` in `s`, or `|s|` when there is none. */
  function DotIndex(s: string): (i: nat)
    ensures i <= |s|
    ensures forall k :: 0 <= k < i ==> s[k] != '.'
    ensures i < |s| ==> s[i] == '.'
  {
    if s == [] || s[0] == '.' then 0
    else
      var i := 1 + DotIndex(s[1..]);
      assert forall k :: 1 <= k < i ==> s[k] == s[1..][k - 1];
      i
  }

  predicate HasDigit(s: string) {
    exists k :: 0 <= k < |s| && IsDigit(s[k])
  }

  /** The digit/dot strings that `float()` accepts: at least one digit and at most one dot. */
  predicate WellFormedDecimal(s: string) {
    HasDigit(s) && CountDots(s) <= 1
  }

  /** The digits before the dot. */
  function WholePart(s: string): string {
    s[..DotIndex(s)]
  }

  /** The digits after the dot (none when there is no dot). */
  function FractionPart(s: string): string {
    var i := DotIndex(s);
    if i < |s| then s[i + 1..] else ""
  }

  /** A digit/dot string without a dot is a run of digits. */
  lemma NoDotsAreDigits(s: string)
    requires AllScoreChars(s) && CountDots(s) == 0
    ensures AllDigits(s)
  {
    CountDotsZero(s);
  }

  /** On a digit/dot string with at most one dot, both sides of the dot are plain digits. */
  lemma PartsAreDigits(s: string)
    requires AllScoreChars(s) && CountDots(s) <= 1
    ensures AllDigits(WholePart(s)) && AllDigits(FractionPart(s))
  {
    var i := DotIndex(s);
    assert AllDigits(s[..i]) by {
      forall k | 0 <= k < i ensures IsDigit(s[..i][k]) {
        assert IsScoreChar(s[k]) && s[k] != '.';
      }
    }
    if i < |s| {
      assert CountDots(s[..i]) == 0 by { CountDotsZero(s[..i]); }
      CountDotsSplitAt(s, i);
      assert CountDots(s[i..]) == 1 + CountDots(s[i + 1..]) by {
        assert s[i..][1..] == s[i + 1..];
      }
      NoDotsAreDigits(s[i + 1..]);
    }
  }

  function Pow10(n: nat): (p: nat)
    ensures p >= 1
  {
    if n == 0 then 1 else 10 * Pow10(n - 1)
  }

  /** The natural number a string of decimal digits denotes (0 for the empty string). */
  function DigitsValue(ds: string): nat
    requires AllDigits(ds)
  {
    if ds == [] then 0
    else 10 * DigitsValue(ds[..|ds| - 1]) + (ds[|ds| - 1] as int - '0' as int)
  }

  /** A string of n digits denotes less than 10^n. */
  lemma {:induction false} DigitsValueBound(ds: string)
    requires AllDigits(ds)
    ensures DigitsValue(ds) < Pow10(|ds|)
    decreases |ds|
  {
    if ds != [] {
      DigitsValueBound(ds[..|ds| - 1]);
    }
  }

  /**
   `float(s)` for a string of digits and dots: `None` where Python raises
   `ValueError` (no digit, or more than one dot), otherwise the exact value of
   `<whole>.<fraction>`, either side of the dot possibly empty.
   */
  function ParseDecimal(s: string): (r: Option<real>)
    requires AllScoreChars(s)
    ensures r.Some? <==> WellFormedDecimal(s)
  {
    if !WellFormedDecimal(s) then None
    else
      PartsAreDigits(s);
      Some(DecimalValue(WholePart(s), FractionPart(s)))
  }

  /** The value of the decimal numeral `w.f`. */
  function DecimalValue(w: string, f: string): real
    requires AllDigits(w) && AllDigits(f)
  {
    DigitsValue(w) as real + DigitsValue(f) as real / Pow10(|f|) as real
  }

  /** A fraction whose numerator is below its denominator lies in [0, 1). */
  lemma FractionBelowOne(x: real, y: real)
    requires 0.0 <= x < y
    ensures 0.0 <= x / y < 1.0
  {
    assert x / y * y == x;
  }

  /**
   A parsed score is never negative (no sign survives the filter), and lies
   between the number before the dot and the next integer.
   */
  lemma ParseDecimalBounds(s: string)
    requires AllScoreChars(s) && WellFormedDecimal(s)
    ensures PartsAreDigitsOf(s)
    ensures var w := DigitsValue(WholePart(s)) as real;
      w <= ParseDecimal(s).value < w + 1.0
    ensures ParseDecimal(s).value >= 0.0
  {
    PartsAreDigits(s);
    var f := FractionPart(s);
    DigitsValueBound(f);
    FractionBelowOne(DigitsValue(f) as real, Pow10(|f|) as real);
    assert ParseDecimal(s).value == DecimalValue(WholePart(s), f);
  }

  predicate PartsAreDigitsOf(s: string) {
    AllDigits(WholePart(s)) && AllDigits(FractionPart(s))
  }

  /** A run of digits parses to the number it denotes. */
  lemma ParseWholeNumber(ds: string)
    requires AllDigits(ds) && ds != []
    ensures AllScoreChars(ds)
    ensures ParseDecimal(ds) == Some(DigitsValue(ds) as real)
  {
    assert IsDigit(ds[0]);
    CountDotsZero(ds);
    assert DotIndex(ds) == |ds|;
    assert WholePart(ds) == ds && FractionPart(ds) == "";
    assert DecimalValue(ds, "") == DigitsValue(ds) as real;
  }

  /** A string `w.f` of digits around one dot parses to w + f / 10^|f| when a digit is present. */
  lemma ParseAtDot(s: string, i: nat)
    requires i < |s| && s[i] == '.' && |s| > 1
    requires AllDigits(s[..i]) && AllDigits(s[i + 1..])
    ensures AllScoreChars(s) && DotIndex(s) == i
    ensures ParseDecimal(s) == Some(DecimalValue(s[..i], s[i + 1..]))
  {
    assert AllScoreChars(s) by {
      assert forall k :: 0 <= k < i ==> s[k] == s[..i][k];
      assert forall k :: i < k < |s| ==> s[k] == s[i + 1..][k - i - 1];
    }
    assert DotIndex(s) == i by {
      assert forall k :: 0 <= k < i ==> s[k] == s[..i][k];
    }
    assert HasDigit(s) by {
      if i > 0 { assert s[0] == s[..i][0]; } else { assert s[1] == s[i + 1..][0]; }
    }
    assert CountDots(s) == 1 by {
      CountDotsZero(s[..i]);
      CountDotsZero(s[i + 1..]);
      CountDotsSplitAt(s, i);
      assert s[i..][1..] == s[i + 1..];
    }
    assert WholePart(s) == s[..i] && FractionPart(s) == s[i + 1..];
  }
}
