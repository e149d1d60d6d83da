/**
 The Python string operations the agent relies on: `str.strip()`, the substring
 test `sep in s`, `str.split(sep)` and `sep.join(parts)`, on strings as
 sequences of characters.
 */
module Text {
  import opened Wrappers

  /** The ASCII characters for which Python's `str.isspace` holds: the ones `strip()` removes. */
  predicate IsSpace(c: char) {
    c == ' ' || c == '\t' || c == '\n' || c == '\r' || c == '\U{0B}' || c == '\U{0C}'
    || ('\U{1C}' <= c <= '\U{1F}')
  }

  predicate AllSpace(s: string) {
    forall k :: 0 <= k < |s| ==> IsSpace(s[k])
  }

  /** A string with no surrounding whitespace: empty, or non-blank at both ends. */
  predicate Trimmed(s: string) {
    s == [] || (!IsSpace(s[0]) && !IsSpace(s[|s| - 1]))
  }

  /** The number of whitespace characters at the front of `s`. */
  function LeadingSpaces(s: string): (n: nat)
    ensures n <= |s|
    ensures forall k :: 0 <= k < n ==> IsSpace(s[k])
    ensures n == |s| || !IsSpace(s[n])
  {
    if |s| > 0 && IsSpace(s[0]) then
      var n := 1 + LeadingSpaces(s[1..]);
      assert forall k :: 1 <= k < n ==> s[k] == s[1..][k - 1];
      n
    else 0
  }

  /** The length of `s` without its trailing whitespace. */
  function ContentEnd(s: string): (n: nat)
    ensures n <= |s|
    ensures forall k :: n <= k < |s| ==> IsSpace(s[k])
    ensures n == 0 || !IsSpace(s[n - 1])
  {
    if |s| > 0 && IsSpace(s[|s| - 1]) then
      var n := ContentEnd(s[..|s| - 1]);
      assert forall k :: n <= k < |s| - 1 ==> s[k] == s[..|s| - 1][k];
      n
    else |s|
  }

  /** `s.strip()`: the result has no surrounding whitespace, and is empty exactly for blank input. */
  function Strip(s: string): (r: string)
    ensures Trimmed(r)
    ensures |r| <= |s|
    ensures r == [] <==> AllSpace(s)
  {
    var i := LeadingSpaces(s);
    var t := s[i..];
    var r := t[..ContentEnd(t)];
    assert r == [] ==> i == |s| by {
      if i < |s| {
        assert t[0] == s[i];
      }
    }
    r
  }

  /** `s.strip()` is the piece of `s` that starts after its leading whitespace. */
  lemma StripIsSlice(s: string)
    ensures var i := LeadingSpaces(s);
      i + |Strip(s)| <= |s| && Strip(s) == s[i..i + |Strip(s)|]
  {
  }

  /** Trimming stops at the first non-blank character: whitespace in front of it is all skipped. */
  lemma LeadingSpacesOf(a: string, m: string)
    requires AllSpace(a) && (m == [] || !IsSpace(m[0]))
    ensures LeadingSpaces(a + m) == |a|
  {
    var s := a + m;
    assert forall k :: 0 <= k < |a| ==> s[k] == a[k];
    if m != [] {
      assert s[|a|] == m[0];
    }
  }

  lemma ContentEndOf(m: string, b: string)
    requires AllSpace(b) && (m == [] || !IsSpace(m[|m| - 1]))
    ensures ContentEnd(m + b) == |m|
  {
    var s := m + b;
    assert forall k :: |m| <= k < |s| ==> s[k] == b[k - |m|];
    if m != [] {
      assert s[|m| - 1] == m[|m| - 1];
    }
  }

  /**
   `strip()` is determined by its result's shape: whatever whitespace surrounds a
   trimmed string, stripping gives that string back.
   */
  lemma StripUnique(a: string, m: string, b: string)
    requires AllSpace(a) && AllSpace(b) && Trimmed(m)
    ensures Strip(a + m + b) == m
  {
    var s := a + m + b;
    if m == [] {
      assert s == (a + b) + [];
      LeadingSpacesOf(a + b, []);
    } else {
      assert s == a + (m + b);
      LeadingSpacesOf(a, m + b);
      assert s[|a|..] == m + b;
      ContentEndOf(m, b);
      assert (m + b)[..|m|] == m;
    }
  }

  /** Stripping twice is stripping once. */
  lemma StripIdempotent(s: string)
    ensures Strip(Strip(s)) == Strip(s)
  {
    var m := Strip(s);
    StripUnique([], m, []);
    assert [] + m + [] == m;
  }

  /** `sep` occurs in `s` starting at index `i`. */
  predicate OccursAt(s: string, sep: string, i: nat) {
    i + |sep| <= |s| && s[i..i + |sep|] == sep
  }

  /** The first occurrence of `sep` in `s` at or after index `from`. */
  function FindFrom(s: string, sep: string, from: nat): (r: Option<nat>)
    ensures r.Some? ==> from <= r.value && OccursAt(s, sep, r.value)
    ensures r.Some? ==> forall j :: from <= j < r.value ==> !OccursAt(s, sep, j)
    ensures r.None? ==> forall j :: from <= j ==> !OccursAt(s, sep, j)
    decreases |s| - from
  {
    if from + |sep| > |s| then None
    else if OccursAt(s, sep, from) then Some(from)
    else FindFrom(s, sep, from + 1)
  }

  /** `s.find(sep)`, with `None` for -1. */
  function Find(s: string, sep: string): (r: Option<nat>)
    ensures r.Some? ==> OccursAt(s, sep, r.value)
    ensures r.Some? ==> forall j: nat :: j < r.value ==> !OccursAt(s, sep, j)
    ensures r.None? ==> forall j: nat :: !OccursAt(s, sep, j)
  {
    FindFrom(s, sep, 0)
  }

  /** Python's `sep in s`. */
  predicate Contains(s: string, sep: string)
    ensures Contains(s, sep) <==> exists i: nat :: OccursAt(s, sep, i)
  {
    Find(s, sep).Some?
  }

  /** An occurrence inside a prefix is an occurrence in the whole string. */
  lemma OccursInPrefix(s: string, sep: string, n: nat, j: nat)
    requires n <= |s|
    ensures OccursAt(s[..n], sep, j) ==> OccursAt(s, sep, j) && j + |sep| <= n
  {
    if j + |sep| <= n {
      assert s[..n][j..j + |sep|] == s[j..j + |sep|];
    }
  }

  /** A slice of the window `p == s[start..start + |p|]` is the matching slice of `s`. */
  lemma WindowSlice(s: string, start: nat, p: string, j: nat, n: nat)
    requires start + |p| <= |s| && p == s[start..start + |p|] && j + n <= |p|
    ensures p[j..j + n] == s[start + j..start + j + n]
  {
    var x, y := p[j..j + n], s[start + j..start + j + n];
    forall k | 0 <= k < n ensures x[k] == y[k] {
      assert p[j + k] == s[start + j + k];
    }
  }

  /** A string free of `sep` has no `sep` in any of its slices. */
  lemma SliceFree(s: string, sep: string, i: nat, j: nat)
    requires i <= j <= |s| && !Contains(s, sep)
    ensures !Contains(s[i..j], sep)
  {
    var p := s[i..j];
    forall q: nat | q + |sep| <= |p| ensures !OccursAt(p, sep, q) {
      WindowSlice(s, i, p, q, |sep|);
      assert !OccursAt(s, sep, i + q);
    }
  }

  /** `sep.join(parts)`. */
  function Join(parts: seq<string>, sep: string): (r: string)
  {
    if |parts| == 0 then ""
    else if |parts| == 1 then parts[0]
    else parts[0] + sep + Join(parts[1..], sep)
  }

  /**
   `s.split(sep)` for a non-empty separator (Python raises on an empty one):
   there are at least two pieces exactly when `sep` occurs in `s`.
   */
  function Split(s: string, sep: string): (r: seq<string>)
    requires |sep| > 0
    ensures |r| >= 1
    ensures |r| >= 2 <==> Contains(s, sep)
    decreases |s|
  {
    match Find(s, sep)
    case None => [s]
    case Some(i) => [s[..i]] + Split(s[i + |sep|..], sep)
  }

  /** Joining the pieces of a split with the same separator gives the string back. */
  lemma {:induction false} SplitJoin(s: string, sep: string)
    requires |sep| > 0
    ensures Join(Split(s, sep), sep) == s
    decreases |s|
  {
    match Find(s, sep)
    case None =>
    case Some(i) =>
      var rest := s[i + |sep|..];
      SplitJoin(rest, sep);
      SplitUnfold(s, sep, i);
      var pieces := Split(s, sep);
      assert pieces[1..] == Split(rest, sep);
      assert s[i..i + |sep|] == sep;
      assert s == s[..i] + s[i..i + |sep|] + rest;
  }

  /** No piece of a split contains the separator. */
  lemma {:induction false} SplitPiecesFree(s: string, sep: string, k: nat)
    requires |sep| > 0 && k < |Split(s, sep)|
    ensures !Contains(Split(s, sep)[k], sep)
    decreases |s|
  {
    match Find(s, sep)
    case None =>
    case Some(i) =>
      SplitUnfold(s, sep, i);
      if k == 0 {
        var head := s[..i];
        forall j: nat ensures !OccursAt(head, sep, j) {
          OccursInPrefix(s, sep, i, j);
        }
      } else {
        SplitPiecesFree(s[i + |sep|..], sep, k - 1);
      }
  }

  /**
   `p` is the text of `s` that starts at `start` and runs up to the next
   occurrence of `sep`, or to the end of `s` when there is none.
   */
  predicate RunsToNext(s: string, sep: string, start: nat, p: string) {
    && start + |p| <= |s| && p == s[start..start + |p|]
    && !Contains(p, sep)
    && (start + |p| == |s| || OccursAt(s, sep, start + |p|))
  }

  /**
   `s.split(sep)[1]` is the text between the first occurrence of `sep` and the
   second one (or the end of `s` when there is no second one).
   */
  lemma SplitSecond(s: string, sep: string, i: nat)
    requires |sep| > 0 && Find(s, sep) == Some(i)
    ensures |Split(s, sep)| >= 2
    ensures RunsToNext(s, sep, i + |sep|, Split(s, sep)[1])
  {
    var start := i + |sep|;
    var rest := s[start..];
    var p := Split(rest, sep)[0];
    assert |Split(s, sep)| >= 2 && Split(s, sep)[1] == p by { SplitUnfold(s, sep, i); }
    assert !Contains(p, sep) by { SplitPiecesFree(rest, sep, 0); }
    assert |p| <= |rest| && p == rest[..|p|] && (|p| == |rest| || OccursAt(rest, sep, |p|)) by {
      SplitFirstShape(rest, sep);
    }
    assert RunsToNext(s, sep, start, p) by {
      ShiftedPiece(s, sep, start, p);
    }
  }

  lemma ShiftedPiece(s: string, sep: string, start: nat, p: string)
    requires start <= |s| && !Contains(p, sep)
    requires var rest := s[start..]; |p| <= |rest| && p == rest[..|p|] && (|p| == |rest| || OccursAt(rest, sep, |p|))
    ensures RunsToNext(s, sep, start, p)
  {
    var rest := s[start..];
    assert p == s[start..start + |p|];
    if |p| < |rest| {
      assert rest[|p|..|p| + |sep|] == s[start + |p|..start + |p| + |sep|];
    }
  }

  /** The first piece of a split runs from the start up to the first occurrence, or to the end. */
  lemma SplitFirstShape(s: string, sep: string)
    requires |sep| > 0
    ensures var p := Split(s, sep)[0];
      |p| <= |s| && p == s[..|p|] && (|p| == |s| || OccursAt(s, sep, |p|))
  {
  }

  lemma SplitUnfold(s: string, sep: string, i: nat)
    requires |sep| > 0 && Find(s, sep) == Some(i)
    ensures Split(s, sep) == [s[..i]] + Split(s[i + |sep|..], sep)
  {
  }

  /** Every part occurs in the joined string. */
  lemma {:induction false} JoinContainsParts(parts: seq<string>, sep: string, k: nat)
    requires k < |parts|
    ensures Contains(Join(parts, sep), parts[k])
    decreases |parts|
  {
    var r := Join(parts, sep);
    if |parts| == 1 || k == 0 {
      assert OccursAt(r, parts[k], 0);
    } else {
      JoinContainsParts(parts[1..], sep, k - 1);
      var t := Join(parts[1..], sep);
      var i := Find(t, parts[k]).value;
      var off := |parts[0]| + |sep|;
      assert r == parts[0] + sep + t;
      assert r[off + i..off + i + |parts[k]|] == t[i..i + |parts[k]|];
      assert OccursAt(r, parts[k], off + i);
    }
  }

  /** Total length of a sequence of strings. */
  function TotalLength(parts: seq<string>): nat {
    if parts == [] then 0 else |parts[0]| + TotalLength(parts[1..])
  }

  /** Joining adds one separator between each pair of neighbouring parts. */
  lemma {:induction false} JoinLength(parts: seq<string>, sep: string)
    requires |parts| >= 1
    ensures |Join(parts, sep)| == TotalLength(parts) + (|parts| - 1) * |sep|
    decreases |parts|
  {
    if |parts| > 1 {
      JoinLength(parts[1..], sep);
    }
  }
}
