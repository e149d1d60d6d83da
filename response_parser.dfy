/**
 How `generate_node` turns the language model's raw completion into an answer
 and a confidence score (agent.py:89-102). Three outcomes:
 - both markers present and the filtered score parses: the text after the first
   `Answer:` up to the next marker, stripped, and the parsed score;
 - a marker missing: the whole reply, stripped, with score 0.0;
 - both markers present but the filtered score does not parse (`float` raises):
   the whole reply, stripped, with score 0.5.
 */
module ResponseParser {
  import opened Wrappers
  import opened Text
  import opened Score

  const AnswerMarker: string := "Answer:"
  const ScoreMarker: string := "Score:"

  /** The score given when a marker is missing. */
  const MissingMarkerScore: real := 0.0
  /** The score given when the score text is not a number. */
  const MalformedScoreScore: real := 0.5

  /** The fields `generate_node` returns: `answer` and `confidence_score`. */
  datatype Generation = Generation(answer: string, confidenceScore: real)

  /** The test on agent.py:90. */
  predicate HasMarkers(response: string) {
    Contains(response, AnswerMarker) && Contains(response, ScoreMarker)
  }

  /** `response.split("Answer:")[1].split("Score:")[0]`, before stripping. */
  function RawAnswer(response: string): (a: string)
    requires Contains(response, AnswerMarker)
    ensures !Contains(a, AnswerMarker) && !Contains(a, ScoreMarker)
  {
    var rest := Split(response, AnswerMarker)[1];
    SplitPiecesFree(response, AnswerMarker, 1);
    SplitPiecesFree(rest, ScoreMarker, 0);
    SplitFirstShape(rest, ScoreMarker);
    PrefixContains(rest, Split(rest, ScoreMarker)[0], AnswerMarker);
    Split(rest, ScoreMarker)[0]
  }

  /** `ans_part` on the success path. */
  function AnswerText(response: string): (t: string)
    requires Contains(response, AnswerMarker)
    ensures Trimmed(t) && !Contains(t, AnswerMarker) && !Contains(t, ScoreMarker)
  {
    var a := RawAnswer(response);
    StripIsSlice(a);
    var i := LeadingSpaces(a);
    SliceFree(a, AnswerMarker, i, i + |Strip(a)|);
    SliceFree(a, ScoreMarker, i, i + |Strip(a)|);
    Strip(a)
  }

  /** `response.split("Score:")[1]`, before stripping. */
  function RawScore(response: string): (r: string)
    requires Contains(response, ScoreMarker)
    ensures !Contains(r, ScoreMarker)
  {
    SplitPiecesFree(response, ScoreMarker, 1);
    Split(response, ScoreMarker)[1]
  }

  /** `score_val`: the digits and dots of the stripped score region. */
  function ScoreDigits(response: string): (d: string)
    requires Contains(response, ScoreMarker)
    ensures AllScoreChars(d)
  {
    KeepScoreChars(Strip(RawScore(response)))
  }

  /** The parse of agent.py:89-100, with `float` raising modelled as `ParseDecimal` giving `None`. */
  function ParseResponse(response: string): (r: Generation)
    ensures r.confidenceScore >= 0.0
    ensures !HasMarkers(response) ==> r == Generation(Strip(response), MissingMarkerScore)
    ensures HasMarkers(response) && !WellFormedDecimal(ScoreDigits(response))
      ==> r == Generation(Strip(response), MalformedScoreScore)
    ensures HasMarkers(response) && WellFormedDecimal(ScoreDigits(response))
      ==> (r.answer == AnswerText(response)
           && Some(r.confidenceScore) == ParseDecimal(ScoreDigits(response)))
  {
    if HasMarkers(response) then
      var answer := AnswerText(response);
      var digits := ScoreDigits(response);
      match ParseDecimal(digits)
      case Some(v) =>
        ParseDecimalBounds(digits);
        Generation(answer, v)
      case None => Generation(Strip(response), MalformedScoreScore)
    else
      Generation(Strip(response), MissingMarkerScore)
  }

  /** An occurrence of `x` cannot run over the start of an occurrence of `y`. */
  predicate StartsFresh(x: string, y: string) {
    |y| > 0 && forall d :: 1 <= d < |x| ==> x[d] != y[0]
  }

  lemma NoStraddle(s: string, x: string, y: string, q: nat, e: nat)
    requires StartsFresh(x, y) && q < e < q + |x|
    ensures !(OccursAt(s, x, q) && OccursAt(s, y, e))
  {
    if q + |x| <= |s| && e + |y| <= |s| {
      assert s[q..q + |x|][e - q] == s[e];
      assert s[e..e + |y|][0] == s[e];
    }
  }

  lemma MarkersStartFresh()
    ensures StartsFresh(AnswerMarker, AnswerMarker) && StartsFresh(AnswerMarker, ScoreMarker)
    ensures StartsFresh(ScoreMarker, AnswerMarker) && StartsFresh(ScoreMarker, ScoreMarker)
  {
  }

  /** An occurrence lying inside the window `s[start..start + |p|]` is an occurrence in `p`. */
  lemma OccursInWindow(s: string, sep: string, start: nat, p: string, q: nat)
    requires start + |p| <= |s| && p == s[start..start + |p|]
    requires start <= q && q + |sep| <= start + |p|
    ensures OccursAt(s, sep, q) ==> Contains(p, sep)
  {
    WindowSlice(s, start, p, q - start, |sep|);
    assert OccursAt(s, sep, q) ==> OccursAt(p, sep, q - start);
  }

  /** An occurrence in a prefix of `p` is an occurrence in `p`. */
  lemma PrefixContains(p: string, a: string, sep: string)
    requires |a| <= |p| && a == p[..|a|]
    ensures Contains(a, sep) ==> Contains(p, sep)
  {
    if Contains(a, sep) {
      var j := Find(a, sep).value;
      assert p[0..|a|] == a;
      WindowSlice(p, 0, a, j, |sep|);
      assert OccursAt(p, sep, j);
    }
  }

  /** A marker of either kind begins at `q`. */
  predicate MarkerAt(s: string, q: nat) {
    OccursAt(s, AnswerMarker, q) || OccursAt(s, ScoreMarker, q)
  }

  /**
   `s[start..end]` runs from `start` to the first position where one of the
   markers in `seps` begins, or to the end of `s` when none begins later.
   */
  predicate RunToFirst(s: string, seps: set<string>, start: nat, end: nat) {
    && start <= end <= |s|
    && (forall q, sep :: start <= q < end && sep in seps ==> !OccursAt(s, sep, q))
    && (end == |s| || exists sep :: sep in seps && OccursAt(s, sep, end))
  }

  /** Within a piece free of `sep` that ends at `sep` or at the end, no `sep` begins. */
  lemma NoSepInRun(s: string, sep: string, other: string, start: nat, p: string, q: nat)
    requires StartsFresh(sep, sep) && StartsFresh(sep, other)
    requires start + |p| <= |s| && p == s[start..start + |p|] && !Contains(p, sep)
    requires var e := start + |p|; e == |s| || OccursAt(s, sep, e) || OccursAt(s, other, e)
    requires start <= q < start + |p|
    ensures !OccursAt(s, sep, q)
  {
    var e := start + |p|;
    if q + |sep| <= e {
      OccursInWindow(s, sep, start, p, q);
    } else {
      NoStraddle(s, sep, sep, q, e);
      NoStraddle(s, sep, other, q, e);
    }
  }

  /**
   The score region is the text between the first and the second `Score:` of
   the whole reply (or its end), wherever `Answer:` stands.
   */
  lemma RawScoreSpan(response: string, i: nat)
    requires Find(response, ScoreMarker) == Some(i)
    ensures var start, p := i + |ScoreMarker|, RawScore(response);
      start + |p| <= |response| && p == response[start..start + |p|]
      && RunToFirst(response, {ScoreMarker}, start, start + |p|)
  {
    var start := i + |ScoreMarker|;
    SplitSecond(response, ScoreMarker, i);
    var p := RawScore(response);
    MarkersStartFresh();
    forall q, sep | start <= q < start + |p| && sep in {ScoreMarker}
      ensures !OccursAt(response, sep, q)
    {
      NoSepInRun(response, ScoreMarker, ScoreMarker, start, p, q);
    }
    if start + |p| < |response| {
      assert ScoreMarker in {ScoreMarker} && OccursAt(response, ScoreMarker, start + |p|);
    }
  }

  /**
   The raw answer is the text after the first `Answer:`, up to the next
   `Answer:` or `Score:` (or the end of the reply).
   */
  lemma RawAnswerSpan(response: string, i: nat)
    requires Find(response, AnswerMarker) == Some(i)
    ensures var start, a := i + |AnswerMarker|, RawAnswer(response);
      start + |a| <= |response| && a == response[start..start + |a|]
      && RunToFirst(response, {AnswerMarker, ScoreMarker}, start, start + |a|)
  {
    var start := i + |AnswerMarker|;
    var a := RawAnswer(response);
    AnswerWindow(response, i);
    var e := start + |a|;
    MarkersStartFresh();
    forall q, sep | start <= q < e && sep in {AnswerMarker, ScoreMarker}
      ensures !OccursAt(response, sep, q)
    {
      if sep == AnswerMarker {
        NoSepInRun(response, AnswerMarker, ScoreMarker, start, a, q);
      } else {
        NoSepInRun(response, ScoreMarker, AnswerMarker, start, a, q);
      }
    }
    if e < |response| {
      if OccursAt(response, AnswerMarker, e) {
        assert AnswerMarker in {AnswerMarker, ScoreMarker};
      } else {
        assert ScoreMarker in {AnswerMarker, ScoreMarker};
      }
    }
  }

  /**
   The raw answer is a window of the reply starting right after the first
   `Answer:`, free of both markers, and ending at a marker or the end.
   */
  lemma AnswerWindow(response: string, i: nat)
    requires Find(response, AnswerMarker) == Some(i)
    ensures var start, a := i + |AnswerMarker|, RawAnswer(response);
      && start + |a| <= |response| && a == response[start..start + |a|]
      && !Contains(a, AnswerMarker) && !Contains(a, ScoreMarker)
      && (start + |a| == |response| || MarkerAt(response, start + |a|))
  {
    var start := i + |AnswerMarker|;
    var p := Split(response, AnswerMarker)[1];
    var a := RawAnswer(response);
    assert RunsToNext(response, AnswerMarker, start, p) by {
      SplitSecond(response, AnswerMarker, i);
    }
    AnswerInPiece(p, a);
    PrefixOfPiece(response, AnswerMarker, ScoreMarker, start, p, a);
  }

  /**
   A prefix `a` of a piece `p` that runs to the next `sep`, where `a` is free of
   `other` and stops at an `other` or at the end of `p`, is a window free of
   both that stops at one of them or at the end of `s`.
   */
  lemma PrefixOfPiece(s: string, sep: string, other: string, start: nat, p: string, a: string)
    requires RunsToNext(s, sep, start, p)
    requires |a| <= |p| && a == p[..|a|] && !Contains(a, other)
    requires |a| == |p| || OccursAt(p, other, |a|)
    ensures start + |a| <= |s| && a == s[start..start + |a|] && !Contains(a, sep)
    ensures var e := start + |a|; e == |s| || OccursAt(s, sep, e) || OccursAt(s, other, e)
  {
    WindowSlice(s, start, p, 0, |a|);
    assert p[0..|a|] == a;
    PrefixContains(p, a, sep);
    if |a| < |p| {
      WindowSlice(s, start, p, |a|, |other|);
    }
  }

  /**
   The first `Score:`-piece of `p` is a prefix of `p` without `Score:`, ending
   at a `Score:` or at the end of `p`.
   */
  lemma AnswerInPiece(p: string, a: string)
    requires a == Split(p, ScoreMarker)[0]
    ensures |a| <= |p| && a == p[..|a|] && !Contains(a, ScoreMarker)
    ensures |a| == |p| || OccursAt(p, ScoreMarker, |a|)
  {
    SplitFirstShape(p, ScoreMarker);
    SplitPiecesFree(p, ScoreMarker, 0);
  }

  /** Stripping the score region before filtering it makes no difference. */
  lemma ScoreDigitsOfRawScore(response: string)
    requires Contains(response, ScoreMarker)
    ensures ScoreDigits(response) == KeepScoreChars(RawScore(response))
  {
    StripThenKeep(RawScore(response));
  }

  /**
   On the success path the answer is the stripped text from just after the
   first `Answer:` up to the next marker of either kind (or the end).
   */
  lemma AnswerIsFirstSegment(response: string, i: nat)
    requires Find(response, AnswerMarker) == Some(i)
    ensures var start := i + |AnswerMarker|;
      var end := start + |RawAnswer(response)|;
      && RunToFirst(response, {AnswerMarker, ScoreMarker}, start, end)
      && AnswerText(response) == Strip(response[start..end])
  {
    RawAnswerSpan(response, i);
  }

  /**
   The score digits come from the text between the first `Score:` of the
   whole reply and the next `Score:` (or the end), even when that `Score:`
   stands before `Answer:`.
   */
  lemma ScoreIsFirstRegion(response: string, i: nat)
    requires Find(response, ScoreMarker) == Some(i)
    ensures var start := i + |ScoreMarker|;
      var end := start + |RawScore(response)|;
      && RunToFirst(response, {ScoreMarker}, start, end)
      && ScoreDigits(response) == KeepScoreChars(response[start..end])
  {
    var p := RawScore(response);
    RawScoreSpan(response, i);
    assert ScoreDigits(response) == KeepScoreChars(p) by {
      ScoreDigitsOfRawScore(response);
    }
  }

  /** The end of a run to the first marker is determined by its start. */
  lemma RunToFirstUnique(s: string, seps: set<string>, start: nat, e1: nat, e2: nat)
    requires RunToFirst(s, seps, start, e1) && RunToFirst(s, seps, start, e2)
    ensures e1 == e2
  {
  }

  /** The answer text is the stripped run after the first `Answer:`, wherever that run is known to end. */
  lemma AnswerBetween(response: string, i: nat, end: nat)
    requires Find(response, AnswerMarker) == Some(i)
    requires RunToFirst(response, {AnswerMarker, ScoreMarker}, i + |AnswerMarker|, end)
    ensures AnswerText(response) == Strip(response[i + |AnswerMarker|..end])
  {
    RawAnswerBetween(response, i, end);
  }

  lemma RawAnswerBetween(response: string, i: nat, end: nat)
    requires Find(response, AnswerMarker) == Some(i)
    requires RunToFirst(response, {AnswerMarker, ScoreMarker}, i + |AnswerMarker|, end)
    ensures RawAnswer(response) == response[i + |AnswerMarker|..end]
  {
    var start, a := i + |AnswerMarker|, RawAnswer(response);
    RawAnswerSpan(response, i);
    RunToFirstUnique(response, {AnswerMarker, ScoreMarker}, start, start + |a|, end);
  }

  /** The score digits are the filtered run after the first `Score:`, wherever that run is known to end. */
  lemma ScoreBetween(response: string, i: nat, end: nat)
    requires Find(response, ScoreMarker) == Some(i)
    requires RunToFirst(response, {ScoreMarker}, i + |ScoreMarker|, end)
    ensures ScoreDigits(response) == KeepScoreChars(response[i + |ScoreMarker|..end])
  {
    RawScoreBetween(response, i, end);
    ScoreDigitsOfRawScore(response);
  }

  lemma RawScoreBetween(response: string, i: nat, end: nat)
    requires Find(response, ScoreMarker) == Some(i)
    requires RunToFirst(response, {ScoreMarker}, i + |ScoreMarker|, end)
    ensures RawScore(response) == response[i + |ScoreMarker|..end]
  {
    var start, p := i + |ScoreMarker|, RawScore(response);
    RawScoreSpan(response, i);
    RunToFirstUnique(response, {ScoreMarker}, start, start + |p|, end);
  }

  /** A reply laid out as the prompt asks: `Answer:`, the answer, `Score:`, the score. */
  function Formatted(ans: string, sc: string): string {
    AnswerMarker + ans + ScoreMarker + sc
  }

  /** Where the pieces of a formatted reply sit. */
  lemma FormattedPieces(ans: string, sc: string)
    ensures var r, e := Formatted(ans, sc), |AnswerMarker| + |ans|;
      && |r| == e + |ScoreMarker| + |sc|
      && OccursAt(r, AnswerMarker, 0)
      && r[|AnswerMarker|..e] == ans
      && OccursAt(r, ScoreMarker, e)
      && r[e + |ScoreMarker|..] == sc
  {
    var r, e := Formatted(ans, sc), |AnswerMarker| + |ans|;
    assert r[0..|AnswerMarker|] == AnswerMarker;
    assert r[|AnswerMarker|..e] == ans;
    assert r[e..e + |ScoreMarker|] == ScoreMarker;
    assert r[e + |ScoreMarker|..] == sc;
  }

  /** In a formatted reply with a marker-free answer, the first markers are the ones laid out. */
  lemma FormattedMarkers(ans: string, sc: string)
    requires !Contains(ans, AnswerMarker) && !Contains(ans, ScoreMarker)
    ensures var r, e := Formatted(ans, sc), |AnswerMarker| + |ans|;
      && Find(r, AnswerMarker) == Some(0)
      && Find(r, ScoreMarker) == Some(e)
      && RunToFirst(r, {AnswerMarker, ScoreMarker}, |AnswerMarker|, e)
  {
    var r, e := Formatted(ans, sc), |AnswerMarker| + |ans|;
    FormattedPieces(ans, sc);
    MarkersStartFresh();
    var start := |AnswerMarker|;
    assert ans == r[start..start + |ans|];
    forall q | start <= q < e
      ensures !OccursAt(r, AnswerMarker, q) && !OccursAt(r, ScoreMarker, q)
    {
      NoSepInRun(r, AnswerMarker, ScoreMarker, start, ans, q);
      NoSepInRun(r, ScoreMarker, ScoreMarker, start, ans, q);
    }
    forall q | 0 < q < start ensures !OccursAt(r, ScoreMarker, q) {
      NoStraddle(r, AnswerMarker, ScoreMarker, 0, q);
    }
    assert !OccursAt(r, ScoreMarker, 0) by {
      assert r[0] == r[0..|AnswerMarker|][0];
    }
    assert ScoreMarker in {AnswerMarker, ScoreMarker};
  }

  /**
   The parse inverts the layout the prompt asks for: a reply written as
   `Answer:` + `ans` + `Score:` + `sc`, where `ans` holds neither marker and
   `sc` holds no `Score:`, gives back `ans` stripped and the filtered `sc`.
   */
  lemma FormattedRoundTrip(ans: string, sc: string)
    requires !Contains(ans, AnswerMarker) && !Contains(ans, ScoreMarker)
    requires !Contains(sc, ScoreMarker)
    ensures var r := Formatted(ans, sc);
      && HasMarkers(r)
      && AnswerText(r) == Strip(ans)
      && ScoreDigits(r) == KeepScoreChars(sc)
  {
    FormattedMarkers(ans, sc);
    FormattedAnswer(ans, sc);
    FormattedScore(ans, sc);
  }

  lemma FormattedAnswer(ans: string, sc: string)
    requires !Contains(ans, AnswerMarker) && !Contains(ans, ScoreMarker)
    ensures Contains(Formatted(ans, sc), AnswerMarker)
    ensures AnswerText(Formatted(ans, sc)) == Strip(ans)
  {
    var r, e := Formatted(ans, sc), |AnswerMarker| + |ans|;
    FormattedPieces(ans, sc);
    FormattedMarkers(ans, sc);
    AnswerBetween(r, 0, e);
  }

  lemma FormattedScore(ans: string, sc: string)
    requires !Contains(ans, AnswerMarker) && !Contains(ans, ScoreMarker)
    requires !Contains(sc, ScoreMarker)
    ensures Contains(Formatted(ans, sc), ScoreMarker)
    ensures ScoreDigits(Formatted(ans, sc)) == KeepScoreChars(sc)
  {
    var r, e := Formatted(ans, sc), |AnswerMarker| + |ans|;
    var start := e + |ScoreMarker|;
    assert Find(r, ScoreMarker) == Some(e) && |r| == start + |sc| && r[start..] == sc by {
      FormattedPieces(ans, sc);
      FormattedMarkers(ans, sc);
    }
    assert RunToFirst(r, {ScoreMarker}, start, |r|) by {
      MarkersStartFresh();
      assert sc == r[start..start + |sc|];
      forall q | start <= q < |r| ensures !OccursAt(r, ScoreMarker, q) {
        NoSepInRun(r, ScoreMarker, ScoreMarker, start, sc, q);
      }
    }
    ScoreBetween(r, e, |r|);
    assert r[start..|r|] == sc;
  }

  /** So a formatted reply with a well-formed score parses to exactly its two parts. */
  lemma FormattedParse(ans: string, sc: string)
    requires !Contains(ans, AnswerMarker) && !Contains(ans, ScoreMarker)
    requires !Contains(sc, ScoreMarker) && WellFormedDecimal(KeepScoreChars(sc))
    ensures var g := ParseResponse(Formatted(ans, sc));
      g.answer == Strip(ans) && Some(g.confidenceScore) == ParseDecimal(KeepScoreChars(sc))
  {
    FormattedRoundTrip(ans, sc);
  }
}
