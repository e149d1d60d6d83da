/** Concrete replies and what the parse makes of them. */
module Scenarios {
  import opened Wrappers
  import opened Text
  import opened Score
  import opened ResponseParser

  /** Asterisks around the score are dropped. */
  lemma FilterDropsAsterisks()
    ensures KeepScoreChars("**0.8**") == "0.8"
  {
    Peel("**0.8**", "*0.8**");
    Peel("*0.8**", "0.8**");
    Peel("0.8**", ".8**");
    Peel(".8**", "8**");
    Peel("8**", "**");
    Peel("**", "*");
    Peel("*", "");
  }

  /** A trailing comment after the score is dropped. */
  lemma FilterDropsComment()
    ensures KeepScoreChars("0.8 (high)") == "0.8"
  {
    KeepScoreCharsAppend("0.8", " (high)");
    Peel("0.8", ".8");
    Peel(".8", "8");
    Peel("8", "");
    KeepScoreCharsDropsAll(" (high)");
  }

  /** A fraction written with a slash loses the slash: "8/10" becomes "810". */
  lemma FilterJoinsFraction()
    ensures KeepScoreChars("8/10") == "810"
  {
    Peel("8/10", "/10");
    Peel("/10", "10");
    Peel("10", "0");
    Peel("0", "");
  }

  /** One step of the filter on a non-empty string. */
  lemma Peel(s: string, t: string)
    requires s != [] && t == s[1..]
    ensures KeepScoreChars(s) == Kept(s[0]) + KeepScoreChars(t)
  {
  }

  /** `float` reads a decimal point with digits around it. */
  lemma ParseFraction()
    ensures ParseDecimal("0.8") == Some(0.8)
  {
    ParseAtDot("0.8", 1);
    assert "0.8"[..1] == "0" && "0.8"[2..] == "8";
  }

  /** `float` reads a run of digits as a whole number. */
  lemma ParseWhole()
    ensures ParseDecimal("810") == Some(810.0)
  {
    assert AllDigits("810");
    ParseWholeNumber("810");
    assert DigitsValue("810") == 810 by {
      assert "810"[..2] == "81" && "81"[..1] == "8";
    }
  }

  /** `float` rejects an empty string, a lone dot and two dots. */
  lemma ParseRejects()
    ensures ParseDecimal("") == None
    ensures ParseDecimal(".") == None
    ensures ParseDecimal("1.2.3") == None
  {
    assert !HasDigit(".");
    assert CountDots("1.2.3") == 2;
  }

  /** No occurrence of `sep` when no character of `s` is its first. */
  lemma NoFirstChar(s: string, sep: string)
    requires sep != [] && forall k :: 0 <= k < |s| ==> s[k] != sep[0]
    ensures !Contains(s, sep)
  {
    forall j: nat | j + |sep| <= |s| ensures !OccursAt(s, sep, j) {
      assert s[j..j + |sep|][0] == s[j];
    }
  }

  /** The answer and score pieces of a well-formatted reply. */
  lemma ReplyPieces()
    ensures !Contains(" Yes\n", AnswerMarker) && !Contains(" Yes\n", ScoreMarker)
    ensures !Contains(" 0.9", ScoreMarker)
    ensures Strip(" Yes\n") == "Yes"
  {
    NoFirstChar(" Yes\n", AnswerMarker);
    NoFirstChar(" Yes\n", ScoreMarker);
    NoFirstChar(" 0.9", ScoreMarker);
    assert " Yes\n" == " " + "Yes" + "\n";
    StripUnique(" ", "Yes", "\n");
  }

  lemma ReplyScore()
    ensures KeepScoreChars(" 0.9") == "0.9" && ParseDecimal("0.9") == Some(0.9)
  {
    Peel(" 0.9", "0.9");
    Peel("0.9", ".9");
    Peel(".9", "9");
    Peel("9", "");
    ParseAtDot("0.9", 1);
    assert "0.9"[..1] == "0" && "0.9"[2..] == "9";
  }

  /** A reply in the requested format yields its answer and its score. */
  lemma WellFormattedReply()
    ensures ParseResponse(Formatted(" Yes\n", " 0.9")) == Generation("Yes", 0.9)
  {
    ReplyPieces();
    ReplyScore();
    FormattedParse(" Yes\n", " 0.9");
  }

  /** A score written as a fraction is not kept below 1: "8/10" becomes 810. */
  lemma FractionScoreReply()
    ensures ParseResponse(Formatted(" Yes\n", " 8/10")).confidenceScore == 810.0
  {
    ReplyPieces();
    NoFirstChar(" 8/10", ScoreMarker);
    Peel(" 8/10", "8/10");
    FilterJoinsFraction();
    assert KeepScoreChars(" 8/10") == "810" by {
      assert Kept(' ') == "";
      assert "" + "810" == "810";
    }
    ParseWhole();
    FormattedParse(" Yes\n", " 8/10");
  }

  /** A score without any digit falls back to 0.5 and the whole reply. */
  lemma WordScoreReply()
    ensures var r := Formatted(" Yes\n", " high");
      ParseResponse(r) == Generation(Strip(r), 0.5)
  {
    ReplyPieces();
    NoFirstChar(" high", ScoreMarker);
    KeepScoreCharsDropsAll(" high");
    FormattedRoundTrip(" Yes\n", " high");
    assert !HasDigit("");
  }

  /** A reply without the markers is kept whole with score 0.0. */
  lemma UnmarkedReply()
    ensures ParseResponse("no idea") == Generation("no idea", 0.0)
  {
    NoFirstChar("no idea", AnswerMarker);
    StripUnique("", "no idea", "");
    assert "" + "no idea" + "" == "no idea";
  }
}
