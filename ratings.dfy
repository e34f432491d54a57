/**
 * `convert_rating`: a StoryGraph star rating to the whole number Goodreads
 * stores in `My Rating`.
 */
module Ratings {
  import opened Wrappers
  import opened Text
  import opened Numbers

  /** `r` is the decimal text `str` gives for some integer. */
  predicate IsIntText(r: string) {
    ParseTrunc(r).Some? && r == IntToString(ParseTrunc(r).value)
  }

  /** `str(int(float(text)))`, with "0" where `float` rejects the text. */
  function TruncText(text: string): (r: string)
    ensures IsIntText(r)
    ensures ParseTrunc(text).Some? ==> ParseTrunc(r) == ParseTrunc(text)
    ensures ParseTrunc(text).None? ==> r == "0"
  {
    match ParseTrunc(text)
    case Some(i) =>
      IntToStringParses(i);
      IntToString(i)
    case None =>
      IntToStringParses(0);
      assert IntToString(0) == "0";
      "0"
  }

  /**
   * Blank gives "0". A rating that mentions `star` (which covers `stars`) is
   * read from its first `split()` token, any other from the whole text; both
   * are truncated toward zero, and a failed read gives "0".
   */
  function ConvertRating(rating: string): (r: string)
    ensures IsIntText(r)
    ensures AllSpace(rating) ==> r == "0"
  {
    if rating == [] || Strip(rating) == [] then
      IntToStringParses(0);
      assert IntToString(0) == "0";
      "0"
    else if Contains(Lower(rating), "star") then
      WordsNonEmpty(rating);
      TruncText(Words(rating)[0])
    else TruncText(rating)
  }

  /** Every character is a digit, a minus sign or a decimal point. */
  predicate Numeric(t: string) {
    forall k :: 0 <= k < |t| ==> IsDigit(t[k]) || t[k] == '-' || t[k] == '.'
  }

  // ---------------------------------------------------------------------------
  // Lemmas
  // ---------------------------------------------------------------------------

  lemma {:induction false} NoLetterInIntText(i: int, k: int)
    requires 0 <= k < |IntToString(i)|
    ensures Lower(IntToString(i))[k] != 's' && !IsSpace(IntToString(i)[k])
  {
    var t := IntToString(i);
    var digits := NatToString(if i < 0 then -i else i);
    if i < 0 && k == 0 {
      assert t[0] == '-';
    } else if i < 0 {
      assert t[k] == digits[k - 1];
    } else {
      assert t[k] == digits[k];
    }
  }

  /** The text of an integer contains no `s`, so never the word `star`. */
  lemma IntTextHasNoStar(i: int)
    ensures !Contains(Lower(IntToString(i)), "star")
  {
    var l := Lower(IntToString(i));
    if Contains(l, "star") {
      ContainsFirst(l, "star");
      var k :| 0 <= k < |l| && l[k] == 's';
      NoLetterInIntText(i, k);
    }
  }

  /** An integer text is already a Goodreads rating: converting it changes nothing. */
  lemma IntTextFixed(i: int)
    ensures ConvertRating(IntToString(i)) == IntToString(i)
  {
    var t := IntToString(i);
    NoLetterInIntText(i, 0);
    assert Strip(t) != [];
    IntTextHasNoStar(i);
    IntToStringParses(i);
  }

  /** Converting a converted rating changes nothing. */
  lemma Idempotent(rating: string)
    ensures ConvertRating(ConvertRating(rating)) == ConvertRating(rating)
  {
    IntTextFixed(ParseTrunc(ConvertRating(rating)).value);
  }

  /** "`n` stars" gives `n`: the star path reads the leading number. */
  lemma StarsSuffix(i: int)
    ensures ConvertRating(IntToString(i) + " stars") == IntToString(i)
  {
    var t := IntToString(i);
    var s := t + " stars";
    NoLetterInIntText(i, 0);
    assert s[0] == t[0];
    assert Strip(s) != [];
    LowerConcat(t, " stars");
    assert Lower(" stars") == " stars";
    assert Contains(" stars", "star") by {
      assert " stars"[1..] == "stars";
      assert "star" <= "stars";
    }
    ContainsInSuffix(Lower(t), " stars", "star");
    assert IsWord(t) by {
      forall k | 0 <= k < |t| ensures !IsSpace(t[k]) {
        NoLetterInIntText(i, k);
      }
    }
    WordsAfterWord(t, " stars");
    IntToStringParses(i);
  }

  lemma FiveStars()
    ensures ConvertRating("5" + " stars") == "5"
  {
    assert IntToString(5) == "5";
    StarsSuffix(5);
  }

  lemma ThreePointSeven()
    ensures ConvertRating("3.7") == "3"
  {
    assert IntToString(3) == "3";
    assert "3" + "." + "7" == "3.7";
    DecimalRating(3, "7");
  }

  lemma StarsAlone()
    ensures ConvertRating("stars") == "0"
  {
    var s := "stars";
    StripUnpadded(s);
    assert Lower(s) == s;
    assert Contains(s, "star") by { assert "star" <= s; }
    assert IsWord(s);
    WordsAfterWord(s, []);
    assert s + [] == s;
    assert DigitRun(s) == 0;
    assert ParseTrunc(s) == None;
  }

  /** An integer, a point and a fraction are written with numeric characters only. */
  lemma DecimalIsNumeric(i: int, f: string)
    requires AllDigits(f)
    ensures Numeric(IntToString(i) + "." + f)
  {
    var t := IntToString(i);
    var digits := NatToString(if i < 0 then -i else i);
    var s := t + "." + f;
    forall k | 0 <= k < |s| ensures IsDigit(s[k]) || s[k] == '-' || s[k] == '.' {
      if k < |t| {
        if i < 0 && k > 0 {
          assert t[k] == digits[k - 1];
        } else if i >= 0 {
          assert t[k] == digits[k];
        }
      } else if k > |t| {
        assert s[k] == f[k - |t| - 1];
      }
    }
  }

  /** Numeric text never mentions `star` and has no blank in it. */
  lemma NumericHasNoStar(t: string)
    requires Numeric(t)
    ensures !Contains(Lower(t), "star")
    ensures forall k :: 0 <= k < |t| ==> !IsSpace(t[k])
  {
    var l := Lower(t);
    LowerChars(t);
    assert 's' !in l;
    if Contains(l, "star") {
      ContainsFirst(l, "star");
    }
  }

  /** A numeric rating is read whole and truncated toward zero. */
  lemma NumericRating(t: string, i: int)
    requires t != [] && Numeric(t) && ParseTrunc(t) == Some(i)
    ensures ConvertRating(t) == IntToString(i)
  {
    NumericHasNoStar(t);
    assert Strip(t) != [] by {
      assert !IsSpace(t[0]);
    }
  }

  /** A numeric rating followed by " stars" is read from its number, truncated toward zero. */
  lemma NumericStars(t: string, i: int)
    requires t != [] && Numeric(t) && ParseTrunc(t) == Some(i)
    ensures ConvertRating(t + " stars") == IntToString(i)
  {
    var s := t + " stars";
    NumericHasNoStar(t);
    assert s[0] == t[0];
    assert Strip(s) != [];
    LowerConcat(t, " stars");
    assert Lower(" stars") == " stars";
    assert Contains(" stars", "star") by {
      assert " stars"[1..] == "stars";
      assert "star" <= "stars";
    }
    ContainsInSuffix(Lower(t), " stars", "star");
    assert IsWord(t);
    WordsAfterWord(t, " stars");
  }

  /** A rating with a fraction is truncated toward zero: `3.7` gives `3`, `-0.5` gives `0`. */
  lemma DecimalRating(i: int, f: string)
    requires AllDigits(f) && f != []
    ensures ConvertRating(IntToString(i) + "." + f) == IntToString(i)
  {
    FractionTruncates(i, f);
    DecimalIsNumeric(i, f);
    NumericRating(IntToString(i) + "." + f, i);
  }

  /** The same holds with " stars" after it: `4.5 stars` gives `4`. */
  lemma DecimalStars(i: int, f: string)
    requires AllDigits(f) && f != []
    ensures ConvertRating(IntToString(i) + "." + f + " stars") == IntToString(i)
  {
    FractionTruncates(i, f);
    DecimalIsNumeric(i, f);
    NumericStars(IntToString(i) + "." + f, i);
  }

  lemma FourAndAHalfStars()
    ensures ConvertRating("4" + "." + "5" + " stars") == "4"
  {
    assert IntToString(4) == "4";
    DecimalStars(4, "5");
  }
}
