/**
 * `convert_date_format`: a StoryGraph date cell to Goodreads' `YYYY/MM/DD`.
 *
 * Each `strptime` pattern is a parser returning the calendar date it reads, or
 * nothing when the text does not match the pattern in full or names a day the
 * calendar does not have (which `strptime` reports as an error too).
 */
module Dates {
  import opened Wrappers
  import opened Text
  import opened Numbers

  datatype Date = Date(year: int, month: int, day: int)

  predicate IsLeapYear(y: int) {
    y % 4 == 0 && (y % 100 != 0 || y % 400 == 0)
  }

  function DaysInMonth(y: int, m: int): (n: int)
    requires 1 <= m <= 12
    ensures 28 <= n <= 31
  {
    if m == 2 then (if IsLeapYear(y) then 29 else 28)
    else if m == 4 || m == 6 || m == 9 || m == 11 then 30
    else 31
  }

  /** The dates Python's `datetime` can hold. */
  predicate ValidDate(d: Date) {
    1 <= d.year <= 9999 && 1 <= d.month <= 12 && 1 <= d.day <= DaysInMonth(d.year, d.month)
  }

  /** `%Y`: exactly four digits. */
  function YearField(s: string): Option<int> {
    if |s| == 4 && AllDigits(s) then Some(DigitsValue(s)) else None
  }

  /** `%m`: `1[0-2]|0[1-9]|[1-9]`. */
  function MonthField(s: string): Option<int> {
    if 1 <= |s| <= 2 && AllDigits(s) && 1 <= DigitsValue(s) <= 12 then Some(DigitsValue(s)) else None
  }

  /** `%d`: `3[01]|[12]\d|0[1-9]|[1-9]| [1-9]`. */
  function DayField(s: string): Option<int> {
    if 1 <= |s| <= 2 && AllDigits(s) && 1 <= DigitsValue(s) <= 31 then Some(DigitsValue(s))
    else if |s| == 2 && s[0] == ' ' && '1' <= s[1] <= '9' then Some(DigitOf(s[1]))
    else None
  }

  /**
   * A one- or two-character field followed by `sep`, and the text after `sep`.
   * Neither `%m` nor `%d` can contain `sep`, so where `sep` stands decides the
   * field's width.
   */
  function LeadField(s: string, sep: char): Option<(string, string)> {
    if |s| >= 2 && s[1] == sep then Some((s[..1], s[2..]))
    else if |s| >= 3 && s[2] == sep then Some((s[..2], s[3..]))
    else None
  }

  function MakeDate(y: Option<int>, m: Option<int>, d: Option<int>): (r: Option<Date>)
    ensures r.Some? ==> ValidDate(r.value)
  {
    if y.Some? && m.Some? && d.Some? && ValidDate(Date(y.value, m.value, d.value))
    then Some(Date(y.value, m.value, d.value))
    else None
  }

  /** `%Y<sep>%m<sep>%d`. */
  function ParseYmd(s: string, sep: char): (r: Option<Date>)
    ensures r.Some? ==> ValidDate(r.value)
  {
    if |s| < 5 || s[4] != sep then None
    else match LeadField(s[5..], sep)
      case None => None
      case Some((m, d)) => MakeDate(YearField(s[..4]), MonthField(m), DayField(d))
  }

  /** `%d/%m/%Y`. */
  function ParseDmy(s: string): (r: Option<Date>)
    ensures r.Some? ==> ValidDate(r.value)
  {
    match LeadField(s, '/')
    case None => None
    case Some((d, rest)) =>
      match LeadField(rest, '/')
      case None => None
      case Some((m, y)) => MakeDate(YearField(y), MonthField(m), DayField(d))
  }

  const MonthNumbers: map<string, int> := map[
    "january" := 1, "february" := 2, "march" := 3, "april" := 4,
    "may" := 5, "june" := 6, "july" := 7, "august" := 8,
    "september" := 9, "october" := 10, "november" := 11, "december" := 12]

  /** `%B`: an English month name, in any letter case. */
  function MonthName(s: string): Option<int> {
    var key := Lower(s);
    if key in MonthNumbers then Some(MonthNumbers[key]) else None
  }

  /**
   * `%B %d, %Y`. Each blank of the pattern matches one or more blanks, so the
   * month name runs up to the first blank and blanks are skipped after it and
   * after the comma.
   */
  function ParseMdy(s: string): (r: Option<Date>)
    ensures r.Some? ==> ValidDate(r.value)
  {
    var k := SpaceIndex(s);
    if k == |s| then None
    else
      var afterName := LStrip(s[k..]);
      match LeadField(afterName, ',')
      case None => None
      case Some((d, rest)) =>
        if rest == [] || !IsSpace(rest[0]) || !AllDigits(d) then None
        else MakeDate(YearField(LStrip(rest)), MonthName(s[..k]), DayField(d))
  }

  function Pad2(n: int): (s: string)
    requires 0 <= n < 100
    ensures |s| == 2 && AllDigits(s)
  {
    [DigitChar(n / 10), DigitChar(n % 10)]
  }

  /** `strftime("%Y/%m/%d")`. */
  function Format(d: Date): (s: string)
    requires ValidDate(d)
    ensures |s| == 10
  {
    Pad2(d.year / 100) + Pad2(d.year % 100) + "/" + Pad2(d.month) + "/" + Pad2(d.day)
  }

  /** A cell already in Goodreads' `%Y/%m/%d` form, with a real calendar date. */
  predicate IsGoodreadsDate(s: string) {
    ParseYmd(s, '/').Some?
  }

  /** The three `strptime` patterns, tried in the source's order; the first that reads the text wins. */
  function ParseStoryGraph(s: string): (r: Option<Date>)
    ensures r.Some? ==> ValidDate(r.value)
  {
    var iso := ParseYmd(s, '-');
    if iso.Some? then iso
    else
      var dmy := ParseDmy(s);
      if dmy.Some? then dmy else ParseMdy(s)
  }

  /**
   * `convert_date_format`: blank gives ""; otherwise the first of ISO, day/month/year
   * and "Month day, year" that reads the text is reformatted; a text already in
   * Goodreads' form is returned as it is; anything else gives "".
   */
  function ConvertDate(s: string): (r: string)
    ensures r == [] || IsGoodreadsDate(r)
    ensures AllSpace(s) ==> r == []
  {
    if s == [] || Strip(s) == [] then ""
    else match ParseStoryGraph(s)
      case Some(d) => FormatParses(d); Format(d)
      case None => if ParseYmd(s, '/').Some? then s else ""
  }

  // ---------------------------------------------------------------------------
  // Lemmas
  // ---------------------------------------------------------------------------

  lemma Pad2Value(n: int)
    requires 0 <= n < 100
    ensures DigitsValue(Pad2(n)) == n
  {
    var s := Pad2(n);
    assert s[..1][..0] == [];
    assert DigitsValue(s[..1]) == n / 10;
  }

  lemma {:induction false} DigitsValueAppend(s: string, t: string)
    requires AllDigits(s) && AllDigits(t) && |t| == 2
    ensures DigitsValue(s + t) == DigitsValue(s) * 100 + DigitsValue(t)
  {
    var st := s + t;
    var s0 := s + [t[0]];
    assert st[..|st| - 1] == s0 && st[|st| - 1] == t[1];
    assert s0[..|s0| - 1] == s && s0[|s0| - 1] == t[0];
    assert DigitsValue(st) == DigitsValue(s0) * 10 + DigitOf(t[1]);
    assert DigitsValue(s0) == DigitsValue(s) * 10 + DigitOf(t[0]);
    assert t[..|t| - 1] == [t[0]] && [t[0]][..0] == [];
    assert DigitsValue([t[0]]) == DigitOf(t[0]);
    assert DigitsValue(t) == DigitOf(t[0]) * 10 + DigitOf(t[1]);
  }

  /** Reading `Format(d)` with `%Y/%m/%d` gives back `d`. */
  lemma FormatParses(d: Date)
    requires ValidDate(d)
    ensures ParseYmd(Format(d), '/') == Some(d)
  {
    var s := Format(d);
    var yy := Pad2(d.year / 100) + Pad2(d.year % 100);
    assert s[..4] == yy && s[4] == '/';
    DigitsValueAppend(Pad2(d.year / 100), Pad2(d.year % 100));
    Pad2Value(d.year / 100);
    Pad2Value(d.year % 100);
    assert YearField(s[..4]) == Some(d.year);
    assert s == (yy + "/") + (Pad2(d.month) + "/" + Pad2(d.day));
    var rest := s[5..];
    assert rest == Pad2(d.month) + "/" + Pad2(d.day);
    assert rest[2] == '/' && rest[1] != '/';
    assert rest[..2] == Pad2(d.month) && rest[3..] == Pad2(d.day);
    Pad2Value(d.month);
    Pad2Value(d.day);
  }

  lemma MonthNamesAreLetters(key: string)
    requires key in MonthNumbers
    ensures key != [] && 'a' <= key[0] <= 'z'
  {
  }

  /** A text that opens with a digit is not read by `%B %d, %Y`. */
  lemma NoMonthNameBeforeDigit(s: string)
    requires s != [] && IsDigit(s[0])
    ensures ParseMdy(s) == None
  {
    var k := SpaceIndex(s);
    if k < |s| {
      var key := Lower(s[..k]);
      assert key[0] == s[0];
      if key in MonthNumbers {
        MonthNamesAreLetters(key);
      }
    }
  }

  /** A Goodreads-form date reads as no other pattern, so it is passed through verbatim. */
  lemma PassThrough(s: string)
    requires IsGoodreadsDate(s)
    ensures ConvertDate(s) == s
  {
    assert IsDigit(s[0]) && IsDigit(s[1]) && IsDigit(s[2]) by {
      assert AllDigits(s[..4]);
      assert s[0] == s[..4][0] && s[1] == s[..4][1] && s[2] == s[..4][2];
    }
    assert Strip(s) != [] by {
      assert !IsSpace(s[0]);
    }
    assert ParseYmd(s, '-') == None;
    assert LeadField(s, '/') == None;
    NoMonthNameBeforeDigit(s);
  }

  /** Applying the conversion to its own non-empty result changes nothing. */
  lemma Idempotent(s: string)
    requires ConvertDate(s) != []
    ensures ConvertDate(ConvertDate(s)) == ConvertDate(s)
  {
    PassThrough(ConvertDate(s));
  }

  /** ISO is tried first: an ISO date is always reformatted from its ISO reading. */
  lemma IsoFirst(s: string, d: Date)
    requires ParseYmd(s, '-') == Some(d)
    ensures ConvertDate(s) == Format(d)
  {
    assert !IsSpace(s[0]) by {
      assert AllDigits(s[..4]) && s[0] == s[..4][0];
    }
  }

  lemma Year2024()
    ensures YearField("2024") == Some(2024)
  {
    var s := "2024";
    assert s[..3] == "202" && "202"[..2] == "20" && "20"[..1] == "2" && "2"[..0] == [];
  }

  lemma Fields0315()
    ensures MonthField("03") == Some(3) && DayField("15") == Some(15)
  {
    assert "03"[..1] == "0" && "15"[..1] == "1" && "0"[..0] == [] && "1"[..0] == [];
  }

  lemma FormatExample()
    ensures Format(Date(2024, 3, 15)) == "2024/03/15"
  {
  }

  lemma IsoExample()
    ensures ConvertDate("2024-03-15") == "2024/03/15"
  {
    var s := "2024-03-15";
    assert s[..4] == "2024" && s[5..] == "03-15";
    assert "03-15"[..2] == "03" && "03-15"[3..] == "15";
    assert LeadField("03-15", '-') == Some(("03", "15"));
    Year2024();
    Fields0315();
    IsoFirst(s, Date(2024, 3, 15));
    FormatExample();
  }

  /** A one- or two-digit field ends at the separator that follows it. */
  lemma LeadDigits(a: string, sep: char, t: string)
    requires AllDigits(a) && 1 <= |a| <= 2 && !IsDigit(sep)
    ensures LeadField(a + [sep] + t, sep) == Some((a, t))
  {
    var s := a + [sep] + t;
    assert s[|a|] == sep && s[..|a|] == a && s[|a| + 1..] == t;
    if |a| == 2 {
      assert s[1] != sep by { assert IsDigit(a[1]) && s[1] == a[1]; }
    }
  }

  /** How the three patterns read "<day>/<month>/<year>" written in digits. */
  lemma DmyReads(dd: string, mm: string, yyyy: string)
    requires AllDigits(dd) && 1 <= |dd| <= 2 && AllDigits(mm) && 1 <= |mm| <= 2
    requires AllDigits(yyyy) && yyyy != []
    ensures ParseDmy(dd + "/" + (mm + "/" + yyyy)) == MakeDate(YearField(yyyy), MonthField(mm), DayField(dd))
    ensures ParseYmd(dd + "/" + (mm + "/" + yyyy), '-') == None
    ensures ParseYmd(dd + "/" + (mm + "/" + yyyy), '/') == None
  {
    var rest := mm + "/" + yyyy;
    var s := dd + "/" + rest;
    LeadDigits(dd, '/', rest);
    LeadDigits(mm, '/', yyyy);
    assert s[4] != '-' by {
      if 4 == |dd| + 1 + |mm| {
        assert s[4] == '/';
      } else if 4 < |dd| + 1 + |mm| {
        assert s[4] == mm[4 - |dd| - 1];
      } else {
        assert s[4] == yyyy[4 - |dd| - |mm| - 2];
      }
    }
    assert s[..4][|dd|] == '/';
  }

  /**
   * "<day>/<month>/<year>" in digits is reformatted from its day/month/year
   * reading when that names a real date and gives "" otherwise: ISO does not
   * read it, and neither does Goodreads' own form.
   */
  lemma DmyConverts(dd: string, mm: string, yyyy: string)
    requires AllDigits(dd) && 1 <= |dd| <= 2 && AllDigits(mm) && 1 <= |mm| <= 2
    requires AllDigits(yyyy) && yyyy != []
    ensures ConvertDate(dd + "/" + mm + "/" + yyyy) ==
      match MakeDate(YearField(yyyy), MonthField(mm), DayField(dd))
      case Some(d) => Format(d)
      case None => ""
  {
    var s := dd + "/" + (mm + "/" + yyyy);
    assert s == dd + "/" + mm + "/" + yyyy;
    DmyReads(dd, mm, yyyy);
    assert s[0] == dd[0] && IsDigit(s[0]);
    assert Strip(s) != [];
    NoMonthNameBeforeDigit(s);
  }

  /** The day field and the comma after it, in the text that follows the month name. */
  lemma DayThenYear(dd: string, yyyy: string)
    requires AllDigits(dd) && 1 <= |dd| <= 2
    ensures LStrip(dd + ", " + yyyy) == dd + ", " + yyyy
    ensures LeadField(dd + ", " + yyyy, ',') == Some((dd, " " + yyyy))
  {
    var rest := dd + ", " + yyyy;
    assert !IsSpace(rest[0]) by { assert IsDigit(dd[0]) && rest[0] == dd[0]; }
    assert rest[|dd|] == ',' && rest[..|dd|] == dd && rest[|dd| + 1..] == " " + yyyy;
    if |dd| == 2 {
      assert rest[1] != ',' by { assert IsDigit(dd[1]) && rest[1] == dd[1]; }
    }
  }

  /** The month name runs up to the first blank; blanks after it are skipped. */
  lemma NameThenRest(name: string, rest: string)
    requires IsWord(name)
    ensures SpaceIndex(name + " " + rest) == |name|
    ensures (name + " " + rest)[..|name|] == name
    ensures LStrip((name + " " + rest)[|name|..]) == LStrip(rest)
  {
    var s := name + " " + rest;
    assert s == name + (" " + rest);
    SpaceIndexAfterWord(name, " " + rest);
    assert s[|name|..] == " " + rest;
    LStripSpaceThen(rest);
  }

  /**
   * How `%B %d, %Y` reads "<name> <day>, <year>": the name runs up to the
   * blank, the day up to the comma, and the year follows the blank after it.
   */
  lemma MdyReads(name: string, dd: string, yyyy: string)
    requires IsWord(name) && AllDigits(dd) && 1 <= |dd| <= 2
    requires yyyy != [] && !IsSpace(yyyy[0])
    ensures ParseMdy(name + " " + (dd + ", " + yyyy)) == MakeDate(YearField(yyyy), MonthName(name), DayField(dd))
  {
    NameThenRest(name, dd + ", " + yyyy);
    DayThenYear(dd, yyyy);
    LStripSpaceThen(yyyy);
    assert IsSpace((" " + yyyy)[0]);
  }

  /** No pattern but `%B %d, %Y` reads a text that opens with a word other than a number. */
  lemma OnlyMdy(s: string)
    requires s != [] && !IsDigit(s[0]) && !IsSpace(s[0])
    ensures ParseYmd(s, '-') == None && ParseYmd(s, '/') == None && ParseDmy(s) == None
    ensures ParseStoryGraph(s) == ParseMdy(s)
  {
    if |s| >= 4 {
      assert s[..4][0] == s[0];
    }
    if |s| >= 2 {
      assert s[..1][0] == s[0];
    }
    if |s| >= 3 {
      assert s[..2][0] == s[0];
    }
  }

  /**
   * "<name> <day>, <year>" is reformatted when it names a real date and
   * gives "" when it does not: no earlier pattern reads it, and it is not
   * in Goodreads' form.
   */
  lemma MdyConverts(name: string, dd: string, yyyy: string)
    requires IsWord(name) && !IsDigit(name[0]) && AllDigits(dd) && 1 <= |dd| <= 2
    requires yyyy != [] && !IsSpace(yyyy[0])
    ensures ConvertDate(name + " " + dd + ", " + yyyy) ==
      match MakeDate(YearField(yyyy), MonthName(name), DayField(dd))
      case Some(d) => Format(d)
      case None => ""
  {
    var s := name + " " + dd + ", " + yyyy;
    assert s == name + " " + (dd + ", " + yyyy);
    assert s[0] == name[0];
    assert Strip(s) != [];
    OnlyMdy(s);
    MdyReads(name, dd, yyyy);
  }

  /** A single word that does not open with a digit is read by no pattern. */
  lemma UnreadWord(s: string)
    requires IsWord(s) && !IsDigit(s[0])
    ensures ConvertDate(s) == ""
  {
    assert Strip(s) != [];
    OnlyMdy(s);
  }

  lemma MarchName()
    ensures MonthName("March") == Some(3)
  {
    assert Lower("March") == "march";
  }

  lemma DmyExample()
    ensures ConvertDate("15" + "/" + "03" + "/" + "2024") == "2024/03/15"
  {
    DmyConverts("15", "03", "2024");
    Year2024();
    Fields0315();
    FormatExample();
  }

  lemma MdyExample()
    ensures ConvertDate("March" + " " + "15" + ", " + "2024") == "2024/03/15"
  {
    MdyConverts("March", "15", "2024");
    MarchName();
    Year2024();
    Fields0315();
    FormatExample();
  }
}
