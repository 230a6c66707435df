/** `normalizeDateToMMDDYYYY`: a fragment already in `MM/DD/YYYY` shape is
    kept as it is; a "Month Day, Year" fragment is read as a calendar date
    (what `new Date` does for such text) and printed with a two-digit month,
    a two-digit day and the year. */
module DateNormalize {
  import opened Options
  import opened Text
  import opened DatePatterns

  /** A day of the Gregorian calendar; `month` counts from 1. */
  datatype CalendarDate = CalendarDate(month: nat, day: nat, year: nat)

  predicate IsLeapYear(year: nat) {
    (year % 4 == 0 && year % 100 != 0) || year % 400 == 0
  }

  function DaysInMonth(month: nat, year: nat): (n: nat)
    requires 1 <= month <= 12
    ensures 28 <= n <= 31
  {
    if month == 2 then (if IsLeapYear(year) then 29 else 28)
    else if month == 4 || month == 6 || month == 9 || month == 11 then 30
    else 31
  }

  /** The dates whose reading by `new Date` this model covers: an existing
      day of a four-digit year. */
  predicate IsModelledDate(d: CalendarDate) {
    && 1 <= d.month <= 12
    && 1 <= d.day <= DaysInMonth(d.month, d.year)
    && 1000 <= d.year <= 9999
  }

  // ---------------------------------------------------------------------
  // Reading a "Month Day, Year" fragment.

  /** The day and year digits of a "Month Day, Year" tail that starts at
      `k` and runs to the end of `f`. */
  function DateTailFields(f: string, k: nat): (r: Option<(nat, nat)>)
    requires k <= |f|
    ensures r.Some? <==> DateTailAt(f, k) == Some(|f|)
    ensures r.Some? ==> r.value.0 <= 99 && r.value.1 <= 9999
  {
    var dayStart := SpaceRunEnd(f, k);
    if dayStart == k then None
    else match ShortNumberThen(f, dayStart, ',')
      case None => None
      case Some(comma) =>
        var yearStart := SpaceRunEnd(f, comma + 1);
        match YearEnd(f, yearStart)
        case None => None
        case Some(e) =>
          if e != |f| then None
          else
            DayYearBounds(f[dayStart..comma], f[yearStart..e]);
            Some((DigitsValue(f[dayStart..comma]), DigitsValue(f[yearStart..e])))
  }

  lemma DayYearBounds(day: string, year: string)
    requires |day| <= 2 && AllDigits(day) && |year| == 4 && AllDigits(year)
    ensures DigitsValue(day) <= 99 && DigitsValue(year) <= 9999
  {
    DigitsValueBound(day);
    DigitsValueBound(year);
    Pow10Monotone(|day|, 2);
    assert Pow10(2) == 100 && Pow10(4) == 10000;
  }

  /** The calendar fields of a string that is, as a whole, one match of the
      "Month Day, Year" pattern: the month's position in the alternation,
      the day digits and the year digits. */
  function MonthDayYearFields(f: string): (r: Option<CalendarDate>)
    ensures r.Some? <==> MonthDayYearAt(f, 0) == Some(|f|)
    ensures r.Some? ==> 1 <= r.value.month <= 12 && r.value.day <= 99 && r.value.year <= 9999
  {
    if !WordBoundary(f, 0) then None
    else match MonthNameFrom(f, 0, 0)
      case None => None
      case Some(m) =>
        match DateTailFields(f, |MonthNames[m]|)
        case None => None
        case Some((day, year)) => Some(CalendarDate(m + 1, day, year))
  }

  // ---------------------------------------------------------------------
  // Printing.

  /** `String(n).padStart(2, '0')`. */
  function TwoDigits(n: nat): (s: string)
    requires n <= 99
    ensures |s| == 2 && AllDigits(s) && DigitsValue(s) == n
  {
    var t := NatToString(n);
    DigitsValueBound(t);
    if |t| == 2 then t
    else
      var s := PadStart(t, 2, '0');
      assert s == ['0', t[0]];
      assert s[..1] == ['0'];
      assert DigitsValue(s[..1]) == 0 by {
        assert s[..1][..0] == [];
      }
      assert DigitsValue(t) == DigitValue(t[0]) by {
        assert t[..0] == [];
      }
      s
  }

  /** The `${month}/${day}/${year}` text. */
  function Format(d: CalendarDate): (s: string)
    requires d.month <= 99 && d.day <= 99
  {
    NumericDateText(TwoDigits(d.month), TwoDigits(d.day), NatToString(d.year))
  }

  /** `normalizeDateToMMDDYYYY(fragment)`; `None` is the source's `null`. */
  function Normalize(f: string): (r: Option<string>)
    ensures r.Some? ==> |r.value| > 0
    ensures Find(NumericDate, f).Some? ==> r == Some(f)
    ensures Find(NumericDate, f).None? && Find(MonthDayYear, f).None? ==> r == None
    ensures r.Some? ==> Find(NumericDate, r.value).Some?
  {
    if Find(NumericDate, f).Some? then
      assert |f| > 0;
      Some(f)
    else if Find(MonthDayYear, f).Some? then
      match MonthDayYearFields(f)
      case Some(d) =>
        if IsModelledDate(d) then
          FormatIsNumericDate(d);
          ShapeIsWholeMatch(NumericDate, Format(d));
          Some(Format(d))
        else None
      case None => None
    else None
  }

  // ---------------------------------------------------------------------
  // The reader agrees with the pattern.

  /** The reader takes its fields from the positions the tail scanner passes. */
  lemma MonthDayYearFieldsOfLayout(f: string, m: nat, dayStart: nat, comma: nat, yearStart: nat)
    requires m < |MonthNames| && NameAt(f, 0, m) && WordBoundary(f, 0)
    requires DateTailLayout(f, |MonthNames[m]|, dayStart, comma, yearStart, |f|)
    ensures MonthDayYearFields(f)
         == Some(CalendarDate(m + 1, DigitsValue(f[dayStart..comma]), DigitsValue(f[yearStart..|f|])))
  {
    var found := MonthNameFrom(f, 0, 0);
    NameAtUnique(f, 0, found.value, m);
    DateTailFieldsOfLayout(f, |MonthNames[m]|, dayStart, comma, yearStart);
  }

  lemma DateTailFieldsOfLayout(f: string, k: nat, dayStart: nat, comma: nat, yearStart: nat)
    requires DateTailLayout(f, k, dayStart, comma, yearStart, |f|)
    ensures DateTailFields(f, k) == Some((DigitsValue(f[dayStart..comma]), DigitsValue(f[yearStart..|f|])))
  {
    DateTailLayoutPositions(f, k, dayStart, comma, yearStart, |f|);
  }

  /** A "Month Day, Year" word, taken on its own, is bounded by `\b` on both sides. */
  lemma MonthDayYearTextBounded(f: string, name: string, gap: string, day: string, pad: string, year: string)
    requires MonthDayYearParts(name, gap, day, pad, year) && f == MonthDayYearText(name, gap, day, pad, year)
    ensures WordBoundary(f, 0) && WordBoundary(f, |f|)
  {
    MonthDayYearShapeIntro(f, name, gap, day, pad, year);
    ShapeEnds(MonthDayYear, f);
  }

  /** Where the parts of a "Month Day, Year" word sit in its text. */
  lemma MonthDayYearTextLayout(f: string, name: string, gap: string, day: string, pad: string, year: string,
                               m: nat, dayStart: nat, comma: nat, yearStart: nat)
    requires MonthDayYearParts(name, gap, day, pad, year) && f == MonthDayYearText(name, gap, day, pad, year)
    requires m < |MonthNames| && Lower(name) == MonthNames[m]
    requires dayStart == |name| + |gap| && comma == dayStart + |day| && yearStart == comma + 1 + |pad|
    ensures NameAt(f, 0, m) && WordBoundary(f, 0)
    ensures DateTailLayout(f, |MonthNames[m]|, dayStart, comma, yearStart, |f|)
    ensures f[dayStart..comma] == day && f[yearStart..|f|] == year
  {
    Unconcat(f, 0, |f|, name, gap + (day + ("," + (pad + year))));
    MonthDayYearTextBounded(f, name, gap, day, pad, year);
    DateTailPartsLayout(f, |name|, |f|, gap, day, pad, year);
  }

  /** A "Month Day, Year" word yields the month of its name and the values
      of its day and year digits. */
  lemma MonthDayYearFieldsOfText(name: string, gap: string, day: string, pad: string, year: string, m: nat)
    requires MonthDayYearParts(name, gap, day, pad, year)
    requires m < |MonthNames| && Lower(name) == MonthNames[m]
    ensures MonthDayYearFields(MonthDayYearText(name, gap, day, pad, year))
         == Some(CalendarDate(m + 1, DigitsValue(day), DigitsValue(year)))
  {
    var f := MonthDayYearText(name, gap, day, pad, year);
    var dayStart := |name| + |gap|;
    var comma := dayStart + |day|;
    var yearStart := comma + 1 + |pad|;
    MonthDayYearTextLayout(f, name, gap, day, pad, year, m, dayStart, comma, yearStart);
    MonthDayYearFieldsOfLayout(f, m, dayStart, comma, yearStart);
  }

  // ---------------------------------------------------------------------
  // Printing and reading back.

  /** A modelled date prints as ten characters in `MM/DD/YYYY` shape. */
  lemma FormatIsNumericDate(d: CalendarDate)
    requires IsModelledDate(d)
    ensures |Format(d)| == 10 && Format(d)[2] == '/' && Format(d)[5] == '/'
    ensures Shape(NumericDate, Format(d))
  {
    var year := NatToString(d.year);
    DigitsValueBound(year);
    assert |year| == 4 by {
      assert Pow10(3) == 1000 && Pow10(4) == 10000;
      if |year| <= 3 {
        Pow10Monotone(|year|, 3);
      }
      if |year| >= 5 {
        Pow10Monotone(4, |year| - 1);
      }
    }
    NumericDateShapeIntro(Format(d), TwoDigits(d.month), TwoDigits(d.day), year);
  }

  /** The printed text gives back the month, the day and the year. */
  lemma FormatReadsBack(d: CalendarDate)
    requires IsModelledDate(d)
    ensures |Format(d)| == 10
    ensures AllDigits(Format(d)[0..2]) && DigitsValue(Format(d)[0..2]) == d.month
    ensures AllDigits(Format(d)[3..5]) && DigitsValue(Format(d)[3..5]) == d.day
    ensures AllDigits(Format(d)[6..10]) && DigitsValue(Format(d)[6..10]) == d.year
  {
    FormatIsNumericDate(d);
    var f := Format(d);
    var month, day, year := TwoDigits(d.month), TwoDigits(d.day), NatToString(d.year);
    Unconcat(f, 0, 10, month, "/" + (day + ("/" + year)));
    Unconcat(f, 2, 10, "/", day + ("/" + year));
    Unconcat(f, 3, 10, day, "/" + year);
    Unconcat(f, 5, 10, "/", year);
  }

  // ---------------------------------------------------------------------
  // What the normalizer returns.

  predicate NoSlash(s: string) {
    forall k :: 0 <= k < |s| ==> s[k] != '/'
  }

  lemma NoSlashConcat(a: string, b: string)
    requires NoSlash(a) && NoSlash(b)
    ensures NoSlash(a + b)
  {
    forall k | 0 <= k < |a + b|
      ensures (a + b)[k] != '/'
    {
      if k >= |a| {
        assert (a + b)[k] == b[k - |a|];
      }
    }
  }

  /** A "Month Day, Year" word has no slash: names are letters, the rest
      white space, digits and a comma. */
  lemma MonthDayYearTextNoSlash(name: string, gap: string, day: string, pad: string, year: string)
    requires MonthDayYearParts(name, gap, day, pad, year)
    ensures NoSlash(MonthDayYearText(name, gap, day, pad, year))
  {
    var m :| 0 <= m < |MonthNames| && Lower(name) == MonthNames[m];
    MonthCases(m);
    forall k | 0 <= k < |name|
      ensures name[k] != '/'
    {
      assert LowerChar(name[k]) == MonthNames[m][k];
    }
    NoSlashConcat(pad, year);
    NoSlashConcat(",", pad + year);
    NoSlashConcat(day, "," + (pad + year));
    NoSlashConcat(gap, day + ("," + (pad + year)));
    NoSlashConcat(name, gap + (day + ("," + (pad + year))));
  }

  /** An `MM/DD/YYYY` match holds a slash after its month digits. */
  lemma NumericDateHasSlash(s: string, i: nat, j: nat) returns (k: nat)
    requires Matches(NumericDate, s, i, j)
    ensures i <= k < j && s[k] == '/'
  {
    var month, day, year :| NumericDateParts(month, day, year) && s[i..j] == NumericDateText(month, day, year);
    Unconcat(s, i, j, month, "/" + (day + ("/" + year)));
    Unconcat(s, i + |month|, j, "/", day + ("/" + year));
    k := i + |month|;
    assert s[k] == s[k..k + 1][0];
  }

  /** A string without a slash holds no `MM/DD/YYYY` match. */
  lemma NoSlashNoNumericDate(s: string)
    requires NoSlash(s)
    ensures forall i, j :: !Matches(NumericDate, s, i, j)
  {
    forall i, j | Matches(NumericDate, s, i, j)
      ensures false
    {
      var k := NumericDateHasSlash(s, i, j);
    }
  }

  /** Text holding an `MM/DD/YYYY` date is returned unchanged. */
  lemma NormalizeKeepsNumericDate(f: string, i: nat, j: nat)
    requires Matches(NumericDate, f, i, j)
    ensures Normalize(f) == Some(f)
  {
    FindIsLeftmostMatch(NumericDate, f);
  }

  /** Text in which neither pattern occurs is not a date. */
  lemma NormalizeRejectsNonDates(f: string)
    requires forall i, j :: !Matches(NumericDate, f, i, j) && !Matches(MonthDayYear, f, i, j)
    ensures Normalize(f) == None
  {
    FindIsLeftmostMatch(NumericDate, f);
    FindIsLeftmostMatch(MonthDayYear, f);
  }

  /** A "Month Day, Year" word becomes the `MM/DD/YYYY` text of its month,
      day and year when that is a modelled date, and nothing otherwise. */
  lemma NormalizeMonthDayYear(name: string, gap: string, day: string, pad: string, year: string, m: nat)
    requires MonthDayYearParts(name, gap, day, pad, year)
    requires m < |MonthNames| && Lower(name) == MonthNames[m]
    ensures var date := CalendarDate(m + 1, DigitsValue(day), DigitsValue(year));
      Normalize(MonthDayYearText(name, gap, day, pad, year))
        == if IsModelledDate(date) then Some(Format(date)) else None
  {
    var f := MonthDayYearText(name, gap, day, pad, year);
    MonthDayYearTextNoSlash(name, gap, day, pad, year);
    NoSlashNoNumericDate(f);
    FindIsLeftmostMatch(NumericDate, f);
    MonthDayYearFieldsOfText(name, gap, day, pad, year, m);
    assert MatchAt(MonthDayYear, f, 0).Some?;
  }

  /** Normalizing twice changes nothing: every result is itself kept as it is. */
  lemma NormalizeIdempotent(f: string)
    requires Normalize(f).Some?
    ensures Normalize(Normalize(f).value) == Normalize(f)
  {
    var v := Normalize(f).value;
    if v != f {
      var d := MonthDayYearFields(f).value;
      FormatIsNumericDate(d);
      ShapeIsWholeMatch(NumericDate, v);
      assert Find(NumericDate, v).Some?;
    }
  }

  // ---------------------------------------------------------------------
  // The documented examples.

  /** The two characters `TwoDigits` prints. */
  lemma TwoDigitsChars(n: nat)
    requires n <= 99
    ensures TwoDigits(n) == [DigitChar(n / 10), DigitChar(n % 10)]
  {
    var s := TwoDigits(n);
    DigitsValueOfTwo(s);
    assert DigitValue(s[0]) == n / 10 && DigitValue(s[1]) == n % 10;
    DigitCharOfValue(s[0]);
    DigitCharOfValue(s[1]);
    assert s == [s[0], s[1]];
  }

  /** The four characters of a four-digit year. */
  lemma YearChars(n: nat)
    requires 1000 <= n <= 9999
    ensures NatToString(n) == [DigitChar(n / 1000), DigitChar(n / 100 % 10), DigitChar(n / 10 % 10), DigitChar(n % 10)]
  {
    assert n / 100 / 10 == n / 1000 && n / 10 / 10 == n / 100;
    assert NatToString(n / 1000) == [DigitChar(n / 1000)];
    assert NatToString(n / 100) == NatToString(n / 1000) + [DigitChar(n / 100 % 10)];
    assert NatToString(n / 10) == NatToString(n / 100) + [DigitChar(n / 10 % 10)];
  }

  lemma FormatMarchExample()
    ensures Format(CalendarDate(3, 15, 2024)) == "03/15/2024"
  {
    YearChars(2024);
    TwoDigitsChars(3);
    TwoDigitsChars(15);
  }

  lemma FormatMayExample()
    ensures Format(CalendarDate(5, 5, 2023)) == "05/05/2023"
  {
    YearChars(2023);
    TwoDigitsChars(5);
  }

  lemma MonthDayYearTextExamples()
    ensures Lower("March") == MonthNames[2] && Lower("May") == MonthNames[4]
    ensures "March 15, 2024" == MonthDayYearText("March", " ", "15", " ", "2024")
    ensures "May 5, 2023" == MonthDayYearText("May", " ", "5", " ", "2023")
  {
  }

  /** "March 15, 2024" becomes "03/15/2024". */
  lemma NormalizeMarchExample()
    ensures Normalize("March 15, 2024") == Some("03/15/2024")
  {
    MonthDayYearTextExamples();
    DigitsValueOfTwo("15");
    DigitsValueOfFour("2024");
    NormalizeMonthDayYear("March", " ", "15", " ", "2024", 2);
    FormatMarchExample();
  }

  /** "May 5, 2023" becomes "05/05/2023": the day is padded. */
  lemma NormalizeMayExample()
    ensures Normalize("May 5, 2023") == Some("05/05/2023")
  {
    MonthDayYearTextExamples();
    DigitsValueOfOne("5");
    DigitsValueOfFour("2023");
    NormalizeMonthDayYear("May", " ", "5", " ", "2023", 4);
    FormatMayExample();
  }

  /** "03/15/2024" is kept as it is. */
  lemma NormalizeNumericExample()
    ensures Normalize("03/15/2024") == Some("03/15/2024")
  {
    assert "03/15/2024" == NumericDateText("03", "15", "2024");
    NumericDateShapeIntro("03/15/2024", "03", "15", "2024");
    ShapeEnds(NumericDate, "03/15/2024");
    assert "03/15/2024"[0..10] == "03/15/2024";
    NormalizeKeepsNumericDate("03/15/2024", 0, 10);
  }
}
