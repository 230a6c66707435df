/** The two date regular expressions of the special-control engine, read as
    scanners. `\b` is the ECMAScript word boundary, `\d` an ASCII digit and
    `\s` ECMAScript white space. A regular expression's `match` returns the
    leftmost position at which the pattern matches; for both patterns at most
    one match can start at a given position, so a match is a span. */
module DatePatterns {
  import opened Options
  import opened Text

  /** The month-name alternation of the "Month Day, Year" pattern. The
      pattern carries the `i` flag, so names are compared after ASCII
      lower-casing and are kept here in lower case. */
  const MonthNames: seq<string> := [
    "january", "february", "march", "april", "may", "june",
    "july", "august", "september", "october", "november", "december"]

  datatype DatePattern =
    | MonthDayYear   // `\b(?:January|...|December)\s+\d{1,2},\s*\d{4}\b` with the `i` flag
    | NumericDate    // `\b\d{1,2}\/\d{1,2}\/\d{4}\b`

  /** A matched region `[start, end)` of a string. */
  datatype Span = Span(start: nat, end: nat)

  /** `\b` at position `i` of `s`. */
  predicate WordBoundary(s: string, i: int)
    requires 0 <= i <= |s|
  {
    (i > 0 && IsWordChar(s[i - 1])) != (i < |s| && IsWordChar(s[i]))
  }

  // ---------------------------------------------------------------------
  // The patterns as languages.

  predicate IsMonthName(w: string) {
    exists m :: 0 <= m < |MonthNames| && Lower(w) == MonthNames[m]
  }

  predicate MonthDayYearParts(name: string, gap: string, day: string, pad: string, year: string) {
    && IsMonthName(name)
    && |gap| >= 1 && AllSpace(gap)
    && 1 <= |day| <= 2 && AllDigits(day)
    && AllSpace(pad)
    && |year| == 4 && AllDigits(year)
  }

  predicate NumericDateParts(month: string, day: string, year: string) {
    && 1 <= |month| <= 2 && AllDigits(month)
    && 1 <= |day| <= 2 && AllDigits(day)
    && |year| == 4 && AllDigits(year)
  }

  function MonthDayYearText(name: string, gap: string, day: string, pad: string, year: string): string {
    name + (gap + (day + ("," + (pad + year))))
  }

  function NumericDateText(month: string, day: string, year: string): string {
    month + ("/" + (day + ("/" + year)))
  }

  ghost predicate MonthDayYearShape(f: string) {
    exists name, gap, day, pad, year ::
      MonthDayYearParts(name, gap, day, pad, year) && f == MonthDayYearText(name, gap, day, pad, year)
  }

  ghost predicate NumericDateShape(f: string) {
    exists month, day, year :: NumericDateParts(month, day, year) && f == NumericDateText(month, day, year)
  }

  /** `f` is a word of the pattern's language, boundaries aside. */
  ghost predicate Shape(p: DatePattern, f: string) {
    if p == MonthDayYear then MonthDayYearShape(f) else NumericDateShape(f)
  }

  /** The pattern, `\b` assertions included, matches exactly `s[i..j]`. */
  ghost predicate Matches(p: DatePattern, s: string, i: int, j: int) {
    0 <= i <= j <= |s| && WordBoundary(s, i) && WordBoundary(s, j) && Shape(p, s[i..j])
  }

  // ---------------------------------------------------------------------
  // The patterns as scanners.

  /** Month `m`'s name, ignoring ASCII case, starts at position `i`. */
  predicate NameAt(s: string, i: nat, m: nat)
    requires m < |MonthNames|
  {
    i + |MonthNames[m]| <= |s| && Lower(s[i..i + |MonthNames[m]|]) == MonthNames[m]
  }

  /** The first alternative, from month `m` on, that matches at `i`. */
  function MonthNameFrom(s: string, i: nat, m: nat): (r: Option<nat>)
    requires m <= |MonthNames|
    decreases |MonthNames| - m
    ensures r.Some? ==> m <= r.value < |MonthNames| && NameAt(s, i, r.value)
    ensures r.None? ==> forall m' :: m <= m' < |MonthNames| ==> !NameAt(s, i, m')
  {
    if m == |MonthNames| then None
    else if NameAt(s, i, m) then Some(m)
    else MonthNameFrom(s, i, m + 1)
  }

  /** End of the longest run of white space starting at `k` (greedy `\s*`). */
  function SpaceRunEnd(s: string, k: nat): (e: nat)
    requires k <= |s|
    decreases |s| - k
    ensures k <= e <= |s| && AllSpace(s[k..e]) && (e < |s| ==> !IsSpace(s[e]))
  {
    if k < |s| && IsSpace(s[k]) then
      var e := SpaceRunEnd(s, k + 1);
      assert s[k..e] == [s[k]] + s[k + 1..e];
      e
    else k
  }

  /** `\d{1,2}` at `k` followed by `delim`: the delimiter's position. When
      two digits are not followed by `delim`, backtracking to one digit
      cannot help, since the second digit is not `delim` either. */
  function ShortNumberThen(s: string, k: nat, delim: char): (r: Option<nat>)
    requires k <= |s| && !IsDigit(delim)
    ensures r.Some? ==>
      k < r.value < |s| && r.value <= k + 2 && s[r.value] == delim && AllDigits(s[k..r.value])
  {
    if k < |s| && IsDigit(s[k]) then
      if k + 1 < |s| && IsDigit(s[k + 1]) then
        if k + 2 < |s| && s[k + 2] == delim then Some(k + 2) else None
      else if k + 1 < |s| && s[k + 1] == delim then Some(k + 1)
      else None
    else None
  }

  /** `\d{4}\b` at `k`: the end of the match. */
  function YearEnd(s: string, k: nat): (r: Option<nat>)
    requires k <= |s|
    ensures r.Some? ==> r.value == k + 4 <= |s| && AllDigits(s[k..k + 4]) && WordBoundary(s, k + 4)
  {
    if k + 4 <= |s| && AllDigits(s[k..k + 4]) && WordBoundary(s, k + 4) then Some(k + 4) else None
  }

  /** `\s+\d{1,2},\s*\d{4}\b` at `k`: what follows the month name. */
  function DateTailAt(s: string, k: nat): (r: Option<nat>)
    requires k <= |s|
    ensures r.Some? ==> k < r.value <= |s|
  {
    var dayStart := SpaceRunEnd(s, k);
    if dayStart == k then None
    else match ShortNumberThen(s, dayStart, ',')
      case None => None
      case Some(comma) => YearEnd(s, SpaceRunEnd(s, comma + 1))
  }

  /** Where the first month name that matches at `i` ends. */
  function MonthNameEnd(s: string, i: nat): (r: Option<nat>)
    requires i <= |s|
    ensures r.Some? ==> i <= r.value <= |s|
  {
    match MonthNameFrom(s, i, 0)
    case None => None
    case Some(m) => Some(i + |MonthNames[m]|)
  }

  function MonthDayYearAt(s: string, i: nat): (r: Option<nat>)
    requires i <= |s|
    ensures r.Some? ==> i < r.value <= |s|
  {
    if !WordBoundary(s, i) then None
    else match MonthNameEnd(s, i)
      case None => None
      case Some(k) => DateTailAt(s, k)
  }

  function NumericDateAt(s: string, i: nat): (r: Option<nat>)
    requires i <= |s|
    ensures r.Some? ==> i < r.value <= |s|
  {
    if !WordBoundary(s, i) then None
    else match ShortNumberThen(s, i, '/')
      case None => None
      case Some(slash1) =>
        match ShortNumberThen(s, slash1 + 1, '/')
        case None => None
        case Some(slash2) => YearEnd(s, slash2 + 1)
  }

  /** Where the match starting at `i` ends, if one does. */
  function MatchAt(p: DatePattern, s: string, i: nat): (r: Option<nat>)
    requires i <= |s|
    ensures r.Some? ==> i < r.value <= |s|
  {
    match p
    case MonthDayYear => MonthDayYearAt(s, i)
    case NumericDate => NumericDateAt(s, i)
  }

  /** The leftmost match starting at `k` or later. */
  function FindFrom(p: DatePattern, s: string, k: nat): (r: Option<Span>)
    requires k <= |s|
    decreases |s| - k
    ensures r.Some? ==>
      k <= r.value.start < r.value.end <= |s| && MatchAt(p, s, r.value.start) == Some(r.value.end)
    ensures r.Some? ==> forall i :: k <= i < r.value.start ==> MatchAt(p, s, i).None?
    ensures r.None? ==> forall i :: k <= i <= |s| ==> MatchAt(p, s, i).None?
  {
    match MatchAt(p, s, k)
    case Some(e) => Some(Span(k, e))
    case None => if k == |s| then None else FindFrom(p, s, k + 1)
  }

  /** `s.match(pattern)`: the leftmost match, if any. */
  function Find(p: DatePattern, s: string): (r: Option<Span>)
    ensures r.Some? ==> r.value.start < r.value.end <= |s| && MatchAt(p, s, r.value.start) == Some(r.value.end)
    ensures r.Some? ==> forall i :: 0 <= i < r.value.start ==> MatchAt(p, s, i).None?
    ensures r.None? ==> forall i :: 0 <= i <= |s| ==> MatchAt(p, s, i).None?
  {
    FindFrom(p, s, 0)
  }

  // ---------------------------------------------------------------------
  // Scanners agree with the languages.

  lemma MonthCases(m: nat)
    requires m < 12
    ensures m == 0 || m == 1 || m == 2 || m == 3 || m == 4 || m == 5
         || m == 6 || m == 7 || m == 8 || m == 9 || m == 10 || m == 11
  {
  }

  /** No two month names share their first three letters. */
  lemma MonthPrefixesDistinct(a: nat, b: nat)
    requires a < |MonthNames| && b < |MonthNames|
    requires MonthNames[a][0] == MonthNames[b][0]
    requires MonthNames[a][1] == MonthNames[b][1]
    requires MonthNames[a][2] == MonthNames[b][2]
    ensures a == b
  {
    MonthCases(a);
    MonthCases(b);
  }

  lemma MonthNameStartsWithLetter(name: string)
    requires IsMonthName(name)
    ensures |name| >= 1 && IsAsciiLetter(name[0])
  {
    var m :| 0 <= m < |MonthNames| && Lower(name) == MonthNames[m];
    assert 'a' <= MonthNames[m][0] <= 'z' by {
      MonthCases(m);
    }
    assert LowerChar(name[0]) == MonthNames[m][0];
  }

  /** At most one month alternative matches at a given position. */
  lemma NameAtUnique(s: string, i: nat, a: nat, b: nat)
    requires a < |MonthNames| && b < |MonthNames| && NameAt(s, i, a) && NameAt(s, i, b)
    ensures a == b
  {
    MonthCases(a);
    MonthCases(b);
    forall k | 0 <= k < 3 ensures MonthNames[a][k] == MonthNames[b][k] {
      assert Lower(s[i..i + |MonthNames[a]|])[k] == LowerChar(s[i + k]);
      assert Lower(s[i..i + |MonthNames[b]|])[k] == LowerChar(s[i + k]);
    }
    MonthPrefixesDistinct(a, b);
  }

  lemma SpaceRunEndIs(s: string, k: nat, e: nat)
    requires k <= e <= |s| && AllSpace(s[k..e]) && (e < |s| ==> !IsSpace(s[e]))
    ensures SpaceRunEnd(s, k) == e
  {
  }

  lemma ShortNumberThenIs(s: string, k: nat, e: nat, delim: char)
    requires k < e <= k + 2 && e < |s| && AllDigits(s[k..e]) && s[e] == delim && !IsDigit(delim)
    ensures ShortNumberThen(s, k, delim) == Some(e)
  {
    assert s[k] == s[k..e][0];
    if e == k + 2 {
      assert s[k + 1] == s[k..e][1];
    }
  }

  /** `s[i..j]` splits into the slices on either side of `k`. */
  lemma SplitAt(s: string, i: nat, k: nat, j: nat)
    requires i <= k <= j <= |s|
    ensures s[i..j] == s[i..k] + s[k..j]
  {
  }

  /** A concatenation that spells `s[i..j]` splits `s` after its first part. */
  lemma Unconcat(s: string, i: nat, j: nat, head: string, tail: string)
    requires i <= j <= |s| && s[i..j] == head + tail
    ensures i + |head| <= j && s[i..i + |head|] == head && s[i + |head|..j] == tail
  {
    var k := i + |head|;
    assert s[i..k] == s[i..j][..|head|];
    assert s[k..j] == s[i..j][|head|..];
    assert (head + tail)[..|head|] == head;
    assert (head + tail)[|head|..] == tail;
  }

  lemma MonthDayYearShapeIntro(f: string, name: string, gap: string, day: string, pad: string, year: string)
    requires MonthDayYearParts(name, gap, day, pad, year) && f == MonthDayYearText(name, gap, day, pad, year)
    ensures Shape(MonthDayYear, f)
  {
  }

  /** The positions of the parts that follow a month name starting at `k`:
      white space up to the day, the comma, optional white space up to the
      year, and the end `j`. */
  predicate DateTailLayout(s: string, k: nat, dayStart: nat, comma: nat, yearStart: nat, j: nat) {
    && k < dayStart < comma < yearStart && j == yearStart + 4 <= |s|
    && WordBoundary(s, j)
    && AllSpace(s[k..dayStart])
    && comma <= dayStart + 2 && AllDigits(s[dayStart..comma]) && s[comma] == ','
    && AllSpace(s[comma + 1..yearStart])
    && AllDigits(s[yearStart..j])
  }

  /** Each step of the tail scanner stops at the position the layout names. */
  lemma DateTailLayoutPositions(s: string, k: nat, dayStart: nat, comma: nat, yearStart: nat, j: nat)
    requires DateTailLayout(s, k, dayStart, comma, yearStart, j)
    ensures SpaceRunEnd(s, k) == dayStart
    ensures ShortNumberThen(s, dayStart, ',') == Some(comma)
    ensures SpaceRunEnd(s, comma + 1) == yearStart
    ensures YearEnd(s, yearStart) == Some(j)
  {
    assert IsDigit(s[dayStart]) by {
      assert s[dayStart] == s[dayStart..comma][0];
    }
    SpaceRunEndIs(s, k, dayStart);
    ShortNumberThenIs(s, dayStart, comma, ',');
    assert IsDigit(s[yearStart]) by {
      assert s[yearStart] == s[yearStart..j][0];
    }
    SpaceRunEndIs(s, comma + 1, yearStart);
  }

  lemma DateTailLayoutScans(s: string, k: nat, dayStart: nat, comma: nat, yearStart: nat, j: nat)
    requires DateTailLayout(s, k, dayStart, comma, yearStart, j)
    ensures DateTailAt(s, k) == Some(j)
  {
    DateTailLayoutPositions(s, k, dayStart, comma, yearStart, j);
  }

  /** The scanner's positions, when it succeeds. */
  lemma DateTailAtLayout(s: string, k: nat) returns (dayStart: nat, comma: nat, yearStart: nat)
    requires k <= |s| && DateTailAt(s, k).Some?
    ensures DateTailLayout(s, k, dayStart, comma, yearStart, DateTailAt(s, k).value)
  {
    dayStart := SpaceRunEnd(s, k);
    comma := ShortNumberThen(s, dayStart, ',').value;
    yearStart := SpaceRunEnd(s, comma + 1);
  }

  /** The text between a month name at `i` and the end `j` of its tail
      is the concatenation of the parts the layout delimits. */
  lemma DateTailLayoutText(s: string, i: nat, afterName: nat, dayStart: nat, comma: nat, yearStart: nat, j: nat)
    requires i <= afterName <= dayStart <= comma < yearStart <= j <= |s| && s[comma] == ','
    ensures s[i..j] == MonthDayYearText(s[i..afterName], s[afterName..dayStart], s[dayStart..comma],
                                        s[comma + 1..yearStart], s[yearStart..j])
  {
    SplitAt(s, comma + 1, yearStart, j);
    assert s[comma..comma + 1] == ",";
    SplitAt(s, comma, comma + 1, j);
    SplitAt(s, dayStart, comma, j);
    SplitAt(s, afterName, dayStart, j);
    SplitAt(s, i, afterName, j);
  }

  lemma DateTailLayoutMatches(s: string, i: nat, m: nat, dayStart: nat, comma: nat, yearStart: nat, j: nat)
    requires m < |MonthNames| && NameAt(s, i, m) && WordBoundary(s, i)
    requires DateTailLayout(s, i + |MonthNames[m]|, dayStart, comma, yearStart, j)
    ensures Matches(MonthDayYear, s, i, j)
  {
    var afterName := i + |MonthNames[m]|;
    var name, gap, day, pad, year :=
      s[i..afterName], s[afterName..dayStart], s[dayStart..comma], s[comma + 1..yearStart], s[yearStart..j];
    assert IsMonthName(name);
    DateTailLayoutText(s, i, afterName, dayStart, comma, yearStart, j);
    MonthDayYearShapeIntro(s[i..j], name, gap, day, pad, year);
  }

  lemma MonthDayYearAtSound(s: string, i: nat)
    requires i <= |s| && MonthDayYearAt(s, i).Some?
    ensures Matches(MonthDayYear, s, i, MonthDayYearAt(s, i).value)
  {
    var k := MonthNameEnd(s, i).value;
    var m := MonthNameEndName(s, i);
    var dayStart, comma, yearStart := DateTailAtLayout(s, k);
    DateTailLayoutMatches(s, i, m, dayStart, comma, yearStart, MonthDayYearAt(s, i).value);
  }

  /** The month whose name the alternation found at `i`. */
  lemma MonthNameEndName(s: string, i: nat) returns (m: nat)
    requires i <= |s| && MonthNameEnd(s, i).Some?
    ensures m < |MonthNames| && NameAt(s, i, m) && MonthNameEnd(s, i) == Some(i + |MonthNames[m]|)
  {
    m := MonthNameFrom(s, i, 0).value;
  }

  /** The parts after the month name, found in `s` from `k`, lie where the tail layout says. */
  lemma DateTailPartsLayout(s: string, k: nat, j: nat, gap: string, day: string, pad: string, year: string)
    requires k <= j <= |s| && WordBoundary(s, j)
    requires |gap| >= 1 && AllSpace(gap) && 1 <= |day| <= 2 && AllDigits(day) && AllSpace(pad)
    requires |year| == 4 && AllDigits(year)
    requires s[k..j] == gap + (day + ("," + (pad + year)))
    ensures DateTailLayout(s, k, k + |gap|, k + |gap| + |day|, k + |gap| + |day| + 1 + |pad|, j)
    ensures s[k + |gap|..k + |gap| + |day|] == day && s[k + |gap| + |day| + 1 + |pad|..j] == year
  {
    var dayStart := k + |gap|;
    var comma := dayStart + |day|;
    Unconcat(s, k, j, gap, day + ("," + (pad + year)));
    Unconcat(s, dayStart, j, day, "," + (pad + year));
    Unconcat(s, comma, j, ",", pad + year);
    Unconcat(s, comma + 1, j, pad, year);
    assert s[comma] == s[comma..comma + 1][0];
  }

  /** The parts after the month name, found in `s` from `k`, are what the tail scanner matches. */
  lemma DateTailPartsScan(s: string, k: nat, j: nat, gap: string, day: string, pad: string, year: string)
    requires k <= j <= |s| && WordBoundary(s, j)
    requires |gap| >= 1 && AllSpace(gap) && 1 <= |day| <= 2 && AllDigits(day) && AllSpace(pad)
    requires |year| == 4 && AllDigits(year)
    requires s[k..j] == gap + (day + ("," + (pad + year)))
    ensures DateTailAt(s, k) == Some(j)
  {
    DateTailPartsLayout(s, k, j, gap, day, pad, year);
    DateTailLayoutScans(s, k, k + |gap|, k + |gap| + |day|, k + |gap| + |day| + 1 + |pad|, j);
  }

  /** A word of the language, found in `s` between two boundaries, is what the scanner matches. */
  lemma MonthDayYearPartsScan(s: string, i: nat, j: nat,
                              name: string, gap: string, day: string, pad: string, year: string)
    requires i <= j <= |s| && WordBoundary(s, i) && WordBoundary(s, j)
    requires MonthDayYearParts(name, gap, day, pad, year)
    requires s[i..j] == MonthDayYearText(name, gap, day, pad, year)
    ensures MonthDayYearAt(s, i) == Some(j)
  {
    var m :| 0 <= m < |MonthNames| && Lower(name) == MonthNames[m];
    Unconcat(s, i, j, name, gap + (day + ("," + (pad + year))));
    var k := i + |name|;
    assert NameAt(s, i, m);
    DateTailPartsScan(s, k, j, gap, day, pad, year);
    MonthNameEndAt(s, i, m);
    MonthDayYearAtOfTail(s, i, k, j);
  }

  lemma MonthDayYearAtOfTail(s: string, i: nat, k: nat, j: nat)
    requires i <= |s| && WordBoundary(s, i) && MonthNameEnd(s, i) == Some(k) && DateTailAt(s, k) == Some(j)
    ensures MonthDayYearAt(s, i) == Some(j)
  {
  }

  /** A month name found at `i` is where the alternation stops. */
  lemma MonthNameEndAt(s: string, i: nat, m: nat)
    requires i <= |s| && m < |MonthNames| && NameAt(s, i, m)
    ensures MonthNameEnd(s, i) == Some(i + |MonthNames[m]|)
  {
    var found := MonthNameFrom(s, i, 0);
    NameAtUnique(s, i, found.value, m);
  }

  lemma MonthDayYearAtComplete(s: string, i: nat, j: nat)
    requires Matches(MonthDayYear, s, i, j)
    ensures MonthDayYearAt(s, i) == Some(j)
  {
    var name, gap, day, pad, year :|
      MonthDayYearParts(name, gap, day, pad, year) && s[i..j] == MonthDayYearText(name, gap, day, pad, year);
    MonthDayYearPartsScan(s, i, j, name, gap, day, pad, year);
  }

  lemma NumericDateShapeIntro(f: string, month: string, day: string, year: string)
    requires NumericDateParts(month, day, year) && f == NumericDateText(month, day, year)
    ensures Shape(NumericDate, f)
  {
  }

  /** The positions of the parts of an `MM/DD/YYYY` match: the two slashes
      and the end `j`. */
  predicate NumericDateLayout(s: string, i: nat, slash1: nat, slash2: nat, j: nat) {
    && i < slash1 <= i + 2 && slash1 + 1 < slash2 <= slash1 + 3 && j == slash2 + 5 <= |s|
    && WordBoundary(s, i) && WordBoundary(s, j)
    && AllDigits(s[i..slash1]) && s[slash1] == '/'
    && AllDigits(s[slash1 + 1..slash2]) && s[slash2] == '/'
    && AllDigits(s[slash2 + 1..j])
  }

  lemma NumericDateLayoutText(s: string, i: nat, slash1: nat, slash2: nat, j: nat)
    requires NumericDateLayout(s, i, slash1, slash2, j)
    ensures s[i..j] == NumericDateText(s[i..slash1], s[slash1 + 1..slash2], s[slash2 + 1..j])
  {
    assert s[slash2..slash2 + 1] == "/";
    SplitAt(s, slash2, slash2 + 1, j);
    SplitAt(s, slash1 + 1, slash2, j);
    assert s[slash1..slash1 + 1] == "/";
    SplitAt(s, slash1, slash1 + 1, j);
    SplitAt(s, i, slash1, j);
  }

  lemma NumericDateLayoutMatches(s: string, i: nat, slash1: nat, slash2: nat, j: nat)
    requires NumericDateLayout(s, i, slash1, slash2, j)
    ensures Matches(NumericDate, s, i, j)
  {
    NumericDateLayoutText(s, i, slash1, slash2, j);
    NumericDateShapeIntro(s[i..j], s[i..slash1], s[slash1 + 1..slash2], s[slash2 + 1..j]);
  }

  lemma NumericDateLayoutScans(s: string, i: nat, slash1: nat, slash2: nat, j: nat)
    requires NumericDateLayout(s, i, slash1, slash2, j)
    ensures NumericDateAt(s, i) == Some(j)
  {
    ShortNumberThenIs(s, i, slash1, '/');
    ShortNumberThenIs(s, slash1 + 1, slash2, '/');
    assert YearEnd(s, slash2 + 1) == Some(j);
  }

  lemma NumericDateAtSound(s: string, i: nat)
    requires i <= |s| && NumericDateAt(s, i).Some?
    ensures Matches(NumericDate, s, i, NumericDateAt(s, i).value)
  {
    var slash1 := ShortNumberThen(s, i, '/').value;
    var slash2 := ShortNumberThen(s, slash1 + 1, '/').value;
    NumericDateLayoutMatches(s, i, slash1, slash2, NumericDateAt(s, i).value);
  }

  lemma NumericDateAtComplete(s: string, i: nat, j: nat)
    requires Matches(NumericDate, s, i, j)
    ensures NumericDateAt(s, i) == Some(j)
  {
    var month, day, year :| NumericDateParts(month, day, year) && s[i..j] == NumericDateText(month, day, year);
    var slash1 := i + |month|;
    var slash2 := slash1 + 1 + |day|;
    Unconcat(s, i, j, month, "/" + (day + ("/" + year)));
    Unconcat(s, slash1, j, "/", day + ("/" + year));
    Unconcat(s, slash1 + 1, j, day, "/" + year);
    Unconcat(s, slash2, j, "/", year);
    assert s[slash1] == s[slash1..slash1 + 1][0];
    assert s[slash2] == s[slash2..slash2 + 1][0];
    NumericDateLayoutScans(s, i, slash1, slash2, j);
  }

  /** The scanner finds a match exactly where the pattern's language, with
      its `\b` assertions, has one. */
  lemma MatchAtIff(p: DatePattern, s: string, i: nat, j: nat)
    requires i <= |s|
    ensures MatchAt(p, s, i) == Some(j) <==> Matches(p, s, i, j)
  {
    match p
    case MonthDayYear =>
      if MonthDayYearAt(s, i).Some? {
        MonthDayYearAtSound(s, i);
      }
      if Matches(p, s, i, j) {
        MonthDayYearAtComplete(s, i, j);
      }
    case NumericDate =>
      if NumericDateAt(s, i).Some? {
        NumericDateAtSound(s, i);
      }
      if Matches(p, s, i, j) {
        NumericDateAtComplete(s, i, j);
      }
  }

  /** A match is determined by where it starts. */
  lemma MatchEndUnique(p: DatePattern, s: string, i: nat, j1: nat, j2: nat)
    requires Matches(p, s, i, j1) && Matches(p, s, i, j2)
    ensures j1 == j2
  {
    MatchAtIff(p, s, i, j1);
    MatchAtIff(p, s, i, j2);
  }

  /** `Find` returns the leftmost match of the pattern's language, and
      nothing exactly when the language occurs nowhere in `s`. */
  lemma FindIsLeftmostMatch(p: DatePattern, s: string)
    ensures Find(p, s).None? <==> forall i, j :: !Matches(p, s, i, j)
    ensures Find(p, s).Some? ==>
      var sp := Find(p, s).value;
      && Matches(p, s, sp.start, sp.end)
      && forall i, j :: i < sp.start ==> !Matches(p, s, i, j)
  {
    var r := Find(p, s);
    forall i, j | Matches(p, s, i, j) && (r.None? || i < r.value.start)
      ensures false
    {
      MatchAtIff(p, s, i, j);
    }
    if r.Some? {
      MatchAtIff(p, s, r.value.start, r.value.end);
    }
  }

  /** A word of either language starts and ends with a word character. */
  lemma ShapeEnds(p: DatePattern, f: string)
    requires Shape(p, f)
    ensures |f| >= 1 && IsWordChar(f[0]) && IsWordChar(f[|f| - 1])
  {
    match p
    case MonthDayYear =>
      var name, gap, day, pad, year :|
        MonthDayYearParts(name, gap, day, pad, year) && f == MonthDayYearText(name, gap, day, pad, year);
      MonthNameStartsWithLetter(name);
      assert f[0] == name[0];
      assert f[|f| - 1] == year[3];
    case NumericDate =>
      var month, day, year :| NumericDateParts(month, day, year) && f == NumericDateText(month, day, year);
      assert f[0] == month[0];
      assert f[|f| - 1] == year[3];
  }

  /** Being a word of a language is being matched whole by its pattern. */
  lemma ShapeIsWholeMatch(p: DatePattern, f: string)
    ensures Shape(p, f) ==> Matches(p, f, 0, |f|) && MatchAt(p, f, 0) == Some(|f|)
  {
    if Shape(p, f) {
      ShapeEnds(p, f);
      assert f[0..|f|] == f;
      MatchAtIff(p, f, 0, |f|);
    }
  }

  /** What a scanner matched inside a longer string is a word of the language. */
  lemma FragmentShape(p: DatePattern, s: string, i: nat, j: nat)
    requires i <= |s| && MatchAt(p, s, i) == Some(j)
    ensures Shape(p, s[i..j])
  {
    MatchAtIff(p, s, i, j);
  }
}
