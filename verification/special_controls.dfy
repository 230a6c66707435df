/** `identifySpecialControls`: walk the captured tree, and for every element
    that looks like a date picker, when the user's instruction mentions a
    date, recommend clicking the picker and typing the date into it. */
module SpecialControls {
  import opened Options
  import opened Text
  import opened SharedTypes
  import opened DomTraversal
  import opened DatePatterns
  import opened DateNormalize

  /** A date found in an instruction: the matched text and the text to type. */
  datatype DateMatch = DateMatch(fragment: string, normalized: string)

  const Confidence: real := 0.75
  const DateFormat: string := "MM/DD/YYYY"

  // ---------------------------------------------------------------------
  // Detection.

  /** `attributes[key]?.toLowerCase().includes(needle)`. */
  predicate AttributeMentions(e: WebElementInfo, key: string, needle: string) {
    e.Attribute(key).Some? && Includes(Lower(e.Attribute(key).value), needle)
  }

  /** The four detection heuristics, any of which marks a date picker. */
  function IsDatePicker(e: WebElementInfo): (r: bool)
    ensures r <==>
      || ("data-testid" in e.attributes && e.attributes["data-testid"] == "date-picker-input")
      || ("aria-label" in e.attributes && exists j :: OccursAt(Lower(e.attributes["aria-label"]), "date picker", j))
      || ("placeholder" in e.attributes && exists j :: OccursAt(Lower(e.attributes["placeholder"]), "date", j))
      || (e.htmlTagName.Some? && Lower(e.htmlTagName.value) == "input"
          && "type" in e.attributes && e.attributes["type"] == "date")
  {
    || e.Attribute("data-testid") == Some("date-picker-input")
    || AttributeMentions(e, "aria-label", "date picker")
    || AttributeMentions(e, "placeholder", "date")
    || (e.htmlTagName.Some? && Lower(e.htmlTagName.value) == "input" && e.Attribute("type") == Some("date"))
  }

  /** An attribute's value after `toLowerCase()`, if present. */
  function LowerAttribute(e: WebElementInfo, key: string): (r: Option<string>)
    ensures r.Some? <==> key in e.attributes
  {
    match e.Attribute(key)
    case Some(v) => Some(Lower(v))
    case None => None
  }

  /** Detection looks only at `data-testid`, `type`, the lower-cased
      `aria-label` and `placeholder`, and the lower-cased tag name: two
      elements that agree on these are both date pickers or both not. */
  lemma DatePickerIgnoresCase(a: WebElementInfo, b: WebElementInfo)
    requires a.Attribute("data-testid") == b.Attribute("data-testid")
    requires a.Attribute("type") == b.Attribute("type")
    requires LowerAttribute(a, "aria-label") == LowerAttribute(b, "aria-label")
    requires LowerAttribute(a, "placeholder") == LowerAttribute(b, "placeholder")
    requires a.htmlTagName.Some? <==> b.htmlTagName.Some?
    requires a.htmlTagName.Some? ==> Lower(a.htmlTagName.value) == Lower(b.htmlTagName.value)
    ensures IsDatePicker(a) == IsDatePicker(b)
  {
  }

  function Element(id: string, attributes: map<string, string>, tag: string): WebElementInfo {
    WebElementInfo(id, attributes, Some(tag))
  }

  /** The elements of the engine's documented cases. */
  lemma DetectionExamples()
    ensures IsDatePicker(Element("dp1", map["data-testid" := "date-picker-input"], "input"))
    ensures IsDatePicker(Element("dp2", map["placeholder" := "Select a date"], "input"))
    ensures IsDatePicker(Element("dp3", map["aria-label" := "Date Picker for booking"], "input"))
    ensures IsDatePicker(Element("dp4", map["type" := "date"], "INPUT"))
    ensures !IsDatePicker(Element("root", map[], "div"))
  {
    PlaceholderMentionsDate();
    AriaLabelMentionsDatePicker();
    UpperCaseInputTag();
  }

  lemma PlaceholderMentionsDate()
    ensures IsDatePicker(Element("dp2", map["placeholder" := "Select a date"], "input"))
  {
    assert OccursAt(Lower("Select a date"), "date", 9);
  }

  lemma AriaLabelMentionsDatePicker()
    ensures IsDatePicker(Element("dp3", map["aria-label" := "Date Picker for booking"], "input"))
  {
    assert OccursAt(Lower("Date Picker for booking"), "date picker", 0);
  }

  lemma UpperCaseInputTag()
    ensures IsDatePicker(Element("dp4", map["type" := "date"], "INPUT"))
  {
    assert Lower("INPUT") == "input";
  }

  // ---------------------------------------------------------------------
  // Extraction.

  /** The instruction text a span covers. */
  function Covered(s: string, sp: Span): string
    requires sp.start <= sp.end <= |s|
  {
    s[sp.start..sp.end]
  }

  /** The date of the instruction: the leftmost "Month Day, Year" match if
      there is one, otherwise the leftmost `MM/DD/YYYY` match, each passed
      through the normalizer. A "Month Day, Year" match that does not
      normalize does not fall back to the other pattern. */
  function ExtractDate(instruction: string): (r: Option<DateMatch>)
    ensures r.Some? ==> |r.value.fragment| > 0 && |r.value.normalized| > 0
    ensures r.Some? ==> Normalize(r.value.fragment) == Some(r.value.normalized)
  {
    match Find(MonthDayYear, instruction)
    case Some(sp) =>
      var fragment := Covered(instruction, sp);
      (match Normalize(fragment)
       case Some(normalized) => Some(DateMatch(fragment, normalized))
       case None => None)
    case None =>
      match Find(NumericDate, instruction)
      case Some(sp) =>
        var fragment := Covered(instruction, sp);
        (match Normalize(fragment)
         case Some(normalized) => Some(DateMatch(fragment, normalized))
         case None => None)
      case None => None
  }

  // ---------------------------------------------------------------------
  // Recommendation.

  /** The two steps recommended for a date picker: open it, then type the
      normalized date into it. */
  function DateSteps(id: string, date: DateMatch): (steps: seq<RecommendedActionStep>)
    ensures |steps| == 2
    ensures steps[0].action == CLICK && steps[1].action == INPUT
    ensures forall k :: 0 <= k < 2 ==> steps[k].targetElementId == Some(id) && steps[k].targetElementSelector == None
    ensures steps[0].value == None && steps[1].value == Some(date.normalized)
    ensures steps[0].parameters == Some(map["associatedText" := date.fragment])
    ensures steps[1].parameters == Some(map["associatedText" := date.fragment, "format" := DateFormat])
    ensures steps[0].description == "Click the identified date picker input (id: " + id + ") to open the calendar."
    ensures steps[1].description == "Directly input normalized date \"" + date.normalized + "\" into the date picker (id: " + id + ")."
  {
    [ RecommendedActionStep(
        CLICK, Some(id), None, None,
        Some(map["associatedText" := date.fragment]),
        "Click the identified date picker input (id: " + id + ") to open the calendar."),
      RecommendedActionStep(
        INPUT, Some(id), None, Some(date.normalized),
        Some(map["associatedText" := date.fragment, "format" := DateFormat]),
        "Directly input normalized date \"" + date.normalized + "\" into the date picker (id: " + id + ").") ]
  }

  function Recommend(e: WebElementInfo, date: DateMatch): (r: SpecialControlRecommendation)
    ensures r.detectedElementId == e.id
    ensures r.originalInstructionFragment == Some(date.fragment)
    ensures r.confidence == Some(Confidence)
    ensures r.recommendedSteps == DateSteps(e.id, date)
  {
    SpecialControlRecommendation(e.id, Some(date.fragment), Some(Confidence), DateSteps(e.id, date))
  }

  /** The visitor: what one node contributes to the result. */
  function VisitNode(instruction: string, node: DomNode): (r: seq<SpecialControlRecommendation>)
    ensures |r| <= 1
    ensures |r| == 1 <==> node.element.Some? && IsDatePicker(node.element.value) && ExtractDate(instruction).Some?
    ensures |r| == 1 ==> r[0] == Recommend(node.element.value, ExtractDate(instruction).value)
  {
    match node.element
    case None => []
    case Some(e) =>
      if !IsDatePicker(e) then []
      else match ExtractDate(instruction)
        case None => []
        case Some(date) => [Recommend(e, date)]
  }

  /** One recommendation per date-picker element, in the order the traversal
      meets them, all for the same date; none when the instruction holds no
      date. */
  function IdentifySpecialControls(domRoot: DomNode, userInstruction: string): (r: seq<SpecialControlRecommendation>)
    ensures ExtractDate(userInstruction).None? ==> r == []
    ensures ExtractDate(userInstruction).Some? ==>
      r == RecommendAll(DatePickers(Preorder(domRoot)), ExtractDate(userInstruction).value)
  {
    VisitAllNodes(userInstruction, Preorder(domRoot));
    TraverseDom(domRoot, node => VisitNode(userInstruction, node))
  }

  // ---------------------------------------------------------------------
  // The result, stated over the pre-order of the tree.

  /** The date-picker elements among `nodes`, in order. */
  function DatePickers(nodes: seq<DomNode>): (r: seq<WebElementInfo>)
    ensures |r| <= |nodes|
    ensures forall k :: 0 <= k < |r| ==> IsDatePicker(r[k])
  {
    if nodes == [] then []
    else
      var rest := DatePickers(nodes[1..]);
      match nodes[0].element
      case Some(e) => if IsDatePicker(e) then [e] + rest else rest
      case None => rest
  }

  function RecommendAll(pickers: seq<WebElementInfo>, date: DateMatch): (r: seq<SpecialControlRecommendation>)
    ensures |r| == |pickers|
    ensures forall k :: 0 <= k < |r| ==> r[k] == Recommend(pickers[k], date)
  {
    seq(|pickers|, k requires 0 <= k < |pickers| => Recommend(pickers[k], date))
  }

  lemma RecommendAllCons(e: WebElementInfo, rest: seq<WebElementInfo>, date: DateMatch)
    ensures RecommendAll([e] + rest, date) == [Recommend(e, date)] + RecommendAll(rest, date)
  {
  }

  lemma {:induction false} VisitAllNodes(instruction: string, nodes: seq<DomNode>)
    ensures ExtractDate(instruction).None? ==> VisitAll(node => VisitNode(instruction, node), nodes) == []
    ensures ExtractDate(instruction).Some? ==>
      VisitAll(node => VisitNode(instruction, node), nodes)
        == RecommendAll(DatePickers(nodes), ExtractDate(instruction).value)
    decreases |nodes|
  {
    if nodes != [] {
      var visit := node => VisitNode(instruction, node);
      VisitAllNodes(instruction, nodes[1..]);
      assert VisitAll(visit, nodes) == VisitNode(instruction, nodes[0]) + VisitAll(visit, nodes[1..]);
      if ExtractDate(instruction).Some? {
        var date := ExtractDate(instruction).value;
        var rest := DatePickers(nodes[1..]);
        if nodes[0].element.Some? && IsDatePicker(nodes[0].element.value) {
          var e := nodes[0].element.value;
          assert DatePickers(nodes) == [e] + rest;
          assert VisitNode(instruction, nodes[0]) == [Recommend(e, date)];
          RecommendAllCons(e, rest, date);
        } else {
          assert DatePickers(nodes) == rest;
        }
      }
    }
  }

  /** The date pickers kept are exactly the date-picker elements of the nodes. */
  lemma {:induction false} DatePickersMembers(nodes: seq<DomNode>, e: WebElementInfo)
    ensures e in DatePickers(nodes) <==>
      IsDatePicker(e) && exists k :: 0 <= k < |nodes| && nodes[k].element == Some(e)
    decreases |nodes|
  {
    if nodes != [] {
      DatePickersMembers(nodes[1..], e);
      if exists k :: 1 <= k < |nodes| && nodes[k].element == Some(e) {
        var k :| 1 <= k < |nodes| && nodes[k].element == Some(e);
        assert nodes[1..][k - 1] == nodes[k];
      }
      if exists k :: 0 <= k < |nodes[1..]| && nodes[1..][k].element == Some(e) {
        var k :| 0 <= k < |nodes[1..]| && nodes[1..][k].element == Some(e);
        assert nodes[k + 1] == nodes[1..][k];
      }
    }
  }

  // ---------------------------------------------------------------------
  // Which date is extracted, stated over the pattern languages.

  /** `i..j` is the leftmost match of pattern `p` in `s`. */
  ghost predicate LeftmostMatch(p: DatePattern, s: string, i: int, j: int) {
    Matches(p, s, i, j) && forall i', j' :: i' < i ==> !Matches(p, s, i', j')
  }

  ghost predicate Occurs(p: DatePattern, s: string) {
    exists i, j :: Matches(p, s, i, j)
  }

  /** `Find` returns the leftmost match. */
  lemma FindIsLeftmost(p: DatePattern, s: string, i: nat, j: nat)
    requires LeftmostMatch(p, s, i, j)
    ensures Find(p, s) == Some(Span(i, j))
  {
    FindIsLeftmostMatch(p, s);
    var sp := Find(p, s).value;
    MatchEndUnique(p, s, i, j, sp.end);
  }

  /** With a "Month Day, Year" date anywhere, the leftmost one is taken, and
      the result is whatever the normalizer makes of it. */
  lemma ExtractDatePrefersMonthDayYear(s: string, i: nat, j: nat)
    requires LeftmostMatch(MonthDayYear, s, i, j)
    ensures ExtractDate(s) == match Normalize(s[i..j])
      case Some(v) => Some(DateMatch(s[i..j], v))
      case None => None
  {
    FindIsLeftmost(MonthDayYear, s, i, j);
  }

  /** Otherwise the leftmost `MM/DD/YYYY` date is taken and typed as written. */
  lemma ExtractDateFallsBackToNumericDate(s: string, i: nat, j: nat)
    requires !Occurs(MonthDayYear, s) && LeftmostMatch(NumericDate, s, i, j)
    ensures ExtractDate(s) == Some(DateMatch(s[i..j], s[i..j]))
  {
    FindIsLeftmostMatch(MonthDayYear, s);
    FindIsLeftmost(NumericDate, s, i, j);
    ShapeIsWholeMatch(NumericDate, s[i..j]);
  }

  /** Without a date of either form there is nothing to extract. */
  lemma ExtractDateNeedsADate(s: string)
    requires !Occurs(MonthDayYear, s) && !Occurs(NumericDate, s)
    ensures ExtractDate(s) == None
  {
    FindIsLeftmostMatch(MonthDayYear, s);
    FindIsLeftmostMatch(NumericDate, s);
  }

  /** The extracted fragment is always a match of one of the patterns. */
  lemma ExtractedFragmentIsADate(s: string)
    requires ExtractDate(s).Some?
    ensures exists p, i, j :: Matches(p, s, i, j) && ExtractDate(s).value.fragment == s[i..j]
  {
    match Find(MonthDayYear, s)
    case Some(sp) =>
      FindIsLeftmostMatch(MonthDayYear, s);
      assert Matches(MonthDayYear, s, sp.start, sp.end);
    case None =>
      var sp := Find(NumericDate, s).value;
      FindIsLeftmostMatch(NumericDate, s);
      assert Matches(NumericDate, s, sp.start, sp.end);
  }

  /** A match of either pattern holds a digit. */
  lemma MatchHasDigit(p: DatePattern, s: string, i: nat, j: nat) returns (k: nat)
    requires Matches(p, s, i, j)
    ensures i <= k < j && IsDigit(s[k])
  {
    match p
    case MonthDayYear =>
      var name, gap, day, pad, year :|
        MonthDayYearParts(name, gap, day, pad, year) && s[i..j] == MonthDayYearText(name, gap, day, pad, year);
      Unconcat(s, i, j, name, gap + (day + ("," + (pad + year))));
      Unconcat(s, i + |name|, j, gap, day + ("," + (pad + year)));
      k := i + |name| + |gap|;
      assert s[k] == s[k..j][0];
    case NumericDate =>
      var month, day, year :| NumericDateParts(month, day, year) && s[i..j] == NumericDateText(month, day, year);
      k := i;
      assert s[k] == s[i..j][0];
  }

  /** An instruction without a digit yields no recommendation at all. */
  lemma NoDigitNoRecommendation(domRoot: DomNode, userInstruction: string)
    requires forall k :: 0 <= k < |userInstruction| ==> !IsDigit(userInstruction[k])
    ensures IdentifySpecialControls(domRoot, userInstruction) == []
  {
    forall p, i, j | Matches(p, userInstruction, i, j)
      ensures false
    {
      var k := MatchHasDigit(p, userInstruction, i, j);
    }
    ExtractDateNeedsADate(userInstruction);
  }

  /** A tree without a date-picker element yields no recommendation. */
  lemma NoDatePickerNoRecommendation(domRoot: DomNode, userInstruction: string)
    requires forall k :: 0 <= k < |Preorder(domRoot)| ==>
      match Preorder(domRoot)[k].element
      case None => true
      case Some(e) => !IsDatePicker(e)
    ensures IdentifySpecialControls(domRoot, userInstruction) == []
  {
    var pickers := DatePickers(Preorder(domRoot));
    if pickers != [] {
      DatePickersMembers(Preorder(domRoot), pickers[0]);
      assert pickers[0] in pickers;
    }
  }

  /** The recommendations, one per date-picker element of the tree, each
      recommending the element the traversal met. */
  lemma RecommendationsArePickers(domRoot: DomNode, userInstruction: string, k: nat)
    requires k < |IdentifySpecialControls(domRoot, userInstruction)|
    ensures exists n :: (0 <= n < |Preorder(domRoot)|
      && Preorder(domRoot)[n].element.Some?
      && IsDatePicker(Preorder(domRoot)[n].element.value)
      && Preorder(domRoot)[n].element.value.id == IdentifySpecialControls(domRoot, userInstruction)[k].detectedElementId)
  {
    var pickers := DatePickers(Preorder(domRoot));
    DatePickersMembers(Preorder(domRoot), pickers[k]);
    assert pickers[k] in pickers;
  }

  // ---------------------------------------------------------------------
  // Abbreviated month names are not dates.

  /** No month name, in any case, starts "Mar 1, 2024": "mar" is followed
      by a space where "march" has a "c", and "may" differs in its third letter. */
  lemma NoMonthNameInAbbreviation(f: string)
    requires f == "Mar 1, 2024"
    ensures MonthNameFrom(f, 0, 0) == None
  {
    forall m | 0 <= m < |MonthNames|
      ensures !NameAt(f, 0, m)
    {
      MonthCases(m);
      var n := |MonthNames[m]|;
      if n <= |f| {
        assert Lower(f[0..n])[2] == 'r';
        if n >= 4 {
          assert Lower(f[0..n])[3] == ' ';
        }
      }
    }
  }

  lemma AbbreviationNotMatched(f: string)
    requires f == "Mar 1, 2024"
    ensures MatchAt(MonthDayYear, f, 0) == None
  {
    NoMonthNameInAbbreviation(f);
  }

  lemma AbbreviationNoSlash(f: string)
    requires f == "Mar 1, 2024"
    ensures NoSlash(f)
  {
  }

  /** "Mar 1, 2024" is a word of neither pattern. */
  lemma AbbreviationIsNotADate(f: string)
    requires f == "Mar 1, 2024"
    ensures !Shape(MonthDayYear, f) && !Shape(NumericDate, f)
  {
    AbbreviationNotMatched(f);
    ShapeIsWholeMatch(MonthDayYear, f);
    AbbreviationNoSlash(f);
    NoSlashNoNumericDate(f);
    ShapeIsWholeMatch(NumericDate, f);
  }

  /** No recommendation ever carries "Mar 1, 2024" as its fragment: only
      full month names are recognised. */
  lemma AbbreviatedMonthNotRecognised(domRoot: DomNode, userInstruction: string)
    ensures forall r :: r in IdentifySpecialControls(domRoot, userInstruction) ==>
      r.originalInstructionFragment != Some("Mar 1, 2024")
  {
    ExtractedFragmentNotAbbreviation(userInstruction);
  }

  lemma ExtractedFragmentNotAbbreviation(userInstruction: string)
    ensures ExtractDate(userInstruction).Some? ==> ExtractDate(userInstruction).value.fragment != "Mar 1, 2024"
  {
    if ExtractDate(userInstruction).Some? {
      ExtractedFragmentIsADate(userInstruction);
      var p, i, j :| Matches(p, userInstruction, i, j) && ExtractDate(userInstruction).value.fragment == userInstruction[i..j];
      AbbreviationIsNotADate("Mar 1, 2024");
    }
  }

  /** A "Month Day, Year" date, when it is the leftmost one, is typed as the
      `MM/DD/YYYY` text of its month, day and year. */
  lemma ExtractMonthDayYear(s: string, i: nat, j: nat,
                            name: string, gap: string, day: string, pad: string, year: string, m: nat)
    requires LeftmostMatch(MonthDayYear, s, i, j)
    requires MonthDayYearParts(name, gap, day, pad, year) && s[i..j] == MonthDayYearText(name, gap, day, pad, year)
    requires m < |MonthNames| && Lower(name) == MonthNames[m]
    ensures var date := CalendarDate(m + 1, DigitsValue(day), DigitsValue(year));
      ExtractDate(s) == if IsModelledDate(date) then Some(DateMatch(s[i..j], Format(date))) else None
  {
    ExtractDatePrefersMonthDayYear(s, i, j);
    NormalizeMonthDayYear(name, gap, day, pad, year, m);
  }
}
