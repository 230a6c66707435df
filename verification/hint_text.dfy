/** `formatRecommendationsToText`: the backend turns the engine's
    recommendations into a block of hint text for the planner. The text is
    described here as a list of lines, each with its own meaning, and the
    formatter, which appends piece by piece, is shown to print exactly
    those lines. */
module HintText {
  import opened Options
  import opened Text
  import opened SharedTypes

  /** JavaScript truthiness of an optional string: present and non-empty. */
  predicate Present(s: Option<string>) {
    s.Some? && s.value != ""
  }

  /** `Math.round(confidence * 100)`, rounding halves up, on exact reals. */
  function Percent(confidence: real): (p: int)
    ensures p as real <= confidence * 100.0 + 0.5 < p as real + 1.0
  {
    (confidence * 100.0 + 0.5).Floor
  }

  /** The optional parts of a step line, in the order they are printed. */
  datatype Detail =
    | Value(value: string)
    | SubElement(id: string)
    | Selector(selector: string)

  /** The parts a step shows: its value if it has one, its target if that
      differs from the recommendation's own element, and its selector. */
  function StepDetails(step: RecommendedActionStep, detectedId: string): (ds: seq<Detail>)
    ensures Value(step.value.GetOr("")) in ds <==> Present(step.value)
    ensures SubElement(step.targetElementId.GetOr("")) in ds <==>
      Present(step.targetElementId) && step.targetElementId.value != detectedId
    ensures Selector(step.targetElementSelector.GetOr("")) in ds <==> Present(step.targetElementSelector)
    ensures forall k :: 0 <= k < |ds| ==>
      (ds[k].Value? ==> k == 0) && (ds[k].Selector? ==> k == |ds| - 1)
    ensures forall d :: d in ds ==>
      || (d == Value(step.value.GetOr("")) && Present(step.value))
      || (d == SubElement(step.targetElementId.GetOr(""))
          && Present(step.targetElementId) && step.targetElementId.value != detectedId)
      || (d == Selector(step.targetElementSelector.GetOr("")) && Present(step.targetElementSelector))
    ensures |ds| == (if Present(step.value) then 1 else 0)
      + (if Present(step.targetElementId) && step.targetElementId.value != detectedId then 1 else 0)
      + (if Present(step.targetElementSelector) then 1 else 0)
  {
    (if Present(step.value) then [Value(step.value.value)] else [])
    + (if Present(step.targetElementId) && step.targetElementId.value != detectedId
       then [SubElement(step.targetElementId.value)] else [])
    + (if Present(step.targetElementSelector) then [Selector(step.targetElementSelector.value)] else [])
  }

  function DetailText(d: Detail): string {
    match d
    case Value(v) => ", Value: \"" + v + "\""
    case SubElement(id) => ", Target Sub-Element ID: " + id
    case Selector(sel) => ", Target Selector: \"" + sel + "\""
  }

  function DetailsText(ds: seq<Detail>): string {
    if ds == [] then "" else DetailsText(ds[..|ds| - 1]) + DetailText(ds[|ds| - 1])
  }

  /** The fixed phrases of the hint text. */
  const TitleText := "Special Control Hints:\n"
  const ElementOpen := ". For element (ID: '"
  const ElementClose := "'):\n"
  const FragmentOpen := "   User seems to want to interact with this regarding: \""
  const FragmentClose := "\".\n"
  const StepsTitleText := "   Suggested interaction steps:\n"
  const ConfidenceOpen := "   Confidence in this hint: "
  const ConfidenceClose := "%.\n"

  /** One line of the hint text. Numbers are as printed, counting from 1. */
  datatype Line =
    | Title
    | ElementHeader(number: nat, id: string)
    | FragmentLine(fragment: string)
    | StepsTitle
    | StepLine(number: nat, step: RecommendedActionStep, detectedId: string)
    | ConfidenceLine(percent: int)

  function LineText(l: Line): string {
    match l
    case Title => TitleText
    case ElementHeader(n, id) => NatToString(n) + ElementOpen + id + ElementClose
    case FragmentLine(f) => FragmentOpen + f + FragmentClose
    case StepsTitle => StepsTitleText
    case StepLine(n, step, detectedId) =>
      "   " + NatToString(n) + ") " + step.description + " (Action: " + step.action.Name()
      + DetailsText(StepDetails(step, detectedId)) + ").\n"
    case ConfidenceLine(p) => ConfidenceOpen + IntToString(p) + ConfidenceClose
  }

  /** The lines' texts one after the other. */
  function Render(lines: seq<Line>): string {
    if lines == [] then "" else Render(lines[..|lines| - 1]) + LineText(lines[|lines| - 1])
  }

  /** The numbered lines of a recommendation's steps, the first `n` of them. */
  function StepLines(steps: seq<RecommendedActionStep>, n: nat, detectedId: string): (r: seq<Line>)
    requires n <= |steps|
    ensures |r| == n
    ensures forall k :: 0 <= k < n ==> r[k] == StepLine(k + 1, steps[k], detectedId)
  {
    if n == 0 then [] else StepLines(steps, n - 1, detectedId) + [StepLine(n, steps[n - 1], detectedId)]
  }

  /** The lines of the recommendation at position `index`. */
  function RecommendationLines(rec: SpecialControlRecommendation, index: nat): seq<Line> {
    var steps := rec.recommendedSteps;
    [ElementHeader(index + 1, rec.detectedElementId)]
    + (if Present(rec.originalInstructionFragment) then [FragmentLine(rec.originalInstructionFragment.value)] else [])
    + (if |steps| > 0 then [StepsTitle] + StepLines(steps, |steps|, rec.detectedElementId) else [])
    + (if rec.confidence.Some? && rec.confidence.value != 0.0 then [ConfidenceLine(Percent(rec.confidence.value))] else [])
  }

  /** A recommendation's lines: its header first; a fragment line exactly
      when it has a fragment; the steps title exactly when it has steps,
      followed by the numbered step lines; and a confidence line, last,
      exactly when its confidence is set and not zero. */
  lemma RecommendationLinesShape(rec: SpecialControlRecommendation, index: nat)
    ensures var r := RecommendationLines(rec, index);
      && |r| >= 1 && r[0] == ElementHeader(index + 1, rec.detectedElementId)
      && (FragmentLine(rec.originalInstructionFragment.GetOr("")) in r <==> Present(rec.originalInstructionFragment))
      && (StepsTitle in r <==> |rec.recommendedSteps| > 0)
      && (r[|r| - 1].ConfidenceLine? <==> rec.confidence.Some? && rec.confidence.value != 0.0)
      && (r[|r| - 1].ConfidenceLine? ==> r[|r| - 1].percent == Percent(rec.confidence.value))
      && (forall k :: 0 <= k < |r| - 1 ==> !r[k].ConfidenceLine?)
  {
  }

  /** Where each part of a recommendation's lines sits. The length is the
      number of parts, so nothing else is printed. The iff and "confidence
      nowhere else" clauses of `RecommendationLinesShape` follow from this
      layout; they are kept there, in membership form, for callers. */
  lemma RecommendationLinesLayout(rec: SpecialControlRecommendation, index: nat)
    ensures var r := RecommendationLines(rec, index);
      var steps := rec.recommendedSteps;
      var f := if Present(rec.originalInstructionFragment) then 1 else 0;
      var t := if |steps| > 0 then 1 + |steps| else 0;
      var c := if rec.confidence.Some? && rec.confidence.value != 0.0 then 1 else 0;
      && |r| == 1 + f + t + c
      && r[0] == ElementHeader(index + 1, rec.detectedElementId)
      && (f == 1 ==> r[1] == FragmentLine(rec.originalInstructionFragment.value))
      && (t > 0 ==> r[1 + f] == StepsTitle && r[2 + f..1 + f + t] == StepLines(steps, |steps|, rec.detectedElementId))
      && (c == 1 ==> r[|r| - 1] == ConfidenceLine(Percent(rec.confidence.value)))
  {
    var steps := rec.recommendedSteps;
    var h := [ElementHeader(index + 1, rec.detectedElementId)];
    var f := if Present(rec.originalInstructionFragment) then [FragmentLine(rec.originalInstructionFragment.value)] else [];
    var t := if |steps| > 0 then [StepsTitle] + StepLines(steps, |steps|, rec.detectedElementId) else [];
    var c := if rec.confidence.Some? && rec.confidence.value != 0.0 then [ConfidenceLine(Percent(rec.confidence.value))] else [];
    var r := RecommendationLines(rec, index);
    assert r == h + f + t + c;
    if |steps| > 0 {
      assert r[1 + |f|..1 + |f| + |t|] == t;
      assert t[1..] == StepLines(steps, |steps|, rec.detectedElementId);
    }
  }

  /** The lines of the first `n` recommendations. */
  function RecommendationsLines(recs: seq<SpecialControlRecommendation>, n: nat): seq<Line>
    requires n <= |recs|
  {
    if n == 0 then [] else RecommendationsLines(recs, n - 1) + RecommendationLines(recs[n - 1], n - 1)
  }

  /** The whole hint text as lines: nothing for a missing or empty list,
      otherwise the title and then each recommendation's lines. */
  function HintLines(recommendations: Option<seq<SpecialControlRecommendation>>): seq<Line> {
    match recommendations
    case None => []
    case Some(recs) => if |recs| == 0 then [] else [Title] + RecommendationsLines(recs, |recs|)
  }

  lemma {:induction false} RenderAppend(a: seq<Line>, b: seq<Line>)
    ensures Render(a + b) == Render(a) + Render(b)
    decreases |b|
  {
    if b == [] {
      assert a + b == a;
    } else {
      assert (a + b)[..|a + b| - 1] == a + b[..|b| - 1];
      RenderAppend(a, b[..|b| - 1]);
      Associative(Render(a), Render(b[..|b| - 1]), LineText(b[|b| - 1]));
    }
  }

  lemma RenderSnoc(lines: seq<Line>, l: Line)
    ensures Render(lines + [l]) == Render(lines) + LineText(l)
  {
    RenderAppend(lines, [l]);
    RenderSingle(l);
  }

  lemma RenderSingle(l: Line)
    ensures Render([l]) == LineText(l)
  {
    assert [l][..0] == [];
  }

  /** The details of a step, printed one after the other. */
  lemma StepDetailsText(step: RecommendedActionStep, detectedId: string)
    ensures DetailsText(StepDetails(step, detectedId))
      == (if Present(step.value) then ", Value: \"" + step.value.value + "\"" else "")
       + (if Present(step.targetElementId) && step.targetElementId.value != detectedId
          then ", Target Sub-Element ID: " + step.targetElementId.value else "")
       + (if Present(step.targetElementSelector)
          then ", Target Selector: \"" + step.targetElementSelector.value + "\"" else "")
  {
    var v := if Present(step.value) then [Value(step.value.value)] else [];
    var t := if Present(step.targetElementId) && step.targetElementId.value != detectedId
      then [SubElement(step.targetElementId.value)] else [];
    var c := if Present(step.targetElementSelector) then [Selector(step.targetElementSelector.value)] else [];
    DetailsTextAppend(v, t);
    DetailsTextAppend(v + t, c);
    DetailsTextSingle(v);
    DetailsTextSingle(t);
    DetailsTextSingle(c);
  }

  lemma StepLineOfDetails(n: nat, step: RecommendedActionStep, detectedId: string, details: string)
    requires details
      == (if Present(step.value) then ", Value: \"" + step.value.value + "\"" else "")
       + (if Present(step.targetElementId) && step.targetElementId.value != detectedId
          then ", Target Sub-Element ID: " + step.targetElementId.value else "")
       + (if Present(step.targetElementSelector)
          then ", Target Selector: \"" + step.targetElementSelector.value + "\"" else "")
    ensures LineText(StepLine(n, step, detectedId))
      == "   " + NatToString(n) + ") " + step.description + " (Action: " + step.action.Name() + details + ").\n"
  {
    StepDetailsText(step, detectedId);
  }

  lemma DetailsTextSingle(ds: seq<Detail>)
    requires |ds| <= 1
    ensures DetailsText(ds) == if ds == [] then "" else DetailText(ds[0])
  {
    if ds != [] {
      assert ds[..0] == [];
    }
  }

  lemma {:induction false} DetailsTextAppend(a: seq<Detail>, b: seq<Detail>)
    ensures DetailsText(a + b) == DetailsText(a) + DetailsText(b)
    decreases |b|
  {
    if b == [] {
      assert a + b == a;
    } else {
      assert (a + b)[..|a + b| - 1] == a + b[..|b| - 1];
      DetailsTextAppend(a, b[..|b| - 1]);
      Associative(DetailsText(a), DetailsText(b[..|b| - 1]), DetailText(b[|b| - 1]));
    }
  }

  /** One step's line: the number, description and action, then the
      details the step has, then the closing parenthesis. */
  method StepLineText(step: RecommendedActionStep, stepIndex: nat, detectedId: string)
    returns (line: string)
    ensures line == LineText(StepLine(stepIndex + 1, step, detectedId))
  {
    var value := if Present(step.value) then ", Value: \"" + step.value.value + "\"" else "";
    var target := if Present(step.targetElementId) && step.targetElementId.value != detectedId
      then ", Target Sub-Element ID: " + step.targetElementId.value else "";
    var selector := if Present(step.targetElementSelector)
      then ", Target Selector: \"" + step.targetElementSelector.value + "\"" else "";
    var details := value + target + selector;
    StepLineOfDetails(stepIndex + 1, step, detectedId, details);
    line := "   " + NatToString(stepIndex + 1) + ") " + step.description + " (Action: " + step.action.Name()
      + details + ").\n";
  }

  /** The step lines of a recommendation, appended one by one after `prefix`. */
  method AppendStepLines(prefix: string, steps: seq<RecommendedActionStep>, detectedId: string)
    returns (text: string)
    ensures text == prefix + Render(StepLines(steps, |steps|, detectedId))
  {
    text := prefix;
    assert Render(StepLines(steps, 0, detectedId)) == "";
    for stepIndex := 0 to |steps|
      invariant text == prefix + Render(StepLines(steps, stepIndex, detectedId))
    {
      var stepText := StepLineText(steps[stepIndex], stepIndex, detectedId);
      AppendLine(prefix, text, StepLines(steps, stepIndex, detectedId),
                 StepLine(stepIndex + 1, steps[stepIndex], detectedId), stepText);
      text := text + stepText;
    }
  }

  lemma AppendLine(prefix: string, text: string, lines: seq<Line>, l: Line, lineText: string)
    requires text == prefix + Render(lines)
    requires lineText == LineText(l)
    ensures text + lineText == prefix + Render(lines + [l])
  {
    RenderSnoc(lines, l);
    Associative(prefix, Render(lines), lineText);
  }

  lemma Associative<T>(a: seq<T>, b: seq<T>, c: seq<T>)
    ensures (a + b) + c == a + (b + c)
  {
  }

  /** The text of a recommendation's lines, part by part. */
  lemma RecommendationText(rec: SpecialControlRecommendation, index: nat)
    ensures Render(RecommendationLines(rec, index))
      == LineText(ElementHeader(index + 1, rec.detectedElementId))
       + (if Present(rec.originalInstructionFragment)
          then LineText(FragmentLine(rec.originalInstructionFragment.value)) else "")
       + (if |rec.recommendedSteps| > 0
          then LineText(StepsTitle) + Render(StepLines(rec.recommendedSteps, |rec.recommendedSteps|, rec.detectedElementId))
          else "")
       + (if rec.confidence.Some? && rec.confidence.value != 0.0
          then LineText(ConfidenceLine(Percent(rec.confidence.value))) else "")
  {
    var steps := rec.recommendedSteps;
    var h := [ElementHeader(index + 1, rec.detectedElementId)];
    var f := if Present(rec.originalInstructionFragment) then [FragmentLine(rec.originalInstructionFragment.value)] else [];
    var t := if |steps| > 0 then [StepsTitle] + StepLines(steps, |steps|, rec.detectedElementId) else [];
    var c := if rec.confidence.Some? && rec.confidence.value != 0.0 then [ConfidenceLine(Percent(rec.confidence.value))] else [];
    assert RecommendationLines(rec, index) == h + f + t + c;
    RenderAppend(h + f + t, c);
    RenderAppend(h + f, t);
    RenderAppend(h, f);
    RenderSingle(h[0]);
    assert Render([]) == "";
    if f != [] {
      RenderSingle(f[0]);
    }
    if c != [] {
      RenderSingle(c[0]);
    }
    if t != [] {
      RenderAppend([StepsTitle], StepLines(steps, |steps|, rec.detectedElementId));
      RenderSingle(StepsTitle);
    }
  }

  lemma RecommendationTextOfParts(rec: SpecialControlRecommendation, index: nat,
                                  header: string, fragment: string, steps: string, confidence: string)
    requires header == NatToString(index + 1) + ElementOpen + rec.detectedElementId + ElementClose
    requires fragment == if Present(rec.originalInstructionFragment)
      then FragmentOpen + rec.originalInstructionFragment.value + FragmentClose else ""
    requires steps == if |rec.recommendedSteps| > 0
      then StepsTitleText + Render(StepLines(rec.recommendedSteps, |rec.recommendedSteps|, rec.detectedElementId))
      else ""
    requires confidence == if rec.confidence.Some? && rec.confidence.value != 0.0
      then ConfidenceOpen + IntToString(Percent(rec.confidence.value)) + ConfidenceClose else ""
    ensures Render(RecommendationLines(rec, index)) == header + fragment + steps + confidence
  {
    assert LineText(ElementHeader(index + 1, rec.detectedElementId)) == header;
    if Present(rec.originalInstructionFragment) {
      assert LineText(FragmentLine(rec.originalInstructionFragment.value)) == fragment;
    }
    if rec.confidence.Some? && rec.confidence.value != 0.0 {
      assert LineText(ConfidenceLine(Percent(rec.confidence.value))) == confidence;
    }
    assert LineText(StepsTitle) == StepsTitleText;
    RecommendationText(rec, index);
  }

  /** One recommendation's lines, appended as the formatter does. */
  method AppendRecommendation(hintsText: string, rec: SpecialControlRecommendation, index: nat)
    returns (text: string)
    ensures text == hintsText + Render(RecommendationLines(rec, index))
  {
    var header := NatToString(index + 1) + ElementOpen + rec.detectedElementId + ElementClose;
    var fragment := if Present(rec.originalInstructionFragment)
      then FragmentOpen + rec.originalInstructionFragment.value + FragmentClose
      else "";
    var steps := "";
    if |rec.recommendedSteps| > 0 {
      steps := AppendStepLines(StepsTitleText, rec.recommendedSteps, rec.detectedElementId);
    }
    var confidence := if rec.confidence.Some? && rec.confidence.value != 0.0
      then ConfidenceOpen + IntToString(Percent(rec.confidence.value)) + ConfidenceClose
      else "";
    RecommendationTextOfParts(rec, index, header, fragment, steps, confidence);
    text := hintsText + (header + fragment + steps + confidence);
  }

  /** The formatter: nothing for a missing or empty list, otherwise the title
      and each recommendation in turn. It prints exactly the hint lines. */
  method FormatRecommendationsToText(recommendations: Option<seq<SpecialControlRecommendation>>)
    returns (hintsText: string)
    ensures hintsText == Render(HintLines(recommendations))
  {
    if recommendations.None? || |recommendations.value| == 0 {
      NoHints(recommendations);
      return "";
    }
    hintsText := AppendRecommendations(recommendations.value);
  }

  /** The title and then each recommendation in turn. */
  method AppendRecommendations(recs: seq<SpecialControlRecommendation>) returns (hintsText: string)
    ensures hintsText == Render([Title] + RecommendationsLines(recs, |recs|))
  {
    hintsText := TitleText;
    HintsStart(recs);
    for index := 0 to |recs|
      invariant hintsText == Render([Title] + RecommendationsLines(recs, index))
    {
      hintsText := AppendNext(hintsText, recs, index);
    }
  }

  /** Appending the recommendation at `index` extends the text by its lines. */
  method AppendNext(hintsText: string, recs: seq<SpecialControlRecommendation>, index: nat)
    returns (text: string)
    requires index < |recs|
    requires hintsText == Render([Title] + RecommendationsLines(recs, index))
    ensures text == Render([Title] + RecommendationsLines(recs, index + 1))
  {
    text := AppendRecommendation(hintsText, recs[index], index);
    AppendRecommendationLines(hintsText, text, recs, index);
  }

  lemma NoHints(recommendations: Option<seq<SpecialControlRecommendation>>)
    requires recommendations.None? || |recommendations.value| == 0
    ensures Render(HintLines(recommendations)) == ""
  {
    assert HintLines(recommendations) == [];
  }

  lemma HintsStart(recs: seq<SpecialControlRecommendation>)
    ensures Render([Title] + RecommendationsLines(recs, 0)) == TitleText
  {
    RenderSingle(Title);
    assert [Title] + RecommendationsLines(recs, 0) == [Title];
  }

  lemma AppendRecommendationLines(hintsText: string, text: string,
                                  recs: seq<SpecialControlRecommendation>, index: nat)
    requires index < |recs|
    requires hintsText == Render([Title] + RecommendationsLines(recs, index))
    requires text == hintsText + Render(RecommendationLines(recs[index], index))
    ensures text == Render([Title] + RecommendationsLines(recs, index + 1))
  {
    var done := RecommendationsLines(recs, index);
    var more := RecommendationLines(recs[index], index);
    assert RecommendationsLines(recs, index + 1) == done + more;
    Associative([Title], done, more);
    RenderAppend([Title] + done, more);
  }

  // ---------------------------------------------------------------------
  // The hint text as a whole.

  /** The element headers among `lines`, in order. */
  function Headers(lines: seq<Line>): seq<Line> {
    if lines == [] then []
    else Headers(lines[..|lines| - 1]) + (if lines[|lines| - 1].ElementHeader? then [lines[|lines| - 1]] else [])
  }

  lemma {:induction false} HeadersAppend(a: seq<Line>, b: seq<Line>)
    ensures Headers(a + b) == Headers(a) + Headers(b)
    decreases |b|
  {
    if b == [] {
      assert a + b == a;
    } else {
      var last := b[|b| - 1];
      assert (a + b)[..|a + b| - 1] == a + b[..|b| - 1];
      HeadersAppend(a, b[..|b| - 1]);
      Associative(Headers(a), Headers(b[..|b| - 1]), if last.ElementHeader? then [last] else []);
    }
  }

  lemma {:induction false} StepLinesHaveNoHeader(steps: seq<RecommendedActionStep>, n: nat, detectedId: string)
    requires n <= |steps|
    ensures Headers(StepLines(steps, n, detectedId)) == []
    decreases n
  {
    if n > 0 {
      StepLinesHaveNoHeader(steps, n - 1, detectedId);
    }
  }

  /** A recommendation's lines hold one element header: its own. */
  lemma RecommendationHeader(rec: SpecialControlRecommendation, index: nat)
    ensures Headers(RecommendationLines(rec, index)) == [ElementHeader(index + 1, rec.detectedElementId)]
  {
    var steps := rec.recommendedSteps;
    var h := [ElementHeader(index + 1, rec.detectedElementId)];
    var f := if Present(rec.originalInstructionFragment) then [FragmentLine(rec.originalInstructionFragment.value)] else [];
    var t := if |steps| > 0 then [StepsTitle] + StepLines(steps, |steps|, rec.detectedElementId) else [];
    var c := if rec.confidence.Some? && rec.confidence.value != 0.0 then [ConfidenceLine(Percent(rec.confidence.value))] else [];
    assert RecommendationLines(rec, index) == h + f + t + c;
    HeadersAppend(h + f + t, c);
    HeadersAppend(h + f, t);
    HeadersAppend(h, f);
    assert h[..0] == [] && Headers(h) == h;
    if f != [] {
      assert f[..0] == [];
    }
    if c != [] {
      assert c[..0] == [];
    }
    if t != [] {
      StepLinesHaveNoHeader(steps, |steps|, rec.detectedElementId);
      HeadersAppend([StepsTitle], StepLines(steps, |steps|, rec.detectedElementId));
      assert [StepsTitle][..0] == [];
    }
  }

  /** The header of each recommendation in turn, numbered from 1. */
  function NumberedHeaders(recs: seq<SpecialControlRecommendation>, n: nat): (hs: seq<Line>)
    requires n <= |recs|
  {
    seq(n, k requires 0 <= k < n => ElementHeader(k + 1, recs[k].detectedElementId))
  }

  lemma NumberedHeadersSnoc(recs: seq<SpecialControlRecommendation>, n: nat)
    requires 0 < n <= |recs|
    ensures NumberedHeaders(recs, n) == NumberedHeaders(recs, n - 1) + [ElementHeader(n, recs[n - 1].detectedElementId)]
  {
  }

  /** The hint text has one header per recommendation, numbered from 1 in the
      order of the list, each naming that recommendation's element. */
  lemma {:induction false} HeadersInOrder(recs: seq<SpecialControlRecommendation>, n: nat)
    requires n <= |recs|
    ensures Headers(RecommendationsLines(recs, n)) == NumberedHeaders(recs, n)
    decreases n
  {
    if n > 0 {
      HeadersInOrder(recs, n - 1);
      RecommendationHeader(recs[n - 1], n - 1);
      HeadersSnoc(RecommendationsLines(recs, n - 1), RecommendationLines(recs[n - 1], n - 1), recs, n);
    }
  }

  lemma HeadersSnoc(done: seq<Line>, more: seq<Line>, recs: seq<SpecialControlRecommendation>, n: nat)
    requires 0 < n <= |recs|
    requires Headers(done) == NumberedHeaders(recs, n - 1)
    requires Headers(more) == [ElementHeader(n, recs[n - 1].detectedElementId)]
    ensures Headers(done + more) == NumberedHeaders(recs, n)
  {
    HeadersAppend(done, more);
    NumberedHeadersSnoc(recs, n);
  }

  /** The hint text is empty exactly when there is no recommendation, and
      otherwise starts with the title. */
  lemma HintTextStart(recommendations: Option<seq<SpecialControlRecommendation>>)
    ensures Render(HintLines(recommendations)) == "" <==> recommendations.None? || |recommendations.value| == 0
    ensures recommendations.Some? && |recommendations.value| > 0 ==> TitleText <= Render(HintLines(recommendations))
  {
    if recommendations.None? || |recommendations.value| == 0 {
      NoHints(recommendations);
    } else {
      var rest := RecommendationsLines(recommendations.value, |recommendations.value|);
      RenderAppend([Title], rest);
      RenderSingle(Title);
      assert |Render(HintLines(recommendations))| >= |TitleText|;
      assert Render(HintLines(recommendations))[..|TitleText|] == TitleText;
    }
  }
}
