/** What the planner is told about a date picker: the engine's
    recommendation passed through the backend's formatter. */
module DateHints {
  import opened Options
  import opened SharedTypes
  import opened DomTraversal
  import opened SpecialControls
  import opened HintText

  /** A confidence of 0.75 is printed as 75 percent. */
  lemma ConfidencePercent()
    ensures Percent(Confidence) == 75
  {
  }

  /** The click step names only its action: its target is the picker
      itself, so no sub-element is printed, and it has no value or selector. */
  lemma ClickStepDetails(id: string, date: DateMatch)
    ensures StepDetails(DateSteps(id, date)[0], id) == []
  {
  }

  /** The typing step shows the normalized date and nothing else. */
  lemma InputStepDetails(id: string, date: DateMatch)
    requires |date.normalized| > 0
    ensures StepDetails(DateSteps(id, date)[1], id) == [Value(date.normalized)]
  {
  }

  /** A date-picker recommendation prints as its header, the date as the
      user wrote it, the steps title, the two numbered steps and a confidence
      of 75 percent, in that order. */
  lemma DateRecommendationLines(e: WebElementInfo, date: DateMatch, index: nat)
    requires |date.fragment| > 0
    ensures RecommendationLines(Recommend(e, date), index)
      == [ ElementHeader(index + 1, e.id),
           FragmentLine(date.fragment),
           StepsTitle,
           StepLine(1, DateSteps(e.id, date)[0], e.id),
           StepLine(2, DateSteps(e.id, date)[1], e.id),
           ConfidenceLine(75) ]
  {
    var steps := DateSteps(e.id, date);
    assert StepLines(steps, 2, e.id) == [StepLine(1, steps[0], e.id), StepLine(2, steps[1], e.id)];
    ConfidencePercent();
  }

  /** Every recommendation the engine makes prints this way, for the date of
      the instruction and a date-picker element of the tree. */
  lemma IdentifiedRecommendationLines(domRoot: DomNode, userInstruction: string, k: nat)
    requires k < |IdentifySpecialControls(domRoot, userInstruction)|
    ensures ExtractDate(userInstruction).Some?
    ensures var date := ExtractDate(userInstruction).value;
      var rec := IdentifySpecialControls(domRoot, userInstruction)[k];
      RecommendationLines(rec, k)
        == [ ElementHeader(k + 1, rec.detectedElementId),
             FragmentLine(date.fragment),
             StepsTitle,
             StepLine(1, DateSteps(rec.detectedElementId, date)[0], rec.detectedElementId),
             StepLine(2, DateSteps(rec.detectedElementId, date)[1], rec.detectedElementId),
             ConfidenceLine(75) ]
  {
    var date := ExtractDate(userInstruction).value;
    var pickers := DatePickers(Preorder(domRoot));
    DateRecommendationLines(pickers[k], date, k);
  }
}
