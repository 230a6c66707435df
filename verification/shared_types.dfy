/** The data shapes exchanged between the DOM capture layer, the
    special-control engine and the planning backend. Only the fields the
    engine and the hint formatter consult are kept. */
module SharedTypes {
  import opened Options

  /** A captured element. Text content, node type, bounding box, visibility
      and the numeric ids are carried by the capture layer but never
      consulted, so they are absent. */
  datatype WebElementInfo = WebElementInfo(
    id: string,
    attributes: map<string, string>,
    htmlTagName: Option<string>)
  {
    /** `attributes[key]`, which is `undefined` for a missing key. */
    function Attribute(key: string): (r: Option<string>)
      ensures r.Some? <==> key in attributes
      ensures r.Some? ==> r.value == attributes[key]
    {
      if key in attributes then Some(attributes[key]) else None
    }
  }

  /** A node of the captured tree; `element` is null for wrapper nodes. */
  datatype DomNode = DomNode(element: Option<WebElementInfo>, children: seq<DomNode>)

  datatype ActionType = CLICK | TYPE | NAVIGATE | SCROLL | WAIT | TAP | INPUT
  {
    /** The enum's string value, which is what a template literal prints. */
    function Name(): string {
      match this
      case CLICK => "CLICK"
      case TYPE => "TYPE"
      case NAVIGATE => "NAVIGATE"
      case SCROLL => "SCROLL"
      case WAIT => "WAIT"
      case TAP => "TAP"
      case INPUT => "INPUT"
    }
  }

  /** `parameters` is a `Record<string, any>`; every value the engine stores
      in it is a string. */
  datatype RecommendedActionStep = RecommendedActionStep(
    action: ActionType,
    targetElementId: Option<string>,
    targetElementSelector: Option<string>,
    value: Option<string>,
    parameters: Option<map<string, string>>,
    description: string)

  datatype SpecialControlRecommendation = SpecialControlRecommendation(
    detectedElementId: string,
    originalInstructionFragment: Option<string>,
    confidence: Option<real>,
    recommendedSteps: seq<RecommendedActionStep>)
}
