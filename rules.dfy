/**
 * Crawl rules, eventable conditions, candidates, the configuration the
 * extractor reads, and the collaborators it calls.
 */
module Rules {
  import opened Wrappers
  import opened Dom

  /** An inclusion or exclusion rule: the tag it selects and the identifier of its eventable condition. */
  datatype CrawlElement = CrawlElement(tagName: Option<string>, id: Option<string>)

  datatype FormInput = FormInput(name: string, value: string)

  /** The condition attached to a rule: an optional scoping XPath and optional linked input fields. */
  datatype EventableCondition = EventableCondition(
    id: string,
    inXPath: Option<string>,
    linkedInputFields: Option<seq<FormInput>>)

  datatype How = XPath

  datatype Identification = Identification(how: How, value: string)

  /** A candidate action: source element, how to find it again, the frame it lives in ("" for the page). */
  datatype Candidate = Candidate(
    element: Element,
    identification: Identification,
    relatedFrame: string,
    formInputs: seq<FormInput>,
    condition: Option<EventableCondition>)

  /** An exception thrown by a collaborator. */
  datatype Fault = Fault(message: string)

  datatype IOException = IOException(message: string)

  datatype CrawljaxException = CrawljaxException(cause: IOException)

  /** What the extractor reads from the crawl configuration once, at construction. */
  datatype Config = Config(
    included: seq<CrawlElement>,
    excluded: seq<CrawlElement>,
    crawlFrames: bool,
    clickOnce: bool,
    ignoredFrameIdentifiers: set<string>)

  /**
   * The collaborators the extractor calls and does not define:
   * - conditionFor: EventableConditionChecker.getEventableCondition(rule id)
   * - resolveXPaths: XPathHelper.getXpathForXPathExpressions(dom, inXPath)
   * - underXPaths: EventableConditionChecker.checkXPathUnderXPaths(xpath, expressions)
   * - startsWithCondition: EventableConditionChecker.checkXpathStartsWithXpathEventableCondition
   * - allElementAttributes: DomUtils.getAllElementAttributes
   * - formCandidates: FormHandler.getCandidateElementsForInputs
   * - uniqueString: CandidateElement.getUniqueString, over the element, frame and form inputs
   */
  datatype Env = Env(
    conditionFor: Option<string> -> Option<EventableCondition>,
    resolveXPaths: (Document, string) -> Result<seq<string>, Fault>,
    underXPaths: (string, seq<string>) -> Result<bool, Fault>,
    startsWithCondition: (Document, Option<EventableCondition>, string) -> Result<bool, Fault>,
    allElementAttributes: Element -> string,
    formCandidates: (Element, EventableCondition) -> Result<seq<Candidate>, Fault>,
    uniqueString: (Element, string, seq<FormInput>) -> string)

  /** The checked-elements registry: fingerprints marked checked and the count of elements added. */
  datatype RegState = RegState(checked: set<string>, counter: nat)

  /** Candidates found by a piece of extraction, and the registry afterwards. */
  datatype Out = Out(found: seq<Candidate>, reg: RegState)

  function RuleCondition(env: Env, rule: CrawlElement): Option<EventableCondition>
  {
    env.conditionFor(rule.id)
  }

  /** The string an element is looked up under in the registry: node name, ": ", its attributes. */
  function Fingerprint(env: Env, e: Element): string
  {
    e.tag + ": " + env.allElementAttributes(e)
  }

  /** The string a candidate is marked checked under; it does not depend on the attached condition. */
  function Key(env: Env, c: Candidate): string
  {
    env.uniqueString(c.element, c.relatedFrame, c.formInputs)
  }
}
