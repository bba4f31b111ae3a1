/**
 * Scoping of an inclusion rule by the in-XPath of its eventable condition
 * (CandidateElementExtractor.getFullXpathForGivenXpath, elementMatchesXpath).
 */
module Scope {
  import opened Wrappers
  import opened Dom
  import opened Rules

  predicate HasInXPath(cond: Option<EventableCondition>)
  {
    cond.Some? && cond.value.inXPath.Some?
  }

  /** The XPaths the condition's in-XPath denotes in the document; [] when there is none or resolving it throws. */
  function ScopeExpressions(env: Env, doc: Document, cond: Option<EventableCondition>): (r: seq<string>)
    ensures !HasInXPath(cond) ==> r == []
    ensures HasInXPath(cond) && env.resolveXPaths(doc, cond.value.inXPath.value).Failure? ==> r == []
    ensures HasInXPath(cond) && env.resolveXPaths(doc, cond.value.inXPath.value).Success? ==>
              r == env.resolveXPaths(doc, cond.value.inXPath.value).value
    ensures r != [] ==> HasInXPath(cond) && env.resolveXPaths(doc, cond.value.inXPath.value) == Success(r)
  {
    if HasInXPath(cond) then
      match env.resolveXPaths(doc, cond.value.inXPath.value)
      case Success(expressions) => expressions
      case Failure(_) => []
    else []
  }

  /** Whether the element lies under the scope; true without a scope, false when the check throws. */
  predicate ElementMatchesScope(env: Env, cond: Option<EventableCondition>, expressions: seq<string>, e: Element)
    ensures !HasInXPath(cond) ==> ElementMatchesScope(env, cond, expressions, e)
    ensures HasInXPath(cond) ==>
            (ElementMatchesScope(env, cond, expressions, e) <==> env.underXPaths(e.xpath, expressions) == Success(true))
  {
    if HasInXPath(cond) then
      match env.underXPaths(e.xpath, expressions)
      case Success(b) => b
      case Failure(_) => false
    else true
  }
}
