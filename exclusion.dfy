/**
 * Exclusion of elements by the exclude rules, inherited down the tree
 * (CandidateElementExtractor.isExcluded).
 */
module Exclusion {
  import opened Wrappers
  import opened Dom
  import opened Rules

  /** The parent element of element `k`, if its parent node is an element. */
  function ParentIndex(doc: Document, k: nat): (r: Option<nat>)
    requires k < |doc.elements|
    ensures r.Some? <==> doc.elements[k].parent.Some? && doc.elements[k].parent.value < k
    ensures r.Some? ==> r == doc.elements[k].parent && r.value < k
  {
    var parent := doc.elements[k].parent;
    if parent.Some? && parent.value < k then parent else None
  }

  /**
   * One exclude rule matches an element: the rule is filed under the element's
   * upper-cased tag, and the XPath check against the rule's condition returns
   * true (a check that throws does not match).
   */
  predicate ExcludeRuleMatches(env: Env, doc: Document, rule: CrawlElement, e: Element)
  {
    && rule.tagName == Some(UpperAscii(e.tag))
    && env.startsWithCondition(doc, RuleCondition(env, rule), e.xpath) == Success(true)
  }

  /** Some exclude rule matches element `k` itself. */
  predicate OwnRuleExcludes(excluded: seq<CrawlElement>, env: Env, doc: Document, k: nat)
  {
    k < |doc.elements| && exists rule :: rule in excluded && ExcludeRuleMatches(env, doc, rule, doc.elements[k])
  }

  /** Element `k` is excluded when its parent element is, or else when one of its own rules matches. */
  predicate IsExcluded(excluded: seq<CrawlElement>, env: Env, doc: Document, k: nat)
    requires k < |doc.elements|
    decreases k
  {
    (match ParentIndex(doc, k)
     case Some(p) => IsExcluded(excluded, env, doc, p)
     case None => false)
    || OwnRuleExcludes(excluded, env, doc, k)
  }

  /** `a` is a proper ancestor of `k`: it is reached from `k` by following parent links. */
  predicate IsAncestor(doc: Document, a: nat, k: nat)
    requires k < |doc.elements|
    decreases k
  {
    match ParentIndex(doc, k)
    case Some(p) => p == a || IsAncestor(doc, a, p)
    case None => false
  }

  /** Exclusion is inherited: every descendant of an excluded element is excluded, whatever its own rules. */
  lemma {:induction false} AncestorExclusion(excluded: seq<CrawlElement>, env: Env, doc: Document, a: nat, k: nat)
    requires k < |doc.elements|
    requires IsAncestor(doc, a, k)
    requires a < |doc.elements| && IsExcluded(excluded, env, doc, a)
    ensures IsExcluded(excluded, env, doc, k)
    decreases k
  {
    var p := ParentIndex(doc, k).value;
    if p != a {
      AncestorExclusion(excluded, env, doc, a, p);
    }
  }

  /** An element is excluded exactly when an exclude rule matches it or one of its ancestors. */
  lemma {:induction false} ExclusionWitness(excluded: seq<CrawlElement>, env: Env, doc: Document, k: nat)
    requires k < |doc.elements|
    ensures IsExcluded(excluded, env, doc, k) <==>
            OwnRuleExcludes(excluded, env, doc, k)
            || exists a :: IsAncestor(doc, a, k) && OwnRuleExcludes(excluded, env, doc, a)
    decreases k
  {
    match ParentIndex(doc, k)
    case None =>
    case Some(p) =>
      ExclusionWitness(excluded, env, doc, p);
      if IsExcluded(excluded, env, doc, p) && !OwnRuleExcludes(excluded, env, doc, p) {
        var a :| IsAncestor(doc, a, p) && OwnRuleExcludes(excluded, env, doc, a);
        assert IsAncestor(doc, a, k);
      }
      if exists a :: IsAncestor(doc, a, k) && OwnRuleExcludes(excluded, env, doc, a) {
        var a :| IsAncestor(doc, a, k) && OwnRuleExcludes(excluded, env, doc, a);
        if a != p {
          assert IsAncestor(doc, a, p);
        }
      }
  }

  /** Without exclude rules nothing is excluded. */
  lemma NoRulesNoExclusion(env: Env, doc: Document, k: nat)
    requires k < |doc.elements|
    ensures !IsExcluded([], env, doc, k)
  {
    ExclusionWitness([], env, doc, k);
  }

  lemma ExcludedStep(excluded: seq<CrawlElement>, env: Env, doc: Document, k: nat)
    requires k < |doc.elements|
    ensures IsExcluded(excluded, env, doc, k)
            <==> (ParentIndex(doc, k).Some? && IsExcluded(excluded, env, doc, ParentIndex(doc, k).value))
                 || OwnRuleExcludes(excluded, env, doc, k)
  {
  }
}
