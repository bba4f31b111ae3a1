/**
 * Which elements of a document an inclusion rule selects
 * (CandidateElementExtractor.getNodeListForTagElement and addElement).
 */
module Selection {
  import opened Wrappers
  import opened Dom
  import opened Rules
  import opened Scope
  import opened Exclusion
  import opened Hrefs

  /** "A".equalsIgnoreCase(tag name): the rule selects anchors. */
  predicate IsAnchorRule(rule: CrawlElement)
  {
    rule.tagName == Some("A") || rule.tagName == Some("a")
  }

  /** The element filter: in scope, not yet checked, not excluded. */
  predicate Admissible(excluded: seq<CrawlElement>, env: Env, doc: Document, cond: Option<EventableCondition>,
                       expressions: seq<string>, checked: set<string>, k: nat)
    requires k < |doc.elements|
  {
    && ElementMatchesScope(env, cond, expressions, doc.elements[k])
    && Fingerprint(env, doc.elements[k]) !in checked
    && !IsExcluded(excluded, env, doc, k)
  }

  /** Admissible, and not an anchor of an anchor rule whose href is dropped. */
  predicate Retained(excluded: seq<CrawlElement>, env: Env, doc: Document, rule: CrawlElement,
                     cond: Option<EventableCondition>, expressions: seq<string>, checked: set<string>, k: nat)
    requires k < |doc.elements|
  {
    && Admissible(excluded, env, doc, cond, expressions, checked, k)
    && !(IsAnchorRule(rule) && HrefShouldBeIgnored(doc.elements[k]))
  }

  /** The retained elements among `nodes`, in their order. */
  function FilterRetained(excluded: seq<CrawlElement>, env: Env, doc: Document, rule: CrawlElement,
                          cond: Option<EventableCondition>, expressions: seq<string>, checked: set<string>,
                          nodes: seq<nat>): (r: seq<nat>)
    requires ValidIndices(doc, nodes)
    ensures ValidIndices(doc, r)
  {
    if nodes == [] then []
    else
      var rest := FilterRetained(excluded, env, doc, rule, cond, expressions, checked, nodes[1..]);
      if Retained(excluded, env, doc, rule, cond, expressions, checked, nodes[0]) then [nodes[0]] + rest else rest
  }

  /** Everything the filter keeps is one of `nodes` and is retained. */
  lemma {:induction false} FilterRetainedSound(excluded: seq<CrawlElement>, env: Env, doc: Document,
                                               rule: CrawlElement, cond: Option<EventableCondition>,
                                               expressions: seq<string>, checked: set<string>, nodes: seq<nat>)
    requires ValidIndices(doc, nodes)
    ensures forall k :: k in FilterRetained(excluded, env, doc, rule, cond, expressions, checked, nodes) ==>
              k in nodes && k < |doc.elements| && Retained(excluded, env, doc, rule, cond, expressions, checked, k)
  {
    if nodes != [] {
      FilterRetainedSound(excluded, env, doc, rule, cond, expressions, checked, nodes[1..]);
      assert nodes == [nodes[0]] + nodes[1..];
    }
  }

  /** Every retained one of `nodes` is kept. */
  lemma {:induction false} FilterRetainedComplete(excluded: seq<CrawlElement>, env: Env, doc: Document,
                                                  rule: CrawlElement, cond: Option<EventableCondition>,
                                                  expressions: seq<string>, checked: set<string>, nodes: seq<nat>)
    requires ValidIndices(doc, nodes)
    ensures var r := FilterRetained(excluded, env, doc, rule, cond, expressions, checked, nodes);
            forall i :: 0 <= i < |nodes| && Retained(excluded, env, doc, rule, cond, expressions, checked, nodes[i])
                        ==> nodes[i] in r
  {
    if nodes != [] {
      FilterRetainedComplete(excluded, env, doc, rule, cond, expressions, checked, nodes[1..]);
      forall i | 1 <= i < |nodes| ensures nodes[i] == nodes[1..][i - 1] {
      }
    }
  }

  /** The filter keeps the order of `nodes`. */
  lemma {:induction false} FilterRetainedOrdered(excluded: seq<CrawlElement>, env: Env, doc: Document,
                                                 rule: CrawlElement, cond: Option<EventableCondition>,
                                                 expressions: seq<string>, checked: set<string>, nodes: seq<nat>)
    requires ValidIndices(doc, nodes) && Increasing(nodes)
    ensures Increasing(FilterRetained(excluded, env, doc, rule, cond, expressions, checked, nodes))
  {
    if nodes != [] {
      var tail := nodes[1..];
      assert Increasing(tail) by {
        forall i, j | 0 <= i < j < |tail| ensures tail[i] < tail[j] {
          assert tail[i] == nodes[i + 1] && tail[j] == nodes[j + 1];
        }
      }
      FilterRetainedOrdered(excluded, env, doc, rule, cond, expressions, checked, tail);
      FilterRetainedSound(excluded, env, doc, rule, cond, expressions, checked, tail);
      var rest := FilterRetained(excluded, env, doc, rule, cond, expressions, checked, tail);
      forall i | 0 <= i < |rest| ensures nodes[0] < rest[i] {
        assert rest[i] in rest;
        var j :| 0 <= j < |tail| && tail[j] == rest[i];
        assert tail[j] == nodes[j + 1];
      }
    }
  }

  /** The elements the rule selects, judged against the registry's checked set `checked`. */
  function SelectIndices(excluded: seq<CrawlElement>, env: Env, doc: Document, rule: CrawlElement,
                         checked: set<string>): (r: seq<nat>)
    ensures ValidIndices(doc, r)
  {
    match rule.tagName
    case None => []
    case Some(tag) =>
      var cond := RuleCondition(env, rule);
      FilterRetained(excluded, env, doc, rule, cond, ScopeExpressions(env, doc, cond), checked, TagIndices(doc, tag))
  }

  /**
   * The element filter: a rule without a tag selects nothing; otherwise an
   * element is selected iff it has the rule's tag, matches the scope, is not
   * checked, is not excluded and is not a dropped anchor; the selection is in
   * document order.
   */
  lemma SelectionMeaning(excluded: seq<CrawlElement>, env: Env, doc: Document, rule: CrawlElement,
                         checked: set<string>, k: nat)
    ensures rule.tagName.None? ==> SelectIndices(excluded, env, doc, rule, checked) == []
    ensures Increasing(SelectIndices(excluded, env, doc, rule, checked))
    ensures k in SelectIndices(excluded, env, doc, rule, checked) <==>
            && rule.tagName.Some?
            && k < |doc.elements|
            && TagMatches(doc.elements[k], rule.tagName.value)
            && Retained(excluded, env, doc, rule, RuleCondition(env, rule),
                        ScopeExpressions(env, doc, RuleCondition(env, rule)), checked, k)
  {
    if rule.tagName.Some? {
      var nodes := TagIndices(doc, rule.tagName.value);
      var cond := RuleCondition(env, rule);
      var expressions := ScopeExpressions(env, doc, cond);
      FilterRetainedSound(excluded, env, doc, rule, cond, expressions, checked, nodes);
      FilterRetainedComplete(excluded, env, doc, rule, cond, expressions, checked, nodes);
      FilterRetainedOrdered(excluded, env, doc, rule, cond, expressions, checked, nodes);
      var r := SelectIndices(excluded, env, doc, rule, checked);
      if k in r {
        var j :| 0 <= j < |nodes| && nodes[j] == k;
      }
    }
  }

  lemma FilterAt(excluded: seq<CrawlElement>, env: Env, doc: Document, rule: CrawlElement,
                 cond: Option<EventableCondition>, expressions: seq<string>, checked: set<string>,
                 nodes: seq<nat>, i: nat)
    requires forall j :: 0 <= j < |nodes| ==> nodes[j] < |doc.elements|
    requires i < |nodes|
    ensures ValidIndices(doc, nodes[i..]) && ValidIndices(doc, nodes[i + 1..])
    ensures var rest := FilterRetained(excluded, env, doc, rule, cond, expressions, checked, nodes[i + 1..]);
            FilterRetained(excluded, env, doc, rule, cond, expressions, checked, nodes[i..])
            == if Retained(excluded, env, doc, rule, cond, expressions, checked, nodes[i]) then [nodes[i]] + rest else rest
  {
    assert nodes[i..][0] == nodes[i] && nodes[i..][1..] == nodes[i + 1..];
  }
}
