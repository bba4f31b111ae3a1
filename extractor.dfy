/**
 * The extractor object (CandidateElementExtractor): configuration read once
 * at construction, the shared registry, and the extraction walk written as
 * the source writes it, loop by loop. Each method is proved to compute the
 * corresponding specification function of the Extraction, Expansion and
 * Selection modules, registry included.
 */
module Extractor {
  import opened Wrappers
  import opened Dom
  import opened Rules
  import opened JavaRegex
  import opened FrameIgnore
  import opened Hrefs
  import opened Scope
  import opened Exclusion
  import opened Selection
  import opened Expansion
  import opened Extraction
  import opened Registry

  /**
   * The bookkeeping of one loop step, on values: the work left (`here`) is
   * this step's output followed by the work after it (`next`), and the step
   * appended its output to the builder.
   */
  lemma LoopStep(results: seq<Candidate>, whole: Out, res: seq<Candidate>, here: Out, first: seq<Candidate>,
                 next: Out, res': seq<Candidate>)
    requires results + whole.found == res + here.found && whole.reg == here.reg
    requires here == Out(first + next.found, next.reg)
    requires res' == res + first
    ensures results + whole.found == res' + next.found && whole.reg == next.reg
  {
    SeqAssoc(res, first, next.found);
  }

  /** The bookkeeping of one step of the expansion loop, on values. */
  lemma EachStep(results: seq<Candidate>, whole: Out, res: seq<Candidate>, s: RegState, here: Out,
                 ev: Result<Out, Fault>, next: Out, r: Result<seq<Candidate>, Fault>, s': RegState)
    requires results + whole.found == res + here.found && whole.reg == here.reg
    requires ev.Failure? ==> here == Out([], s) && r.Failure? && s' == s
    requires ev.Success? ==> here == Out(ev.value.found + next.found, next.reg)
                             && r == Success(res + ev.value.found) && s' == ev.value.reg
    ensures r.Failure? ==> results + whole.found == res && whole.reg == s'
    ensures r.Success? ==> results + whole.found == r.value + next.found && whole.reg == next.reg
  {
    if ev.Failure? {
      assert res + [] == res;
    } else {
      SeqAssoc(res, ev.value.found, next.found);
    }
  }

  /** One step of the expansion loop: the outcome of element `nodes[i]` carries the loop invariant to `i + 1`. */
  lemma ElementsStep(clickOnce: bool, env: Env, doc: Document, frame: string, rule: CrawlElement, nodes: seq<nat>,
                     i: nat, s: RegState, results: seq<Candidate>, whole: Out, res: seq<Candidate>,
                     r: Result<seq<Candidate>, Fault>, s': RegState)
    requires ValidIndices(doc, nodes) && i < |nodes| && ValidIndices(doc, nodes[i..])
    requires var here := ElementsLoop(clickOnce, env, doc, frame, rule, nodes[i..], s);
             results + whole.found == res + here.found && whole.reg == here.reg
    requires var ev := EvaluateElementF(clickOnce, env, doc, frame, rule, nodes[i], s);
             && (ev.Failure? ==> r == Failure(ev.error) && s' == s)
             && (ev.Success? ==> r == Success(res + ev.value.found) && s' == ev.value.reg)
    ensures ValidIndices(doc, nodes[i + 1..])
    ensures r.Failure? ==> results + whole.found == res && whole.reg == s'
    ensures r.Success? ==> var next := ElementsLoop(clickOnce, env, doc, frame, rule, nodes[i + 1..], s');
                           results + whole.found == r.value + next.found && whole.reg == next.reg
  {
    ElementsAt(clickOnce, env, doc, frame, rule, nodes, i, s);
    EachStep(results, whole, res, s, ElementsLoop(clickOnce, env, doc, frame, rule, nodes[i..], s),
             EvaluateElementF(clickOnce, env, doc, frame, rule, nodes[i], s),
             ElementsLoop(clickOnce, env, doc, frame, rule, nodes[i + 1..], s'), r, s');
  }

  class CandidateElementExtractor {
    const checkedElements: ExtractorManager
    const cfg: Config
    const env: Env

    /**
     * The included rules are the pre-crawl ones followed by those of the
     * input specification. The source files the exclude rules in a multimap
     * keyed by tag name, which rejects a rule without one.
     */
    constructor(checker: ExtractorManager, env: Env, preCrawlIncluded: seq<CrawlElement>,
                inputSpecIncluded: seq<CrawlElement>, excludedElements: seq<CrawlElement>,
                crawlFrames: bool, clickOnce: bool, ignoredFrameIdentifiers: set<string>)
      requires forall rule :: rule in excludedElements ==> rule.tagName.Some?
      ensures checkedElements == checker && this.env == env
      ensures cfg.included == preCrawlIncluded + inputSpecIncluded
      ensures cfg == Config(preCrawlIncluded + inputSpecIncluded, excludedElements, crawlFrames, clickOnce,
                            ignoredFrameIdentifiers)
    {
      checkedElements := checker;
      this.env := env;
      cfg := Config(preCrawlIncluded + inputSpecIncluded, excludedElements, crawlFrames, clickOnce,
                    ignoredFrameIdentifiers);
    }

    /**
     * One extraction of the current page. The crawl condition's verdict and
     * the page's DOM (or the IOException reading it) are given.
     */
    method Extract(crawlConditionHolds: bool, rootDom: Result<Document, IOException>)
      returns (r: Result<seq<Candidate>, CrawljaxException>)
      modifies checkedElements
      ensures var o := ExtractF(cfg, env, crawlConditionHolds, rootDom, old(checkedElements.State()));
              r == o.result && checkedElements.State() == o.reg
    {
      if !crawlConditionHolds {
        return Success([]);
      }
      match rootDom
      case Failure(e) =>
        return Failure(CrawljaxException(e));
      case Success(dom) =>
        var results := ExtractElements(dom, [], "");
        ghost var o := ExtractElementsF(cfg, env, dom, "", old(checkedElements.State()));
        assert [] + o.found == o.found;
        r := Success(results);
    }

    /** Appends to `results` what every inclusion rule yields in `dom`, frames first. */
    method ExtractElements(dom: Document, results: seq<Candidate>, relatedFrame: string)
      returns (res: seq<Candidate>)
      modifies checkedElements
      ensures var o := ExtractElementsF(cfg, env, dom, relatedFrame, old(checkedElements.State()));
              res == results + o.found && checkedElements.State() == o.reg
      decreases dom, 3
    {
      ghost var whole := RulesF(cfg, env, dom, relatedFrame, cfg.included, checkedElements.State());
      assert cfg.included[0..] == cfg.included;
      res := results;
      var i := 0;
      while i < |cfg.included|
        invariant 0 <= i <= |cfg.included|
        invariant var rest := RulesF(cfg, env, dom, relatedFrame, cfg.included[i..], checkedElements.State());
                  results + whole.found == res + rest.found && whole.reg == rest.reg
      {
        var tag := cfg.included[i];
        ghost var s := checkedElements.State();
        ghost var res0 := res;
        RulesAt(cfg, env, dom, relatedFrame, cfg.included, i, s);
        var frameNodes := TagIndices(dom, "FRAME");
        res := AddFramesCandidates(dom, res, relatedFrame, frameNodes);
        ghost var f := FramesF(cfg, env, dom, relatedFrame, frameNodes, s);
        var iFrameNodes := TagIndices(dom, "IFRAME");
        res := AddFramesCandidates(dom, res, relatedFrame, iFrameNodes);
        ghost var fi := FramesF(cfg, env, dom, relatedFrame, iFrameNodes, f.reg);
        res := EvaluateElements(dom, tag, res, relatedFrame);
        ghost var own := EvaluateElementsF(cfg, env, dom, relatedFrame, tag, fi.reg);
        ghost var first := RuleF(cfg, env, dom, relatedFrame, tag, s);
        assert first == Out(f.found + fi.found + own.found, own.reg);
        SeqAssoc(res0, f.found, fi.found);
        SeqAssoc(res0, f.found + fi.found, own.found);
        LoopStep(results, whole, res0, RulesF(cfg, env, dom, relatedFrame, cfg.included[i..], s), first.found,
                 RulesF(cfg, env, dom, relatedFrame, cfg.included[i + 1..], checkedElements.State()), res);
        i := i + 1;
      }
    }

    /** Extracts, in order, every frame among `frameNodes` that has an identification and is not ignored. */
    method AddFramesCandidates(dom: Document, results: seq<Candidate>, relatedFrame: string, frameNodes: seq<nat>)
      returns (res: seq<Candidate>)
      requires ValidIndices(dom, frameNodes)
      modifies checkedElements
      ensures var o := FramesF(cfg, env, dom, relatedFrame, frameNodes, old(checkedElements.State()));
              res == results + o.found && checkedElements.State() == o.reg
      decreases dom, 2
    {
      ghost var whole := FramesF(cfg, env, dom, relatedFrame, frameNodes, checkedElements.State());
      assert frameNodes[0..] == frameNodes;
      res := results;
      var i := 0;
      while i < |frameNodes|
        invariant 0 <= i <= |frameNodes|
        invariant ValidIndices(dom, frameNodes[i..])
        invariant var rest := FramesF(cfg, env, dom, relatedFrame, frameNodes[i..], checkedElements.State());
                  results + whole.found == res + rest.found && whole.reg == rest.reg
      {
        ghost var s := checkedElements.State();
        ghost var res0 := res;
        ghost var first := FrameF(cfg, env, dom, relatedFrame, frameNodes[i], s);
        FramesAt(cfg, env, dom, relatedFrame, frameNodes, i, s);
        var frameIdentification := "";
        if relatedFrame != "" {
          frameIdentification := frameIdentification + relatedFrame + ".";
        }
        var frameElement := dom.elements[frameNodes[i]];
        var nameId := frameElement.frameName;
        var ignored := false;
        if nameId.Some? {
          assert frameIdentification + nameId.value == ChildFramePath(relatedFrame, nameId.value);
          ignored := IsFrameIgnoredCheck(frameIdentification + nameId.value);
        }
        if nameId.None? || ignored {
          assert first == Out([], s) && res + [] == res;
        } else {
          frameIdentification := frameIdentification + nameId.value;
          match frameElement.frameDom
          case None =>
            // the frame's DOM could not be read: logged, and the loop goes on
            assert first == Out([], s) && res + [] == res;
          case Some(frameDom) =>
            assert frameElement in dom.elements;
            res := ExtractElements(frameDom, res, frameIdentification);
        }
        LoopStep(results, whole, res0, FramesF(cfg, env, dom, relatedFrame, frameNodes[i..], s), first.found,
                 FramesF(cfg, env, dom, relatedFrame, frameNodes[i + 1..], checkedElements.State()), res);
        i := i + 1;
      }
    }

    /** Whether the frame at `path` is skipped: always when frames are not crawled, else when a pattern matches. */
    method IsFrameIgnoredCheck(path: string) returns (b: bool)
      ensures b == IsFrameIgnored(cfg.crawlFrames, cfg.ignoredFrameIdentifiers, path)
    {
      if !cfg.crawlFrames {
        return true;
      }
      var remaining := cfg.ignoredFrameIdentifiers;
      while remaining != {}
        invariant remaining <= cfg.ignoredFrameIdentifiers
        invariant forall p :: p in cfg.ignoredFrameIdentifiers && p !in remaining ==> !PatternMatches(p, path)
        decreases |remaining|
      {
        var ignorePattern :| ignorePattern in remaining;
        if '%' in ignorePattern {
          if Matches(WildcardRegex(ignorePattern), path) {
            return true;
          }
        } else if ignorePattern == path {
          return true;
        }
        remaining := remaining - {ignorePattern};
      }
      return false;
    }

    /**
     * Selects the rule's elements, then expands them one by one; a
     * CrawljaxException from an expansion ends the loop, keeping the
     * candidates added before it.
     */
    method EvaluateElements(dom: Document, crawl: CrawlElement, results: seq<Candidate>, relatedFrame: string)
      returns (res: seq<Candidate>)
      modifies checkedElements
      ensures var o := EvaluateElementsF(cfg, env, dom, relatedFrame, crawl, old(checkedElements.State()));
              res == results + o.found && checkedElements.State() == o.reg
    {
      EvaluateElementsIs(cfg, env, dom, relatedFrame, crawl, checkedElements.State());
      var nodeListForCrawlElement := GetNodeListForTagElement(dom, crawl);
      res := EvaluateEach(dom, crawl, nodeListForCrawlElement, results, relatedFrame);
    }

    /** The for-each loop of evaluateElements, up to the first expansion that throws. */
    method EvaluateEach(dom: Document, crawl: CrawlElement, nodes: seq<nat>, results: seq<Candidate>,
                        relatedFrame: string) returns (res: seq<Candidate>)
      requires ValidIndices(dom, nodes)
      modifies checkedElements
      ensures var o := ElementsLoop(cfg.clickOnce, env, dom, relatedFrame, crawl, nodes, old(checkedElements.State()));
              res == results + o.found && checkedElements.State() == o.reg
    {
      ghost var whole := ElementsLoop(cfg.clickOnce, env, dom, relatedFrame, crawl, nodes, checkedElements.State());
      assert nodes[0..] == nodes;
      res := results;
      var i := 0;
      while i < |nodes|
        invariant 0 <= i <= |nodes|
        invariant ValidIndices(dom, nodes[i..])
        invariant var rest := ElementsLoop(cfg.clickOnce, env, dom, relatedFrame, crawl, nodes[i..],
                                           checkedElements.State());
                  results + whole.found == res + rest.found && whole.reg == rest.reg
      {
        ghost var s := checkedElements.State();
        var r := EvaluateElement(res, relatedFrame, crawl, dom, nodes[i]);
        ElementsStep(cfg.clickOnce, env, dom, relatedFrame, crawl, nodes, i, s, results, whole, res, r,
                     checkedElements.State());
        if r.Failure? {
          break;
        }
        res := r.value;
        i := i + 1;
      }
    }

    /**
     * The elements with the rule's tag that lie in its scope, are not yet
     * checked, are not excluded and are not dropped anchors, in document
     * order; the registry counts each one added.
     */
    method GetNodeListForTagElement(dom: Document, crawlElement: CrawlElement) returns (result: seq<nat>)
      modifies checkedElements
      ensures result == SelectIndices(cfg.excluded, env, dom, crawlElement, old(checkedElements.checked))
      ensures checkedElements.checked == old(checkedElements.checked)
      ensures checkedElements.counter == old(checkedElements.counter) + |result|
    {
      result := [];
      if crawlElement.tagName.None? {
        return;
      }
      var eventableCondition := env.conditionFor(crawlElement.id);
      var expressions := ScopeExpressions(env, dom, eventableCondition);
      var nodeList := TagIndices(dom, crawlElement.tagName.value);
      ghost var checked := checkedElements.checked;
      ghost var counter0 := checkedElements.counter;
      ghost var whole := FilterRetained(cfg.excluded, env, dom, crawlElement, eventableCondition, expressions,
                                        checked, nodeList);
      assert nodeList[0..] == nodeList;
      assert whole == SelectIndices(cfg.excluded, env, dom, crawlElement, checked);
      var k := 0;
      while k < |nodeList|
        invariant 0 <= k <= |nodeList|
        invariant ValidIndices(dom, nodeList[k..])
        invariant checkedElements.checked == checked
        invariant checkedElements.counter == counter0 + |result|
        invariant result + FilterRetained(cfg.excluded, env, dom, crawlElement, eventableCondition, expressions,
                                          checked, nodeList[k..]) == whole
      {
        FilterAt(cfg.excluded, env, dom, crawlElement, eventableCondition, expressions, checked, nodeList, k);
        ghost var rest := FilterRetained(cfg.excluded, env, dom, crawlElement, eventableCondition, expressions,
                                         checked, nodeList[k + 1..]);
        ghost var result0 := result;
        result := ConsiderElement(dom, crawlElement, eventableCondition, expressions, nodeList[k], result);
        SeqAssoc(result0, [nodeList[k]], rest);
        k := k + 1;
      }
      assert nodeList[k..] == [];
      assert result + [] == result;
    }

    /**
     * The body of the selection loop for element `k`: the scope test, the
     * registry lookup of its fingerprint and the exclusion test, in that
     * order and each only when the previous one passed; then AddElement.
     */
    method ConsiderElement(dom: Document, crawlElement: CrawlElement, eventableCondition: Option<EventableCondition>,
                           expressions: seq<string>, k: nat, result: seq<nat>) returns (res: seq<nat>)
      requires k < |dom.elements|
      modifies checkedElements
      ensures checkedElements.checked == old(checkedElements.checked)
      ensures Retained(cfg.excluded, env, dom, crawlElement, eventableCondition, expressions,
                       old(checkedElements.checked), k) ==>
              res == result + [k] && checkedElements.counter == old(checkedElements.counter) + 1
      ensures !Retained(cfg.excluded, env, dom, crawlElement, eventableCondition, expressions,
                        old(checkedElements.checked), k) ==>
              res == result && checkedElements.counter == old(checkedElements.counter)
    {
      res := result;
      var element := dom.elements[k];
      var matchesXpath := ElementMatchesScope(env, eventableCondition, expressions, element);
      if matchesXpath {
        var id := Fingerprint(env, element);
        var isChecked := checkedElements.IsChecked(id);
        if !isChecked {
          var excluded := IsExcludedCheck(dom, k);
          if !excluded {
            res := AddElement(dom, k, result, crawlElement);
          }
        }
      }
    }

    /** Adds the element unless the rule selects anchors and its href is a download or a mailto link. */
    method AddElement(dom: Document, k: nat, builder: seq<nat>, crawlElement: CrawlElement) returns (res: seq<nat>)
      requires k < |dom.elements|
      modifies checkedElements
      ensures checkedElements.checked == old(checkedElements.checked)
      ensures IsAnchorRule(crawlElement) && HrefShouldBeIgnored(dom.elements[k]) ==>
              res == builder && checkedElements.counter == old(checkedElements.counter)
      ensures !(IsAnchorRule(crawlElement) && HrefShouldBeIgnored(dom.elements[k])) ==>
              res == builder + [k] && checkedElements.counter == old(checkedElements.counter) + 1
    {
      if IsAnchorRule(crawlElement) && HrefShouldBeIgnored(dom.elements[k]) {
        return builder;
      }
      res := builder + [k];
      checkedElements.IncreaseElementsCounter();
    }

    /** Whether element `k` or one of its ancestors is matched by an exclude rule filed under its upper-cased tag. */
    method IsExcludedCheck(dom: Document, k: nat) returns (b: bool)
      requires k < |dom.elements|
      ensures b == IsExcluded(cfg.excluded, env, dom, k)
      decreases k
    {
      ExcludedStep(cfg.excluded, env, dom, k);
      var parent := ParentIndex(dom, k);
      if parent.Some? {
        var parentExcluded := IsExcludedCheck(dom, parent.value);
        if parentExcluded {
          return true;
        }
      }
      var element := dom.elements[k];
      var key := UpperAscii(element.tag);
      var i := 0;
      while i < |cfg.excluded|
        invariant 0 <= i <= |cfg.excluded|
        invariant forall j :: 0 <= j < i ==> !ExcludeRuleMatches(env, dom, cfg.excluded[j], element)
      {
        var crawlElem := cfg.excluded[i];
        if crawlElem.tagName == Some(key) {
          var eventableCondition := env.conditionFor(crawlElem.id);
          var matchesXPath := false;
          match env.startsWithCondition(dom, eventableCondition, element.xpath) {
            case Success(m) =>
              matchesXPath := m;
            case Failure(_) =>
              matchesXPath := false;
          }
          if matchesXPath {
            assert crawlElem in cfg.excluded && ExcludeRuleMatches(env, dom, crawlElem, element);
            return true;
          }
        }
        i := i + 1;
      }
      forall rule | rule in cfg.excluded ensures !ExcludeRuleMatches(env, dom, rule, element) {
        var j :| 0 <= j < |cfg.excluded| && cfg.excluded[j] == rule;
      }
      return false;
    }

    /**
     * Expands element `k`: one candidate per input combination when the
     * rule's condition links input fields, else the default candidate; with
     * click-once a candidate is added only when marking it checked is new.
     * A form handler that throws yields the Failure, with nothing marked.
     */
    method EvaluateElement(results: seq<Candidate>, relatedFrame: string, crawl: CrawlElement, dom: Document, k: nat)
      returns (r: Result<seq<Candidate>, Fault>)
      requires k < |dom.elements|
      modifies checkedElements
      ensures var ev := EvaluateElementF(cfg.clickOnce, env, dom, relatedFrame, crawl, k, old(checkedElements.State()));
              && (ev.Failure? ==> r == Failure(ev.error) && checkedElements.State() == old(checkedElements.State()))
              && (ev.Success? ==> r == Success(results + ev.value.found) && checkedElements.State() == ev.value.reg)
    {
      var eventableCondition := env.conditionFor(crawl.id);
      var sourceElement := dom.elements[k];
      var xpath := sourceElement.xpath;
      var candidateElements: seq<Candidate>;
      if HasLinkedInputs(eventableCondition) {
        var forInputs := env.formCandidates(sourceElement, eventableCondition.value);
        if forInputs.Failure? {
          assert BuildCandidates(env, relatedFrame, eventableCondition, sourceElement) == forInputs;
          return Failure(forInputs.error);
        }
        candidateElements := forInputs.value;
      } else {
        candidateElements := [Candidate(sourceElement, Identification(XPath, xpath), relatedFrame, [], None)];
      }
      assert BuildCandidates(env, relatedFrame, eventableCondition, sourceElement) == Success(candidateElements);
      ghost var whole := Emit(cfg.clickOnce, env, eventableCondition, candidateElements, checkedElements.State());
      assert candidateElements[0..] == candidateElements;
      var res := results;
      var i := 0;
      while i < |candidateElements|
        invariant 0 <= i <= |candidateElements|
        invariant var rest := Emit(cfg.clickOnce, env, eventableCondition, candidateElements[i..],
                                   checkedElements.State());
                  results + whole.found == res + rest.found && whole.reg == rest.reg
      {
        ghost var s := checkedElements.State();
        ghost var res0 := res;
        EmitAt(cfg.clickOnce, env, eventableCondition, candidateElements, i, s);
        var candidateElement := candidateElements[i];
        var isNew := true;
        if cfg.clickOnce {
          isNew := checkedElements.MarkChecked(Key(env, candidateElement));
        }
        if isNew {
          res := res + [candidateElement.(condition := eventableCondition)];
          SeqAssoc(res0, [candidateElement.(condition := eventableCondition)],
                   Emit(cfg.clickOnce, env, eventableCondition, candidateElements[i + 1..],
                        checkedElements.State()).found);
          assert checkedElements.State()
                 == if cfg.clickOnce then s.(checked := s.checked + {Key(env, candidateElement)}) else s;
        } else {
          assert checkedElements.State() == s;
        }
        i := i + 1;
      }
      assert candidateElements[i..] == [];
      assert res + [] == res;
      r := Success(res);
    }
  }
}
