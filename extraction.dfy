/**
 * What one extraction computes, with the registry passed through: for each
 * inclusion rule, first the FRAME frames, then the IFRAME frames (each
 * extracted recursively), then the rule's own elements
 * (CandidateElementExtractor.extract, extractElements, addFramesCandidates).
 */
module Extraction {
  import opened Wrappers
  import opened Dom
  import opened Rules
  import opened FrameIgnore
  import opened Selection
  import opened Expansion

  datatype ExtractOutcome = ExtractOutcome(result: Result<seq<Candidate>, CrawljaxException>, reg: RegState)

  /** Whether frame element `k` is skipped: no frame identification, an ignored path, or a DOM that cannot be fetched. */
  predicate FrameSkipped(cfg: Config, doc: Document, frame: string, k: nat)
    requires k < |doc.elements|
  {
    var e := doc.elements[k];
    || e.frameName.None?
    || IsFrameIgnored(cfg.crawlFrames, cfg.ignoredFrameIdentifiers, ChildFramePath(frame, e.frameName.value))
    || e.frameDom.None?
  }

  /** One frame element: extract its document under its full path, unless the frame is skipped. */
  function FrameF(cfg: Config, env: Env, doc: Document, frame: string, k: nat, st: RegState): Out
    requires k < |doc.elements|
    decreases doc, 0, 0
  {
    var e := doc.elements[k];
    assert e in doc.elements;
    match e.frameName
    case None => Out([], st)
    case Some(nameId) =>
      var path := ChildFramePath(frame, nameId);
      if IsFrameIgnored(cfg.crawlFrames, cfg.ignoredFrameIdentifiers, path) then Out([], st)
      else
        match e.frameDom
        case None => Out([], st)
        case Some(child) => ExtractElementsF(cfg, env, child, path, st)
  }

  function FramesF(cfg: Config, env: Env, doc: Document, frame: string, nodes: seq<nat>, st: RegState): Out
    requires forall i :: 0 <= i < |nodes| ==> nodes[i] < |doc.elements|
    decreases doc, 0, |nodes|
  {
    if nodes == [] then Out([], st)
    else
      var first := FrameF(cfg, env, doc, frame, nodes[0], st);
      var rest := FramesF(cfg, env, doc, frame, nodes[1..], first.reg);
      Out(first.found + rest.found, rest.reg)
  }

  /** One inclusion rule in one document. */
  function RuleF(cfg: Config, env: Env, doc: Document, frame: string, rule: CrawlElement, st: RegState): Out
    decreases doc, 1
  {
    var frames := FramesF(cfg, env, doc, frame, TagIndices(doc, "FRAME"), st);
    var iframes := FramesF(cfg, env, doc, frame, TagIndices(doc, "IFRAME"), frames.reg);
    var own := EvaluateElementsF(cfg, env, doc, frame, rule, iframes.reg);
    Out(frames.found + iframes.found + own.found, own.reg)
  }

  function RulesF(cfg: Config, env: Env, doc: Document, frame: string, rules: seq<CrawlElement>, st: RegState): Out
    decreases doc, 2, |rules|
  {
    if rules == [] then Out([], st)
    else
      var first := RuleF(cfg, env, doc, frame, rules[0], st);
      var rest := RulesF(cfg, env, doc, frame, rules[1..], first.reg);
      Out(first.found + rest.found, rest.reg)
  }

  /** All inclusion rules, in their declared order, over one document at frame path `frame`. */
  function ExtractElementsF(cfg: Config, env: Env, doc: Document, frame: string, st: RegState): Out
    decreases doc, 3
  {
    RulesF(cfg, env, doc, frame, cfg.included, st)
  }

  /** A whole extraction: nothing when the crawl condition fails; the root at path "" otherwise. */
  function ExtractF(cfg: Config, env: Env, crawlConditionHolds: bool, rootDom: Result<Document, IOException>,
                    st: RegState): ExtractOutcome
  {
    if !crawlConditionHolds then ExtractOutcome(Success([]), st)
    else
      match rootDom
      case Failure(e) => ExtractOutcome(Failure(CrawljaxException(e)), st)
      case Success(dom) =>
        var out := ExtractElementsF(cfg, env, dom, "", st);
        ExtractOutcome(Success(out.found), out.reg)
  }

  // ---------------------------------------------------------------- soundness

  lemma {:induction false} FrameSound(cfg: Config, env: Env, doc: Document, frame: string, k: nat, st: RegState)
    requires k < |doc.elements|
    ensures Sound(cfg.clickOnce, env, st, FrameF(cfg, env, doc, frame, k, st))
    decreases doc, 0, 0
  {
    var e := doc.elements[k];
    assert e in doc.elements;
    if !FrameSkipped(cfg, doc, frame, k) {
      ExtractElementsSound(cfg, env, e.frameDom.value, ChildFramePath(frame, e.frameName.value), st);
    }
  }

  lemma {:induction false} FramesSound(cfg: Config, env: Env, doc: Document, frame: string, nodes: seq<nat>,
                                      st: RegState)
    requires forall i :: 0 <= i < |nodes| ==> nodes[i] < |doc.elements|
    ensures Sound(cfg.clickOnce, env, st, FramesF(cfg, env, doc, frame, nodes, st))
    decreases doc, 0, |nodes|
  {
    if nodes != [] {
      var first := FrameF(cfg, env, doc, frame, nodes[0], st);
      FrameSound(cfg, env, doc, frame, nodes[0], st);
      FramesSound(cfg, env, doc, frame, nodes[1..], first.reg);
      SoundConcat(cfg.clickOnce, env, st, first, FramesF(cfg, env, doc, frame, nodes[1..], first.reg));
    }
  }

  lemma {:induction false} RuleSound(cfg: Config, env: Env, doc: Document, frame: string, rule: CrawlElement,
                                    st: RegState)
    ensures Sound(cfg.clickOnce, env, st, RuleF(cfg, env, doc, frame, rule, st))
    decreases doc, 1
  {
    var frames := FramesF(cfg, env, doc, frame, TagIndices(doc, "FRAME"), st);
    var iframes := FramesF(cfg, env, doc, frame, TagIndices(doc, "IFRAME"), frames.reg);
    var own := EvaluateElementsF(cfg, env, doc, frame, rule, iframes.reg);
    FramesSound(cfg, env, doc, frame, TagIndices(doc, "FRAME"), st);
    FramesSound(cfg, env, doc, frame, TagIndices(doc, "IFRAME"), frames.reg);
    EvaluateElementsSound(cfg, env, doc, frame, rule, iframes.reg);
    SoundConcat(cfg.clickOnce, env, st, frames, iframes);
    SoundConcat(cfg.clickOnce, env, st, Out(frames.found + iframes.found, iframes.reg), own);
  }

  lemma {:induction false} RulesSound(cfg: Config, env: Env, doc: Document, frame: string,
                                     rules: seq<CrawlElement>, st: RegState)
    ensures Sound(cfg.clickOnce, env, st, RulesF(cfg, env, doc, frame, rules, st))
    decreases doc, 2, |rules|
  {
    if rules != [] {
      var first := RuleF(cfg, env, doc, frame, rules[0], st);
      RuleSound(cfg, env, doc, frame, rules[0], st);
      RulesSound(cfg, env, doc, frame, rules[1..], first.reg);
      SoundConcat(cfg.clickOnce, env, st, first, RulesF(cfg, env, doc, frame, rules[1..], first.reg));
    }
  }

  /**
   * Extraction of a document keeps the registry append-only; without
   * click-once it never marks anything checked; with click-once every
   * candidate it returns was newly marked by it, and no key is returned twice.
   */
  lemma {:induction false} ExtractElementsSound(cfg: Config, env: Env, doc: Document, frame: string, st: RegState)
    ensures Sound(cfg.clickOnce, env, st, ExtractElementsF(cfg, env, doc, frame, st))
    decreases doc, 3
  {
    RulesSound(cfg, env, doc, frame, cfg.included, st);
  }

  /**
   * extract: a failed crawl condition returns nothing and leaves the registry
   * alone; a root DOM that cannot be read becomes a CrawljaxException, again
   * with the registry untouched; otherwise the root is extracted at frame
   * path "" and the result is sound.
   */
  lemma ExtractContract(cfg: Config, env: Env, crawlConditionHolds: bool, rootDom: Result<Document, IOException>,
                        st: RegState)
    ensures var o := ExtractF(cfg, env, crawlConditionHolds, rootDom, st);
            && (!crawlConditionHolds ==> o == ExtractOutcome(Success([]), st))
            && (crawlConditionHolds && rootDom.Failure? ==>
                  o == ExtractOutcome(Failure(CrawljaxException(rootDom.error)), st))
            && (crawlConditionHolds && rootDom.Success? ==>
                  && o.result == Success(ExtractElementsF(cfg, env, rootDom.value, "", st).found)
                  && Sound(cfg.clickOnce, env, st, Out(o.result.value, o.reg)))
  {
    if crawlConditionHolds && rootDom.Success? {
      ExtractElementsSound(cfg, env, rootDom.value, "", st);
    }
  }

  /**
   * With click-once, two extractions in a row (of any pages) never return
   * candidates with the same key: the second one's candidates were all
   * unchecked after the first.
   */
  lemma ExtractTwiceDisjoint(cfg: Config, env: Env, cond1: bool, root1: Result<Document, IOException>,
                             cond2: bool, root2: Result<Document, IOException>, st: RegState)
    requires cfg.clickOnce
    ensures var first := ExtractF(cfg, env, cond1, root1, st);
            var second := ExtractF(cfg, env, cond2, root2, first.reg);
            first.result.Success? && second.result.Success? ==>
              forall i, j :: 0 <= i < |first.result.value| && 0 <= j < |second.result.value| ==>
                Key(env, first.result.value[i]) != Key(env, second.result.value[j])
  {
    var first := ExtractF(cfg, env, cond1, root1, st);
    ExtractContract(cfg, env, cond1, root1, st);
    ExtractContract(cfg, env, cond2, root2, first.reg);
  }

  // ---------------------------------------------------------------- frames and order

  /** A skipped frame contributes nothing and leaves the registry alone. */
  lemma SkippedFrameContributesNothing(cfg: Config, env: Env, doc: Document, frame: string, k: nat, st: RegState)
    requires k < |doc.elements|
    ensures FrameSkipped(cfg, doc, frame, k) ==> FrameF(cfg, env, doc, frame, k, st) == Out([], st)
    ensures !FrameSkipped(cfg, doc, frame, k) ==>
            var e := doc.elements[k];
            FrameF(cfg, env, doc, frame, k, st)
            == ExtractElementsF(cfg, env, e.frameDom.value, ChildFramePath(frame, e.frameName.value), st)
  {
  }

  /** The frame loop over a concatenation is the loop over the first part, then over the second. */
  lemma {:induction false} FramesConcat(cfg: Config, env: Env, doc: Document, frame: string,
                                       a: seq<nat>, b: seq<nat>, st: RegState)
    requires forall i :: 0 <= i < |a| ==> a[i] < |doc.elements|
    requires forall i :: 0 <= i < |b| ==> b[i] < |doc.elements|
    ensures forall i :: 0 <= i < |a + b| ==> (a + b)[i] < |doc.elements|
    ensures var x := FramesF(cfg, env, doc, frame, a, st);
            var y := FramesF(cfg, env, doc, frame, b, x.reg);
            FramesF(cfg, env, doc, frame, a + b, st) == Out(x.found + y.found, y.reg)
  {
    if a == [] {
      assert a + b == b;
    } else {
      assert (a + b)[0] == a[0] && (a + b)[1..] == a[1..] + b;
      var first := FrameF(cfg, env, doc, frame, a[0], st);
      var rest := FramesF(cfg, env, doc, frame, a[1..], first.reg);
      var y := FramesF(cfg, env, doc, frame, b, rest.reg);
      FramesConcat(cfg, env, doc, frame, a[1..], b, first.reg);
      SeqAssoc(first.found, rest.found, y.found);
    }
  }

  /**
   * A frame whose DOM cannot be read (or that has no identification, or an
   * ignored path) is passed over: its siblings are extracted exactly as if it
   * were absent.
   */
  lemma SkippedFramePassedOver(cfg: Config, env: Env, doc: Document, frame: string,
                               a: seq<nat>, k: nat, b: seq<nat>, st: RegState)
    requires forall i :: 0 <= i < |a| ==> a[i] < |doc.elements|
    requires forall i :: 0 <= i < |b| ==> b[i] < |doc.elements|
    requires k < |doc.elements| && FrameSkipped(cfg, doc, frame, k)
    ensures forall i :: 0 <= i < |a + [k] + b| ==> (a + [k] + b)[i] < |doc.elements|
    ensures forall i :: 0 <= i < |a + b| ==> (a + b)[i] < |doc.elements|
    ensures FramesF(cfg, env, doc, frame, a + [k] + b, st) == FramesF(cfg, env, doc, frame, a + b, st)
  {
    assert a + [k] + b == a + ([k] + b);
    FramesConcat(cfg, env, doc, frame, a, [k] + b, st);
    FramesConcat(cfg, env, doc, frame, a, b, st);
    var x := FramesF(cfg, env, doc, frame, a, st);
    assert ([k] + b)[0] == k && ([k] + b)[1..] == b;
    assert FrameF(cfg, env, doc, frame, k, x.reg) == Out([], x.reg);
  }

  /** With frame crawling off, the frame loop does nothing. */
  lemma {:induction false} FramesDisabled(cfg: Config, env: Env, doc: Document, frame: string, nodes: seq<nat>,
                                         st: RegState)
    requires !cfg.crawlFrames
    requires forall i :: 0 <= i < |nodes| ==> nodes[i] < |doc.elements|
    ensures FramesF(cfg, env, doc, frame, nodes, st) == Out([], st)
  {
    if nodes != [] {
      FramesDisabled(cfg, env, doc, frame, nodes[1..], st);
    }
  }

  /** With frame crawling off, a rule yields only its own elements of the document. */
  lemma NoFrameCrawling(cfg: Config, env: Env, doc: Document, frame: string, rule: CrawlElement, st: RegState)
    requires !cfg.crawlFrames
    ensures RuleF(cfg, env, doc, frame, rule, st) == EvaluateElementsF(cfg, env, doc, frame, rule, st)
  {
    FramesDisabled(cfg, env, doc, frame, TagIndices(doc, "FRAME"), st);
    FramesDisabled(cfg, env, doc, frame, TagIndices(doc, "IFRAME"), st);
  }

  /** Rules are processed in their declared order: a list of rules is its first part, then its second. */
  lemma {:induction false} RulesConcat(cfg: Config, env: Env, doc: Document, frame: string,
                                      r1: seq<CrawlElement>, r2: seq<CrawlElement>, st: RegState)
    ensures var x := RulesF(cfg, env, doc, frame, r1, st);
            var y := RulesF(cfg, env, doc, frame, r2, x.reg);
            RulesF(cfg, env, doc, frame, r1 + r2, st) == Out(x.found + y.found, y.reg)
  {
    if r1 == [] {
      assert r1 + r2 == r2;
    } else {
      assert (r1 + r2)[0] == r1[0] && (r1 + r2)[1..] == r1[1..] + r2;
      var first := RuleF(cfg, env, doc, frame, r1[0], st);
      var rest := RulesF(cfg, env, doc, frame, r1[1..], first.reg);
      var y := RulesF(cfg, env, doc, frame, r2, rest.reg);
      RulesConcat(cfg, env, doc, frame, r1[1..], r2, first.reg);
      SeqAssoc(first.found, rest.found, y.found);
    }
  }

  // ---------------------------------------------------------------- frame paths of candidates

  /**
   * The frame paths an extraction of `doc` at path `frame` can reach: `frame`
   * itself and, for every FRAME and IFRAME element that is not skipped, the
   * paths reached in its document under its full path.
   */
  function FramePaths(cfg: Config, doc: Document, frame: string): set<string>
    decreases doc, 1
  {
    {frame} + FramePathsOf(cfg, doc, frame, TagIndices(doc, "FRAME"))
    + FramePathsOf(cfg, doc, frame, TagIndices(doc, "IFRAME"))
  }

  function FramePathsOf(cfg: Config, doc: Document, frame: string, nodes: seq<nat>): set<string>
    requires forall i :: 0 <= i < |nodes| ==> nodes[i] < |doc.elements|
    decreases doc, 0, |nodes|
  {
    if nodes == [] then {}
    else
      var e := doc.elements[nodes[0]];
      assert e in doc.elements;
      (if FrameSkipped(cfg, doc, frame, nodes[0]) then {}
       else FramePaths(cfg, e.frameDom.value, ChildFramePath(frame, e.frameName.value)))
      + FramePathsOf(cfg, doc, frame, nodes[1..])
  }

  /** No inclusion rule's condition links input fields, so no candidate comes from the form handler. */
  predicate NoLinkedInputs(env: Env, rules: seq<CrawlElement>)
  {
    forall rule :: rule in rules ==> !HasLinkedInputs(RuleCondition(env, rule))
  }

  lemma {:induction false} FramesInPaths(cfg: Config, env: Env, doc: Document, frame: string, nodes: seq<nat>,
                                        st: RegState)
    requires forall i :: 0 <= i < |nodes| ==> nodes[i] < |doc.elements|
    requires NoLinkedInputs(env, cfg.included)
    ensures FramesIn(FramesF(cfg, env, doc, frame, nodes, st).found, FramePathsOf(cfg, doc, frame, nodes))
    decreases doc, 0, |nodes|
  {
    if nodes != [] {
      var e := doc.elements[nodes[0]];
      assert e in doc.elements;
      var first := FrameF(cfg, env, doc, frame, nodes[0], st);
      if !FrameSkipped(cfg, doc, frame, nodes[0]) {
        ExtractElementsInPaths(cfg, env, e.frameDom.value, ChildFramePath(frame, e.frameName.value), st);
      }
      FramesInPaths(cfg, env, doc, frame, nodes[1..], first.reg);
      FramesInConcat(first.found, FramesF(cfg, env, doc, frame, nodes[1..], first.reg).found,
                     FramePathsOf(cfg, doc, frame, nodes));
    }
  }

  lemma {:induction false} RuleInPaths(cfg: Config, env: Env, doc: Document, frame: string, rule: CrawlElement,
                                      st: RegState)
    requires NoLinkedInputs(env, cfg.included) && !HasLinkedInputs(RuleCondition(env, rule))
    ensures FramesIn(RuleF(cfg, env, doc, frame, rule, st).found, FramePaths(cfg, doc, frame))
    decreases doc, 1
  {
    var paths := FramePaths(cfg, doc, frame);
    var frames := FramesF(cfg, env, doc, frame, TagIndices(doc, "FRAME"), st);
    var iframes := FramesF(cfg, env, doc, frame, TagIndices(doc, "IFRAME"), frames.reg);
    var nodes := SelectIndices(cfg.excluded, env, doc, rule, iframes.reg.checked);
    var own := EvaluateElementsF(cfg, env, doc, frame, rule, iframes.reg);
    FramesInPaths(cfg, env, doc, frame, TagIndices(doc, "FRAME"), st);
    FramesInPaths(cfg, env, doc, frame, TagIndices(doc, "IFRAME"), frames.reg);
    ElementsLoopInFrame(cfg.clickOnce, env, doc, frame, rule, nodes, iframes.reg.(counter := iframes.reg.counter + |nodes|));
    FramesInConcat(frames.found, iframes.found, paths);
    FramesInConcat(frames.found + iframes.found, own.found, paths);
  }

  lemma {:induction false} RulesInPaths(cfg: Config, env: Env, doc: Document, frame: string,
                                       rules: seq<CrawlElement>, st: RegState)
    requires NoLinkedInputs(env, cfg.included) && NoLinkedInputs(env, rules)
    ensures FramesIn(RulesF(cfg, env, doc, frame, rules, st).found, FramePaths(cfg, doc, frame))
    decreases doc, 2, |rules|
  {
    if rules != [] {
      var first := RuleF(cfg, env, doc, frame, rules[0], st);
      RuleInPaths(cfg, env, doc, frame, rules[0], st);
      RulesInPaths(cfg, env, doc, frame, rules[1..], first.reg);
      FramesInConcat(first.found, RulesF(cfg, env, doc, frame, rules[1..], first.reg).found, FramePaths(cfg, doc, frame));
    }
  }

  /**
   * When no inclusion rule links input fields, every candidate of a
   * document's extraction belongs to its own frame or to a frame reached
   * through frames that are not skipped.
   */
  lemma {:induction false} ExtractElementsInPaths(cfg: Config, env: Env, doc: Document, frame: string, st: RegState)
    requires NoLinkedInputs(env, cfg.included)
    ensures FramesIn(ExtractElementsF(cfg, env, doc, frame, st).found, FramePaths(cfg, doc, frame))
    decreases doc, 3
  {
    RulesInPaths(cfg, env, doc, frame, cfg.included, st);
  }

  /**
   * extract, when no inclusion rule links input fields: every candidate it
   * returns belongs to the page itself (path "") or to a frame reached from
   * it through frames that are not skipped.
   */
  lemma ExtractFramesReached(cfg: Config, env: Env, crawlConditionHolds: bool,
                             rootDom: Result<Document, IOException>, st: RegState)
    requires NoLinkedInputs(env, cfg.included)
    ensures var o := ExtractF(cfg, env, crawlConditionHolds, rootDom, st);
            o.result.Success? && rootDom.Success? ==> FramesIn(o.result.value, FramePaths(cfg, rootDom.value, ""))
  {
    if crawlConditionHolds && rootDom.Success? {
      ExtractElementsInPaths(cfg, env, rootDom.value, "", st);
    }
  }

  // ---------------------------------------------------------------- one loop step

  lemma FramesAt(cfg: Config, env: Env, doc: Document, frame: string, nodes: seq<nat>, i: nat, st: RegState)
    requires forall j :: 0 <= j < |nodes| ==> nodes[j] < |doc.elements|
    requires i < |nodes|
    ensures ValidIndices(doc, nodes[i..]) && ValidIndices(doc, nodes[i + 1..])
    ensures var first := FrameF(cfg, env, doc, frame, nodes[i], st);
            var rest := FramesF(cfg, env, doc, frame, nodes[i + 1..], first.reg);
            FramesF(cfg, env, doc, frame, nodes[i..], st) == Out(first.found + rest.found, rest.reg)
  {
    assert nodes[i..][0] == nodes[i] && nodes[i..][1..] == nodes[i + 1..];
  }

  lemma RulesAt(cfg: Config, env: Env, doc: Document, frame: string, rules: seq<CrawlElement>, i: nat, st: RegState)
    requires i < |rules|
    ensures var first := RuleF(cfg, env, doc, frame, rules[i], st);
            var rest := RulesF(cfg, env, doc, frame, rules[i + 1..], first.reg);
            RulesF(cfg, env, doc, frame, rules[i..], st) == Out(first.found + rest.found, rest.reg)
  {
    assert rules[i..][0] == rules[i] && rules[i..][1..] == rules[i + 1..];
  }
}
