/**
 * Turning selected elements into candidates, with the at-most-once gate
 * (CandidateElementExtractor.evaluateElement and evaluateElements).
 */
module Expansion {
  import opened Wrappers
  import opened Dom
  import opened Rules
  import opened Selection

  predicate HasLinkedInputs(cond: Option<EventableCondition>)
  {
    cond.Some? && cond.value.linkedInputFields.Some? && |cond.value.linkedInputFields.value| > 0
  }

  /** The single candidate of an element without linked input fields: found again by its XPath. */
  function DefaultCandidate(e: Element, frame: string): Candidate
  {
    Candidate(e, Identification(XPath, e.xpath), frame, [], None)
  }

  /** One candidate per input combination from the form handler, or the default candidate. */
  function BuildCandidates(env: Env, frame: string, cond: Option<EventableCondition>, e: Element)
    : Result<seq<Candidate>, Fault>
  {
    if HasLinkedInputs(cond) then env.formCandidates(e, cond.value)
    else Success([DefaultCandidate(e, frame)])
  }

  /**
   * Emitting built candidates: with click-once, a candidate is emitted only
   * when marking its key checked newly adds it; every emitted candidate gets
   * the rule's condition.
   */
  function Emit(clickOnce: bool, env: Env, cond: Option<EventableCondition>, cs: seq<Candidate>, st: RegState): Out
  {
    if cs == [] then Out([], st)
    else if !clickOnce then
      var rest := Emit(clickOnce, env, cond, cs[1..], st);
      Out([cs[0].(condition := cond)] + rest.found, rest.reg)
    else if Key(env, cs[0]) in st.checked then
      Emit(clickOnce, env, cond, cs[1..], st)
    else
      var rest := Emit(clickOnce, env, cond, cs[1..], st.(checked := st.checked + {Key(env, cs[0])}));
      Out([cs[0].(condition := cond)] + rest.found, rest.reg)
  }

  /** Expanding element `k`: fails when the form handler throws, and then nothing is emitted. */
  function EvaluateElementF(clickOnce: bool, env: Env, doc: Document, frame: string, rule: CrawlElement,
                            k: nat, st: RegState): Result<Out, Fault>
    requires k < |doc.elements|
  {
    var cond := RuleCondition(env, rule);
    match BuildCandidates(env, frame, cond, doc.elements[k])
    case Failure(f) => Failure(f)
    case Success(cs) => Success(Emit(clickOnce, env, cond, cs, st))
  }

  /** Expanding the selected elements in order; a throwing expansion ends the loop, keeping what came before. */
  function ElementsLoop(clickOnce: bool, env: Env, doc: Document, frame: string, rule: CrawlElement,
                        nodes: seq<nat>, st: RegState): Out
    requires forall i :: 0 <= i < |nodes| ==> nodes[i] < |doc.elements|
  {
    if nodes == [] then Out([], st)
    else
      match EvaluateElementF(clickOnce, env, doc, frame, rule, nodes[0], st)
      case Failure(_) => Out([], st)
      case Success(first) =>
        var rest := ElementsLoop(clickOnce, env, doc, frame, rule, nodes[1..], first.reg);
        Out(first.found + rest.found, rest.reg)
  }

  /** One rule's own elements in one document: select (counting each added element), then expand. */
  function EvaluateElementsF(cfg: Config, env: Env, doc: Document, frame: string, rule: CrawlElement,
                             st: RegState): Out
  {
    var nodes := SelectIndices(cfg.excluded, env, doc, rule, st.checked);
    ElementsLoop(cfg.clickOnce, env, doc, frame, rule, nodes, st.(counter := st.counter + |nodes|))
  }

  // ---------------------------------------------------------------- properties

  function WithCondition(cs: seq<Candidate>, cond: Option<EventableCondition>): (r: seq<Candidate>)
    ensures |r| == |cs|
  {
    seq(|cs|, i requires 0 <= i < |cs| => cs[i].(condition := cond))
  }

  function KeysOf(env: Env, cs: seq<Candidate>): set<string>
  {
    set i | 0 <= i < |cs| :: Key(env, cs[i])
  }

  /** Emitted candidates have keys that were not checked before and are checked after, each once. */
  predicate FreshAndDistinct(env: Env, found: seq<Candidate>, before: set<string>, after: set<string>)
  {
    && (forall i :: 0 <= i < |found| ==> Key(env, found[i]) !in before && Key(env, found[i]) in after)
    && (forall i, j :: 0 <= i < j < |found| ==> Key(env, found[i]) != Key(env, found[j]))
  }

  /**
   * What every piece of extraction keeps: the registry only grows; without
   * click-once the checked set is untouched; with it, every emitted candidate
   * was newly marked by this piece and no key is emitted twice.
   */
  predicate Sound(clickOnce: bool, env: Env, before: RegState, out: Out)
  {
    && before.checked <= out.reg.checked
    && before.counter <= out.reg.counter
    && (!clickOnce ==> out.reg.checked == before.checked)
    && (clickOnce ==> FreshAndDistinct(env, out.found, before.checked, out.reg.checked))
  }

  lemma SoundConcat(clickOnce: bool, env: Env, s0: RegState, a: Out, b: Out)
    requires Sound(clickOnce, env, s0, a) && Sound(clickOnce, env, a.reg, b)
    ensures Sound(clickOnce, env, s0, Out(a.found + b.found, b.reg))
  {
    if clickOnce {
      var f := a.found + b.found;
      forall i | 0 <= i < |f| ensures Key(env, f[i]) !in s0.checked && Key(env, f[i]) in b.reg.checked {
        if i < |a.found| {
          assert f[i] == a.found[i];
        } else {
          assert f[i] == b.found[i - |a.found|];
        }
      }
      forall i, j | 0 <= i < j < |f| ensures Key(env, f[i]) != Key(env, f[j]) {
        if j < |a.found| {
          assert f[i] == a.found[i] && f[j] == a.found[j];
        } else if i >= |a.found| {
          assert f[i] == b.found[i - |a.found|] && f[j] == b.found[j - |a.found|];
        } else {
          assert f[i] == a.found[i] && f[j] == b.found[j - |a.found|];
        }
      }
    }
  }

  /** Without click-once every built candidate is emitted, in order, and the registry is untouched. */
  lemma {:induction false} EmitAll(env: Env, cond: Option<EventableCondition>, cs: seq<Candidate>, st: RegState)
    ensures Emit(false, env, cond, cs, st) == Out(WithCondition(cs, cond), st)
  {
    if cs != [] {
      EmitAll(env, cond, cs[1..], st);
      assert WithCondition(cs, cond) == [cs[0].(condition := cond)] + WithCondition(cs[1..], cond);
    }
  }

  lemma KeysOfCons(env: Env, x: Candidate, rest: seq<Candidate>)
    ensures KeysOf(env, [x] + rest) == {Key(env, x)} + KeysOf(env, rest)
  {
    var cs := [x] + rest;
    forall y | y in KeysOf(env, cs) ensures y in {Key(env, x)} + KeysOf(env, rest) {
      var i :| 0 <= i < |cs| && y == Key(env, cs[i]);
      if i > 0 {
        assert cs[i] == rest[i - 1];
      }
    }
    forall y | y in KeysOf(env, rest) ensures y in KeysOf(env, cs) {
      var i :| 0 <= i < |rest| && y == Key(env, rest[i]);
      assert cs[i + 1] == rest[i];
    }
    assert cs[0] == x;
  }

  /**
   * With click-once, the emitted keys are exactly the built keys not checked
   * before, each emitted once, and every built key ends up checked; the
   * counter does not move.
   */
  lemma {:induction false} EmitClickOnce(env: Env, cond: Option<EventableCondition>, cs: seq<Candidate>, st: RegState)
    ensures var out := Emit(true, env, cond, cs, st);
            && Sound(true, env, st, out)
            && out.reg == RegState(st.checked + KeysOf(env, cs), st.counter)
            && KeysOf(env, out.found) == KeysOf(env, cs) - st.checked
  {
    if cs != [] {
      var c := cs[0];
      var k := Key(env, c);
      assert cs == [c] + cs[1..];
      KeysOfCons(env, c, cs[1..]);
      if k in st.checked {
        EmitClickOnce(env, cond, cs[1..], st);
      } else {
        var st1 := st.(checked := st.checked + {k});
        EmitClickOnce(env, cond, cs[1..], st1);
        var rest := Emit(true, env, cond, cs[1..], st1);
        var c' := c.(condition := cond);
        assert Emit(true, env, cond, cs, st) == Out([c'] + rest.found, rest.reg);
        SoundConcat(true, env, st, Out([c'], st1), rest);
        KeysOfCons(env, c', rest.found);
      }
    }
  }

  /**
   * The positions, from `i` on, that click-once lets through when the keys in
   * `seen` are already checked: a position is kept when its key has not been
   * seen, and its key is seen from then on.
   */
  function FreshFrom(env: Env, cs: seq<Candidate>, seen: set<string>, i: nat): (r: seq<nat>)
    requires i <= |cs|
    ensures forall j :: 0 <= j < |r| ==> i <= r[j] < |cs|
    ensures Increasing(r)
    decreases |cs| - i
  {
    if i == |cs| then []
    else if Key(env, cs[i]) in seen then FreshFrom(env, cs, seen, i + 1)
    else [i] + FreshFrom(env, cs, seen + {Key(env, cs[i])}, i + 1)
  }

  /** The built candidates at positions `idx`, each with the rule's condition attached. */
  function Pick(cs: seq<Candidate>, idx: seq<nat>, cond: Option<EventableCondition>): (r: seq<Candidate>)
    requires forall j :: 0 <= j < |idx| ==> idx[j] < |cs|
    ensures |r| == |idx|
  {
    seq(|idx|, j requires 0 <= j < |idx| => cs[idx[j]].(condition := cond))
  }

  lemma PickCons(cs: seq<Candidate>, i: nat, rest: seq<nat>, cond: Option<EventableCondition>)
    requires i < |cs| && forall j :: 0 <= j < |rest| ==> rest[j] < |cs|
    ensures Pick(cs, [i] + rest, cond) == [cs[i].(condition := cond)] + Pick(cs, rest, cond)
  {
    var l, r := Pick(cs, [i] + rest, cond), [cs[i].(condition := cond)] + Pick(cs, rest, cond);
    forall j | 0 <= j < |l| ensures l[j] == r[j] {
      if j > 0 {
        assert ([i] + rest)[j] == rest[j - 1];
      }
    }
  }

  /** Position `j` is kept iff its key is neither seen nor carried by a built candidate between `i` and `j`. */
  lemma {:induction false} FreshFromMeaning(env: Env, cs: seq<Candidate>, seen: set<string>, i: nat, j: nat)
    requires i <= |cs|
    ensures j in FreshFrom(env, cs, seen, i) <==> i <= j < |cs| && Key(env, cs[j]) !in seen + KeysOf(env, cs[i..j])
    decreases |cs| - i
  {
    if i < |cs| {
      var k := Key(env, cs[i]);
      var seen' := if k in seen then seen else seen + {k};
      FreshFromMeaning(env, cs, seen', i + 1, j);
      if j == i {
        assert KeysOf(env, cs[i..j]) == {};
      } else if i < j < |cs| {
        assert cs[i..j] == [cs[i]] + cs[i + 1..j];
        KeysOfCons(env, cs[i], cs[i + 1..j]);
      }
    }
  }

  /** Click-once emission from position `i` on is the pick of the positions `FreshFrom` keeps. */
  lemma {:induction false} EmitFresh(env: Env, cond: Option<EventableCondition>, cs: seq<Candidate>, st: RegState, i: nat)
    requires i <= |cs|
    ensures Emit(true, env, cond, cs[i..], st).found == Pick(cs, FreshFrom(env, cs, st.checked, i), cond)
    decreases |cs| - i
  {
    if i < |cs| {
      var k := Key(env, cs[i]);
      EmitAt(true, env, cond, cs, i, st);
      if k in st.checked {
        EmitFresh(env, cond, cs, st, i + 1);
      } else {
        var st1 := st.(checked := st.checked + {k});
        EmitFresh(env, cond, cs, st1, i + 1);
        PickCons(cs, i, FreshFrom(env, cs, st1.checked, i + 1), cond);
      }
    }
  }

  /**
   * With click-once the emitted candidates are built candidates with the
   * condition attached, taken in order at increasing positions: exactly the
   * positions whose key is neither checked before nor carried by an earlier
   * built candidate.
   */
  lemma EmitClickOnceOrder(env: Env, cond: Option<EventableCondition>, cs: seq<Candidate>, st: RegState)
    ensures var idx := FreshFrom(env, cs, st.checked, 0);
            && Increasing(idx)
            && Emit(true, env, cond, cs, st).found == Pick(cs, idx, cond)
            && forall i: nat :: i in idx <==> i < |cs| && Key(env, cs[i]) !in st.checked + KeysOf(env, cs[..i])
  {
    var idx := FreshFrom(env, cs, st.checked, 0);
    EmitFresh(env, cond, cs, st, 0);
    assert cs[0..] == cs;
    forall i: nat ensures i in idx <==> i < |cs| && Key(env, cs[i]) !in st.checked + KeysOf(env, cs[..i]) {
      FreshFromMeaning(env, cs, st.checked, 0, i);
      if i < |cs| {
        assert cs[0..i] == cs[..i];
      }
    }
  }

  /** Every emitted candidate carries the rule's eventable condition. */
  lemma {:induction false} EmitCarriesCondition(clickOnce: bool, env: Env, cond: Option<EventableCondition>,
                                               cs: seq<Candidate>, st: RegState)
    ensures forall i :: 0 <= i < |Emit(clickOnce, env, cond, cs, st).found| ==>
                        Emit(clickOnce, env, cond, cs, st).found[i].condition == cond
  {
    if cs != [] {
      EmitCarriesCondition(clickOnce, env, cond, cs[1..], st);
      EmitCarriesCondition(clickOnce, env, cond, cs[1..], st.(checked := st.checked + {Key(env, cs[0])}));
    }
  }

  lemma EmitSound(clickOnce: bool, env: Env, cond: Option<EventableCondition>, cs: seq<Candidate>, st: RegState)
    ensures Sound(clickOnce, env, st, Emit(clickOnce, env, cond, cs, st))
    ensures Emit(clickOnce, env, cond, cs, st).reg.counter == st.counter
  {
    if clickOnce {
      EmitClickOnce(env, cond, cs, st);
    } else {
      EmitAll(env, cond, cs, st);
    }
  }

  /**
   * An element without linked input fields yields its one default candidate:
   * identified by its XPath, in the current frame, carrying the rule's
   * condition; it is emitted unless click-once holds and its key is already
   * checked.
   */
  lemma DefaultExpansion(clickOnce: bool, env: Env, doc: Document, frame: string, rule: CrawlElement,
                         k: nat, st: RegState)
    requires k < |doc.elements|
    requires !HasLinkedInputs(RuleCondition(env, rule))
    ensures var c := DefaultCandidate(doc.elements[k], frame);
            var r := EvaluateElementF(clickOnce, env, doc, frame, rule, k, st);
            && r.Success?
            && r.value.found == (if clickOnce && Key(env, c) in st.checked then []
                                 else [c.(condition := RuleCondition(env, rule))])
            && (forall i :: 0 <= i < |r.value.found| ==>
                  r.value.found[i].identification == Identification(XPath, doc.elements[k].xpath)
                  && r.value.found[i].relatedFrame == frame)
  {
    var cond := RuleCondition(env, rule);
    var c := DefaultCandidate(doc.elements[k], frame);
    assert BuildCandidates(env, frame, cond, doc.elements[k]) == Success([c]);
    assert [c][1..] == [];
    var st1 := if clickOnce && Key(env, c) !in st.checked then st.(checked := st.checked + {Key(env, c)}) else st;
    assert Emit(clickOnce, env, cond, [], st1) == Out([], st1);
  }

  lemma {:induction false} ElementsLoopSound(clickOnce: bool, env: Env, doc: Document, frame: string,
                                            rule: CrawlElement, nodes: seq<nat>, st: RegState)
    requires forall i :: 0 <= i < |nodes| ==> nodes[i] < |doc.elements|
    ensures Sound(clickOnce, env, st, ElementsLoop(clickOnce, env, doc, frame, rule, nodes, st))
    ensures ElementsLoop(clickOnce, env, doc, frame, rule, nodes, st).reg.counter == st.counter
  {
    if nodes != [] {
      var r := EvaluateElementF(clickOnce, env, doc, frame, rule, nodes[0], st);
      if r.Success? {
        var cond := RuleCondition(env, rule);
        var cs := BuildCandidates(env, frame, cond, doc.elements[nodes[0]]).value;
        EmitSound(clickOnce, env, cond, cs, st);
        ElementsLoopSound(clickOnce, env, doc, frame, rule, nodes[1..], r.value.reg);
        SoundConcat(clickOnce, env, st, r.value, ElementsLoop(clickOnce, env, doc, frame, rule, nodes[1..], r.value.reg));
      }
    }
  }

  /** The registry counter rises by exactly the number of elements the rule selects. */
  lemma EvaluateElementsSound(cfg: Config, env: Env, doc: Document, frame: string, rule: CrawlElement, st: RegState)
    ensures Sound(cfg.clickOnce, env, st, EvaluateElementsF(cfg, env, doc, frame, rule, st))
    ensures EvaluateElementsF(cfg, env, doc, frame, rule, st).reg.counter
            == st.counter + |SelectIndices(cfg.excluded, env, doc, rule, st.checked)|
  {
    var nodes := SelectIndices(cfg.excluded, env, doc, rule, st.checked);
    var st1 := st.(counter := st.counter + |nodes|);
    EvaluateElementsIs(cfg, env, doc, frame, rule, st);
    ElementsLoopSound(cfg.clickOnce, env, doc, frame, rule, nodes, st1);
  }

  // ---------------------------------------------------------------- frames of candidates

  /** Every candidate in `found` belongs to one of the frame paths `paths`. */
  predicate FramesIn(found: seq<Candidate>, paths: set<string>)
  {
    forall i :: 0 <= i < |found| ==> found[i].relatedFrame in paths
  }

  lemma FramesInConcat(a: seq<Candidate>, b: seq<Candidate>, paths: set<string>)
    requires FramesIn(a, paths) && FramesIn(b, paths)
    ensures FramesIn(a + b, paths)
  {
    forall i | 0 <= i < |a + b| ensures (a + b)[i].relatedFrame in paths {
      if i >= |a| {
        assert (a + b)[i] == b[i - |a|];
      }
    }
  }

  /** Emitting keeps each built candidate's frame: only the condition is attached. */
  lemma {:induction false} EmitKeepsFrames(clickOnce: bool, env: Env, cond: Option<EventableCondition>,
                                          cs: seq<Candidate>, st: RegState, paths: set<string>)
    requires FramesIn(cs, paths)
    ensures FramesIn(Emit(clickOnce, env, cond, cs, st).found, paths)
  {
    if cs != [] {
      var st1 := st.(checked := st.checked + {Key(env, cs[0])});
      EmitKeepsFrames(clickOnce, env, cond, cs[1..], st, paths);
      EmitKeepsFrames(clickOnce, env, cond, cs[1..], st1, paths);
      FramesInConcat([cs[0].(condition := cond)], Emit(clickOnce, env, cond, cs[1..], st).found, paths);
      FramesInConcat([cs[0].(condition := cond)], Emit(clickOnce, env, cond, cs[1..], st1).found, paths);
    }
  }

  /** Without linked input fields, every candidate of a rule's own elements belongs to the current frame. */
  lemma {:induction false} ElementsLoopInFrame(clickOnce: bool, env: Env, doc: Document, frame: string,
                                              rule: CrawlElement, nodes: seq<nat>, st: RegState)
    requires forall i :: 0 <= i < |nodes| ==> nodes[i] < |doc.elements|
    requires !HasLinkedInputs(RuleCondition(env, rule))
    ensures FramesIn(ElementsLoop(clickOnce, env, doc, frame, rule, nodes, st).found, {frame})
  {
    if nodes != [] {
      var cond := RuleCondition(env, rule);
      var c := DefaultCandidate(doc.elements[nodes[0]], frame);
      assert BuildCandidates(env, frame, cond, doc.elements[nodes[0]]) == Success([c]);
      EmitKeepsFrames(clickOnce, env, cond, [c], st, {frame});
      var first := Emit(clickOnce, env, cond, [c], st);
      ElementsLoopInFrame(clickOnce, env, doc, frame, rule, nodes[1..], first.reg);
      FramesInConcat(first.found, ElementsLoop(clickOnce, env, doc, frame, rule, nodes[1..], first.reg).found, {frame});
    }
  }

  // ---------------------------------------------------------------- one loop step

  lemma EmitAt(clickOnce: bool, env: Env, cond: Option<EventableCondition>, cs: seq<Candidate>, i: nat, st: RegState)
    requires i < |cs|
    ensures var c := cs[i];
            var rest := Emit(clickOnce, env, cond, cs[i + 1..], if clickOnce then st.(checked := st.checked + {Key(env, c)}) else st);
            Emit(clickOnce, env, cond, cs[i..], st)
            == if clickOnce && Key(env, c) in st.checked then Emit(clickOnce, env, cond, cs[i + 1..], st)
               else Out([c.(condition := cond)] + rest.found, rest.reg)
  {
    assert cs[i..][0] == cs[i] && cs[i..][1..] == cs[i + 1..];
  }

  lemma ElementsAt(clickOnce: bool, env: Env, doc: Document, frame: string, rule: CrawlElement,
                   nodes: seq<nat>, i: nat, st: RegState)
    requires ValidIndices(doc, nodes)
    requires i < |nodes|
    ensures ValidIndices(doc, nodes[i..]) && ValidIndices(doc, nodes[i + 1..])
    ensures var ev := EvaluateElementF(clickOnce, env, doc, frame, rule, nodes[i], st);
            ev.Failure? ==> ElementsLoop(clickOnce, env, doc, frame, rule, nodes[i..], st) == Out([], st)
    ensures var ev := EvaluateElementF(clickOnce, env, doc, frame, rule, nodes[i], st);
            ev.Success? ==>
              var rest := ElementsLoop(clickOnce, env, doc, frame, rule, nodes[i + 1..], ev.value.reg);
              ElementsLoop(clickOnce, env, doc, frame, rule, nodes[i..], st) == Out(ev.value.found + rest.found, rest.reg)
  {
    assert nodes[i..][0] == nodes[i] && nodes[i..][1..] == nodes[i + 1..];
  }

  /** The own elements of a rule: the selection judged on the checked set, counted, then expanded. */
  lemma EvaluateElementsIs(cfg: Config, env: Env, doc: Document, frame: string, rule: CrawlElement, st: RegState)
    ensures var nodes := SelectIndices(cfg.excluded, env, doc, rule, st.checked);
            && ValidIndices(doc, nodes)
            && EvaluateElementsF(cfg, env, doc, frame, rule, st)
               == ElementsLoop(cfg.clickOnce, env, doc, frame, rule, nodes, RegState(st.checked, st.counter + |nodes|))
  {
  }
}
