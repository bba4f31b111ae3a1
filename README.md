# CandidateElementExtractor: a Dafny model

This project models crawljax's `CandidateElementExtractor`. It is the part of the
crawler that looks at the current page and decides which elements are candidate
actions to try next. For every inclusion rule, in declared order, the extractor does
three things:

- It descends into the page's FRAME and IFRAME elements. Each frame has a dotted
  frame path. It skips frames whose path matches an ignore pattern, frames without
  an identification and frames whose document cannot be read.
- It selects the elements with the rule's tag that pass these tests: they lie in the
  rule's XPath scope, they are not yet checked in the shared registry, they are not
  excluded (directly or through an ancestor), and, when the rule's tag is `A` (in
  any case), they are not anchors pointing at a download or a `mailto:` link.
- It expands each selected element into candidates. An element whose rule has
  linked input fields gets one candidate per form-input combination. Any other
  element gets a single candidate identified by its XPath. With click-once on, a
  candidate is emitted only when marking it checked is new.

The model has two layers:

- Specification functions on values, such as `Extraction.ExtractF`,
  `Extraction.RuleF`, `Selection.SelectIndices` and `Expansion.Emit`. The registry
  is passed through them as a value.
- The class `Extractor.CandidateElementExtractor`. Its methods are the source's
  methods, written loop by loop. They work on a shared `Registry.ExtractorManager`
  object, and each one is proved to compute its specification function, registry
  included.

The lemmas then prove these properties:

- the extraction keeps the registry append-only;
- with click-once, a candidate key is never emitted twice, even across two
  extractions in a row;
- the frame ignore rules work as stated, and a skipped frame is passed over;
- the href filter behaves as stated;
- exclusion is inherited by descendants;
- the element filter selects exactly the right elements, in document order.

Modules, one file each:

| file | module | what it holds |
|---|---|---|
| wrappers.dfy | Wrappers | `Option`, `Result` |
| dom.dfy | Dom | documents, elements referred to by index, `getElementsByTagName`, `getAttribute` |
| rules.dfy | Rules | crawl rules, conditions, candidates, configuration, the collaborators as function values |
| java_regex.dfy | JavaRegex | the part of `java.util.regex` the extractor relies on (literals, `.`, `.*`) |
| frame_ignore.dfy | FrameIgnore | frame paths and the ignore check |
| hrefs.dfy | Hrefs | the download and `mailto:` filter for anchors |
| scope.dfy | Scope | resolving and checking a rule's in-XPath scope |
| exclusion.dfy | Exclusion | exclusion by the exclude rules, inherited down the tree |
| selection.dfy | Selection | which elements a rule selects |
| expansion.dfy | Expansion | candidates for a selected element, the click-once gate, soundness |
| extraction.dfy | Extraction | what a whole extraction computes, frames and rule order |
| registry.dfy | Registry | the checked-elements registry as a class |
| extractor.dfy | Extractor | the extractor class and its methods |

Behaviour of the code that the model keeps:

- The ignore pattern `"top.%"` becomes the regular expression `top..*`. The `.` is
  not escaped, so the pattern also ignores `"topside"`
  (`FrameIgnore.TopWildcardUnescapedDot`).
- Inside each rule, the frames are extracted before the rule's own elements. The
  frame descent is repeated for every inclusion rule, and each frame's document is
  extracted again with all the rules. With N inclusion rules, a frame nested d
  levels deep is therefore extracted N^d times. Without click-once, each of these
  extractions adds that frame's candidates to the result again, so they appear
  repeated; with click-once, only the first occurrence of each key is returned.
- When the scope XPath cannot be resolved, the code continues with an empty list of
  scope expressions, and it still asks the checker whether the element lies under
  that empty list.
- The exclude rules are filed under `getTagName()` and looked up by the element's
  tag upper-cased. A rule whose `getTagName()` is not upper case never matches.
- An anchor's href is ignored if it matches `.+.pdf|.+.ps|.+.zip|.+.mp3`. This is
  case-sensitive, and each `.` matches any character except a line terminator.

The specification functions that only compute carry no contract of their own; the
lemmas named below state what they mean:

| function | characterised by |
|---|---|
| `Exclusion.IsExcluded` | `Exclusion.ExclusionWitness`, `Exclusion.AncestorExclusion`, `Exclusion.NoRulesNoExclusion` |
| `FrameIgnore.PatternMatches`, `FrameIgnore.IsFrameIgnored` | `FrameIgnore.OneWildcard` and the `TopWildcard` examples; `Extractor.CandidateElementExtractor.IsFrameIgnoredCheck` |
| `Selection.SelectIndices`, `Rules.Fingerprint` | `Selection.SelectionMeaning` (an element is unchecked when its fingerprint is not in the checked set) |
| `Expansion.Emit` | `Expansion.EmitAll`, `Expansion.EmitClickOnce`, `Expansion.EmitClickOnceOrder`, `Expansion.EmitCarriesCondition`, `Expansion.EmitKeepsFrames` |
| `Expansion.EvaluateElementF`, `Expansion.EvaluateElementsF`, `Expansion.ElementsLoop` | `Expansion.DefaultExpansion`, `Expansion.ElementsLoopSound`, `Expansion.EvaluateElementsSound`, `Expansion.ElementsLoopInFrame` |
| `Extraction.FramesF`, `Extraction.RuleF`, `Extraction.RulesF`, `Extraction.ExtractElementsF` | the `Sound` and `InPaths` lemmas of Extraction, `Extraction.FramesConcat`, `Extraction.RulesConcat`, `Extraction.SkippedFramePassedOver`, `Extraction.NoFrameCrawling` |
| `Extraction.ExtractF` | `Extraction.ExtractContract`, `Extraction.ExtractTwiceDisjoint`, `Extraction.ExtractFramesReached` |

## Model

| member | source | states |
|---|---|---|
| Dom.TagIndices | core/src/main/java/com/crawljax/core/CandidateElementExtractor.java:248 | getElementsByTagName: every returned index names an element with the tag, every such element is returned, in increasing document order |
| Dom.AttributeValue | core/src/main/java/com/crawljax/core/CandidateElementExtractor.java:316 | getAttribute: the value of the first attribute with the name; "" when there is none (null read as empty) |
| FrameIgnore.ChildFramePath | core/src/main/java/com/crawljax/core/CandidateElementExtractor.java:164-179 | the frame path is the name alone at top level, else parent path, '.', name, piece by piece |
| FrameIgnore.OneWildcard | core/src/main/java/com/crawljax/core/CandidateElementExtractor.java:198-201 | a pattern `pre%post` ignores a path iff `pre` and `post` match its two ends position by position (`.` any non-line-terminator) and what lies between has no line terminator |
| FrameIgnore.TopWildcardMatches | core/src/main/java/com/crawljax/core/CandidateElementExtractor.java:198-202 | "top.%" ignores "top.nav" |
| FrameIgnore.TopWildcardUnescapedDot | core/src/main/java/com/crawljax/core/CandidateElementExtractor.java:200-201 | "top.%" also ignores "topside", because `.` is left unescaped |
| FrameIgnore.TopWildcardNested | core/src/main/java/com/crawljax/core/CandidateElementExtractor.java:198-202 | "top.%" ignores the nested path "top.nav.ad" |
| FrameIgnore.TopWildcardMisses | core/src/main/java/com/crawljax/core/CandidateElementExtractor.java:198-202 | "top.%" ignores neither "top" nor "nav.top" |
| JavaRegex.FixedMatch | core/src/main/java/com/crawljax/core/CandidateElementExtractor.java:201 | a whole-string match of a pattern without `.*` is a position-by-position acceptance of a string of the same length |
| JavaRegex.StarSplit | core/src/main/java/com/crawljax/core/CandidateElementExtractor.java:201 | `.*q` matches iff some line-terminator-free prefix is followed by a match of `q` |
| JavaRegex.PrefixSplit | core/src/main/java/com/crawljax/core/CandidateElementExtractor.java:201 | a starless prefix of a pattern consumes exactly its length of the input |
| JavaRegex.StarThenFixed | core/src/main/java/com/crawljax/core/CandidateElementExtractor.java:201 | `.*q` with `q` starless matches iff the last `|q|` characters are accepted by `q` and the rest has no line terminator |
| JavaRegex.StarMiddle | core/src/main/java/com/crawljax/core/CandidateElementExtractor.java:201 | `p.*q` with `p`, `q` starless matches iff `p` and `q` accept the two ends and the middle has no line terminator |
| Hrefs.DownloadPatternMeaning | core/src/main/java/com/crawljax/core/CandidateElementExtractor.java:326-329 | `.+.ext` matches iff the href ends in `ext` after at least two characters, none a line terminator |
| Hrefs.IsFileForDownloading | core/src/main/java/com/crawljax/core/CandidateElementExtractor.java:325-334 | isFileForDownloading holds iff the href ends in pdf, ps, zip or mp3 (case-sensitively) after at least two characters, none a line terminator |
| Hrefs.HrefShouldBeIgnored | core/src/main/java/com/crawljax/core/CandidateElementExtractor.java:315-318 | an anchor is dropped iff its href names such a download or starts with `mailto:`; a missing href (read as "") is never dropped |
| Hrefs.HrefExamples | core/src/main/java/com/crawljax/core/CandidateElementExtractor.java:315-334 | "file.pdf" is a download; "file.PDF" and ".pdf" are not; an anchor with href "mailto:x@y.com" is dropped and one with href "page.html" is not |
| Scope.ScopeExpressions | core/src/main/java/com/crawljax/core/CandidateElementExtractor.java:289-304 | no in-XPath or a resolution failure gives []; a successful resolution gives exactly the XPaths it returned |
| Scope.ElementMatchesScope | core/src/main/java/com/crawljax/core/CandidateElementExtractor.java:273-287 | without an in-XPath every element matches; with one, it matches iff the checker returns true (a throw counts as no match) |
| Exclusion.ParentIndex | core/src/main/java/com/crawljax/core/CandidateElementExtractor.java:383-385 | there is a parent element exactly when the parent node is an element earlier in the document, and then it is that element |
| Exclusion.AncestorExclusion | core/src/main/java/com/crawljax/core/CandidateElementExtractor.java:375-388 | every descendant of an excluded element is excluded |
| Exclusion.ExclusionWitness | core/src/main/java/com/crawljax/core/CandidateElementExtractor.java:380-413 | an element is excluded iff an exclude rule matches it or one of its ancestors |
| Exclusion.NoRulesNoExclusion | core/src/main/java/com/crawljax/core/CandidateElementExtractor.java:390-412 | without exclude rules nothing is excluded |
| Selection.FilterRetainedSound | core/src/main/java/com/crawljax/core/CandidateElementExtractor.java:250-270 | every selected index comes from the tag's node list and passes all four filters |
| Selection.FilterRetainedComplete | core/src/main/java/com/crawljax/core/CandidateElementExtractor.java:250-270 | every node that passes all four filters is selected |
| Selection.FilterRetainedOrdered | core/src/main/java/com/crawljax/core/CandidateElementExtractor.java:250-270 | the selection keeps the node list's order |
| Selection.SelectionMeaning | core/src/main/java/com/crawljax/core/CandidateElementExtractor.java:232-271 | a rule without tag selects nothing; otherwise `k` is selected iff it has the tag, is in scope, is unchecked, is not excluded and is not a dropped anchor; the selection is in document order |
| Selection.SelectIndices | core/src/main/java/com/crawljax/core/CandidateElementExtractor.java:232-271 | every selected index names an element of the document (what is selected: `SelectionMeaning`) |
| Expansion.EmitAll | core/src/main/java/com/crawljax/core/CandidateElementExtractor.java:358-363 | without click-once every built candidate is emitted in order with the condition attached, and the registry is untouched |
| Expansion.EmitClickOnce | core/src/main/java/com/crawljax/core/CandidateElementExtractor.java:358-372 | with click-once the emitted keys are exactly the built keys not checked before, each once; afterwards all built keys are checked; the counter does not move |
| Expansion.FreshFrom | core/src/main/java/com/crawljax/core/CandidateElementExtractor.java:358-359 | the positions click-once keeps lie in the built list and increase |
| Expansion.FreshFromMeaning | core/src/main/java/com/crawljax/core/CandidateElementExtractor.java:358-359 | a position is kept iff its key is neither checked nor carried by an earlier built candidate |
| Expansion.EmitFresh | core/src/main/java/com/crawljax/core/CandidateElementExtractor.java:358-363 | click-once emission is the kept positions' candidates, in order, each with the condition attached |
| Expansion.EmitClickOnceOrder | core/src/main/java/com/crawljax/core/CandidateElementExtractor.java:358-363 | with click-once the emitted candidates are the built ones with the condition attached, at increasing positions: exactly those whose key is neither checked before nor carried by an earlier built candidate |
| Expansion.EmitCarriesCondition | core/src/main/java/com/crawljax/core/CandidateElementExtractor.java:362 | every emitted candidate carries the rule's eventable condition |
| Expansion.EmitSound | core/src/main/java/com/crawljax/core/CandidateElementExtractor.java:358-372 | emitting keeps the registry append-only, checked set untouched without click-once, fresh and distinct keys with it |
| Expansion.EmitKeepsFrames | core/src/main/java/com/crawljax/core/CandidateElementExtractor.java:358-363 | emitting keeps every candidate's frame: the emitted ones lie in the frames the built ones lie in |
| Expansion.ElementsLoopInFrame | core/src/main/java/com/crawljax/core/CandidateElementExtractor.java:345-356 | without linked input fields every candidate of a rule's own elements belongs to the current frame |
| Expansion.SoundConcat | core/src/main/java/com/crawljax/core/CandidateElementExtractor.java:139-153 | two sound pieces of extraction in sequence are sound together |
| Expansion.DefaultExpansion | core/src/main/java/com/crawljax/core/CandidateElementExtractor.java:345-356 | an element without linked inputs yields its one XPath-identified candidate in the current frame, unless click-once holds and it is checked |
| Expansion.ElementsLoopSound | core/src/main/java/com/crawljax/core/CandidateElementExtractor.java:221-223 | expanding the selected elements is sound and leaves the counter alone |
| Expansion.EvaluateElementsSound | core/src/main/java/com/crawljax/core/CandidateElementExtractor.java:214-227 | one rule's own elements are sound, and the counter rises by exactly the number of elements selected |
| Extraction.FrameSound | core/src/main/java/com/crawljax/core/CandidateElementExtractor.java:170-191 | extracting one frame is sound |
| Extraction.FramesSound | core/src/main/java/com/crawljax/core/CandidateElementExtractor.java:162-192 | the frame loop is sound |
| Extraction.RuleSound | core/src/main/java/com/crawljax/core/CandidateElementExtractor.java:143-151 | one inclusion rule (frames, iframes, own elements) is sound |
| Extraction.RulesSound | core/src/main/java/com/crawljax/core/CandidateElementExtractor.java:142-152 | the loop over inclusion rules is sound |
| Extraction.ExtractElementsSound | core/src/main/java/com/crawljax/core/CandidateElementExtractor.java:139-153 | extracting a document keeps the registry append-only; with click-once every returned candidate was newly marked and no key repeats |
| Extraction.ExtractContract | core/src/main/java/com/crawljax/core/CandidateElementExtractor.java:117-137 | a failed crawl condition gives [] with the registry untouched; an unreadable root gives a CrawljaxException, registry untouched; otherwise the root's extraction at path "", which is sound |
| Extraction.ExtractTwiceDisjoint | core/src/main/java/com/crawljax/core/CandidateElementExtractor.java:358-359 | with click-once, two successive extractions never return candidates with equal keys |
| Extraction.SkippedFrameContributesNothing | core/src/main/java/com/crawljax/core/CandidateElementExtractor.java:176-191 | a skipped frame yields nothing and leaves the registry alone; any other frame yields its document's extraction under its full path |
| Extraction.FramesInPaths | core/src/main/java/com/crawljax/core/CandidateElementExtractor.java:162-192 | without linked input fields, the frame loop's candidates belong to the frames reached through those of its frame elements that are not skipped |
| Extraction.RuleInPaths | core/src/main/java/com/crawljax/core/CandidateElementExtractor.java:143-151 | without linked input fields, one inclusion rule's candidates belong to the document's frame or a frame reached through non-skipped frames |
| Extraction.RulesInPaths | core/src/main/java/com/crawljax/core/CandidateElementExtractor.java:142-152 | without linked input fields, the loop over inclusion rules gives candidates of the document's frame or of frames reached through non-skipped frames |
| Extraction.ExtractElementsInPaths | core/src/main/java/com/crawljax/core/CandidateElementExtractor.java:139-153 | without linked input fields, extracting a document at a frame path gives candidates of that frame or of frames reached through non-skipped FRAME and IFRAME elements, each at its full dotted path |
| Extraction.ExtractFramesReached | core/src/main/java/com/crawljax/core/CandidateElementExtractor.java:117-137 | when no inclusion rule links input fields, every candidate extract returns belongs to the page ("") or to a frame reached through frames that are not skipped |
| Extraction.FramesConcat | core/src/main/java/com/crawljax/core/CandidateElementExtractor.java:162-192 | frames are processed in order: the loop over `a + b` is the loop over `a`, then over `b` |
| Extraction.SkippedFramePassedOver | core/src/main/java/com/crawljax/core/CandidateElementExtractor.java:176-190 | a skipped frame among siblings changes nothing: the siblings yield the same as without it |
| Extraction.FramesDisabled | core/src/main/java/com/crawljax/core/CandidateElementExtractor.java:195-211 | with frame crawling off the frame loop yields nothing and leaves the registry alone |
| Extraction.NoFrameCrawling | core/src/main/java/com/crawljax/core/CandidateElementExtractor.java:142-152 | with frame crawling off a rule yields exactly its own elements of the document |
| Extraction.RulesConcat | core/src/main/java/com/crawljax/core/CandidateElementExtractor.java:142-152 | rules are processed in declared order: the rules `r1 + r2` are `r1`, then `r2` |
| Registry.ExtractorManager.IsChecked | core/src/main/java/com/crawljax/core/CandidateElementExtractor.java:263 | true iff the fingerprint is checked |
| Registry.ExtractorManager.MarkChecked | core/src/main/java/com/crawljax/core/CandidateElementExtractor.java:359 | adds the key and returns true iff it was not checked before; the counter is untouched |
| Registry.ExtractorManager.IncreaseElementsCounter | core/src/main/java/com/crawljax/core/CandidateElementExtractor.java:312 | the counter rises by one; nothing else changes |
| Extractor.CandidateElementExtractor.constructor | core/src/main/java/com/crawljax/core/CandidateElementExtractor.java:72-99 | the included rules are the pre-crawl ones followed by the input specification's; the exclude rules, frame flags, click-once flag and ignore patterns are those configured |
| Extractor.CandidateElementExtractor.Extract | core/src/main/java/com/crawljax/core/CandidateElementExtractor.java:117-137 | returns, and leaves the registry in, exactly what `ExtractF` gives from the registry before |
| Extractor.CandidateElementExtractor.ExtractElements | core/src/main/java/com/crawljax/core/CandidateElementExtractor.java:139-153 | appends `ExtractElementsF`'s candidates to the builder and leaves the registry as it says |
| Extractor.CandidateElementExtractor.AddFramesCandidates | core/src/main/java/com/crawljax/core/CandidateElementExtractor.java:155-193 | appends `FramesF`'s candidates for the frame nodes and leaves the registry as it says |
| Extractor.CandidateElementExtractor.IsFrameIgnoredCheck | core/src/main/java/com/crawljax/core/CandidateElementExtractor.java:195-212 | the loop over the ignore patterns returns exactly `IsFrameIgnored` |
| Extractor.CandidateElementExtractor.EvaluateElements | core/src/main/java/com/crawljax/core/CandidateElementExtractor.java:214-227 | appends `EvaluateElementsF`'s candidates and leaves the registry as it says |
| Extractor.CandidateElementExtractor.EvaluateEach | core/src/main/java/com/crawljax/core/CandidateElementExtractor.java:221-226 | the element loop appends `ElementsLoop`'s candidates, stopping at the first CrawljaxException |
| Extractor.CandidateElementExtractor.GetNodeListForTagElement | core/src/main/java/com/crawljax/core/CandidateElementExtractor.java:232-271 | returns `SelectIndices` judged on the checked set before; the checked set is untouched and the counter rises by the number returned |
| Extractor.CandidateElementExtractor.ConsiderElement | core/src/main/java/com/crawljax/core/CandidateElementExtractor.java:252-268 | the element is appended and counted iff it is retained; otherwise nothing changes |
| Extractor.CandidateElementExtractor.AddElement | core/src/main/java/com/crawljax/core/CandidateElementExtractor.java:306-313 | a dropped anchor is neither added nor counted; any other element is appended and counted once |
| Extractor.CandidateElementExtractor.IsExcludedCheck | core/src/main/java/com/crawljax/core/CandidateElementExtractor.java:380-413 | returns exactly `IsExcluded`: the parent's exclusion, else a matching rule filed under the upper-cased tag |
| Extractor.CandidateElementExtractor.EvaluateElement | core/src/main/java/com/crawljax/core/CandidateElementExtractor.java:336-373 | a throwing form handler gives the failure with the registry untouched; otherwise appends `Emit`'s candidates and leaves the registry as it says |

## Left out

- Logging and the `System.err` line in evaluateElement are left out. They do not affect any result.
- Concurrency is left out. The registry is shared between crawler threads, and the gap between `isChecked` and a later `markChecked` is a race in the source. The model runs one extraction at a time.
- The browser is replaced by parameters:
  - the crawl condition's verdict and the root DOM (or its IOException) are arguments of `Extract`;
  - `checkCrawlCondition` (the public delegation at the end of the class) is not modelled apart from that argument;
  - a frame's identification and its document (or the IOException fetching it) are data on the frame element, not fetched by path.
- DOM parsing, serialisation and XPath evaluation are collaborators given as function values:
  - XPath resolution, the under-XPaths check, the starts-with check, attribute serialisation, the form handler and candidate unique strings;
  - `XPathHelper.getXPathExpression` is a field of the element.
- `getElementsByTagName` is modelled as an exact tag match plus `"*"`.
- `String.toUpperCase` is modelled on the ASCII letters only.
- Java regular expressions are modelled only for what the extractor's patterns use: literal characters, `.` and `.*`. Java's other metacharacters are not, so an ignore pattern containing `%` together with `[`, `(`, `+`, `?`, `\` and the like is read literally. Such a pattern may not compile in the source, or may mean more there.
- The `frameNodes == null` check in addFramesCandidates is left out, because `getElementsByTagName` never returns null.
- Elements are referred to by their index in document order. Parent links that do not point to an earlier element are read as "no parent element".
- Extractor.CandidateElementExtractor.constructor: requires every exclude rule to have a tag name. The source's multimap builder throws a NullPointerException on a null key; that throw is not modelled as a result.
- Registry.ExtractorManager.MarkChecked: modelled as a plain set insertion, not an atomic check-and-set. The real ExtractorManager class is not part of this model; Registry models only the calls the extractor makes on it.
- Extraction.ExtractFramesReached: holds only when no inclusion rule's condition links input fields. Candidates built by the form handler (`getCandidateElementsForInputs`, line 351) are not given the frame path, and carry whatever frame the handler gives them.
- Exceptions other than the ones the source catches are not modelled; the model reads those calls as returning normally. These are:
  - a RuntimeException from `getCandidateElementsForInputs` other than CrawljaxException (line 224 catches only that one);
  - a RuntimeException from `checkXpathStartsWithXpathEventableCondition` (line 400 catches only CrawljaxException and XPathExpressionException);
  - a RuntimeException from `getXpathForXPathExpressions` (line 299 catches only XPathExpressionException);
  - any exception from `getEventableCondition`, `getAllElementAttributes` or `getUniqueString`.
