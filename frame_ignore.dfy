/**
 * Frame paths and the ignore check that decides which frames the extractor
 * descends into (CandidateElementExtractor.isFrameIgnored).
 */
module FrameIgnore {
  import opened JavaRegex

  /**
   * An ignore pattern with `%` as the regular expression the source builds:
   * `%` is replaced by `.*` and nothing else is escaped, so `.` stands for any
   * one character but a line terminator and every other character for itself.
   */
  function WildcardRegex(pattern: string): seq<Atom>
  {
    seq(|pattern|, i requires 0 <= i < |pattern| =>
      if pattern[i] == '%' then AnyStar else if pattern[i] == '.' then AnyChar else Lit(pattern[i]))
  }

  /** Whether one ignore pattern matches a frame path. */
  predicate PatternMatches(pattern: string, path: string)
  {
    if '%' in pattern then Matches(WildcardRegex(pattern), path) else pattern == path
  }

  /** With frame crawling off every frame is ignored; otherwise a frame is ignored when some pattern matches its path. */
  predicate IsFrameIgnored(crawlFrames: bool, ignoredFrameIdentifiers: set<string>, path: string)
  {
    if crawlFrames then exists pattern :: pattern in ignoredFrameIdentifiers && PatternMatches(pattern, path)
    else true
  }

  /** The full path of a frame named `nameId` inside the frame at `parent` ("" is the page itself). */
  function ChildFramePath(parent: string, nameId: string): (r: string)
    ensures parent == "" ==> r == nameId
    ensures parent != "" ==> |r| == |parent| + 1 + |nameId| && r[..|parent|] == parent
                             && r[|parent|] == '.' && r[|parent| + 1..] == nameId
  {
    (if parent != "" then parent + "." else "") + nameId
  }

  /** Position-by-position match of a pattern part without `%`: `.` takes any character but a line terminator. */
  predicate DotMatches(part: string, t: string)
  {
    |part| == |t| && forall i :: 0 <= i < |t| ==> if part[i] == '.' then !IsLineTerminator(t[i]) else t[i] == part[i]
  }

  lemma WildcardRegexSplit(pre: string, post: string)
    ensures WildcardRegex(pre + "%" + post) == WildcardRegex(pre) + [AnyStar] + WildcardRegex(post)
  {
    var whole := pre + "%" + post;
    assert forall i :: 0 <= i < |pre| ==> whole[i] == pre[i];
    assert whole[|pre|] == '%';
    assert forall i :: |pre| < i < |whole| ==> whole[i] == post[i - |pre| - 1];
  }

  lemma PartRegex(part: string, t: string)
    requires '%' !in part
    ensures Starless(WildcardRegex(part))
    ensures FixedAccepts(WildcardRegex(part), t) <==> DotMatches(part, t)
  {
    var re := WildcardRegex(part);
    assert forall i :: 0 <= i < |part| ==> part[i] != '%';
    if |part| == |t| {
      assert forall i :: 0 <= i < |t| ==> (Accepts(re[i], t[i]) <==> if part[i] == '.' then !IsLineTerminator(t[i]) else t[i] == part[i]);
    }
  }

  /**
   * A pattern with one `%` matches a path when the parts before and after the
   * `%` match its two ends (`.` taking any one character but a line
   * terminator) and the `%` takes whatever lies in between, line terminators
   * excepted.
   */
  lemma OneWildcard(pre: string, post: string, path: string)
    requires '%' !in pre && '%' !in post
    ensures PatternMatches(pre + "%" + post, path) <==>
            |pre| + |post| <= |path| && DotMatches(pre, path[..|pre|])
            && NoLineTerminator(path[|pre|..|path| - |post|]) && DotMatches(post, path[|path| - |post|..])
  {
    OneWildcardRegex(pre, post, path);
    PartRegex(pre, if |pre| <= |path| then path[..|pre|] else "");
    PartRegex(post, if |post| <= |path| then path[|path| - |post|..] else "");
    StarMiddle(WildcardRegex(pre), WildcardRegex(post), path);
  }

  lemma OneWildcardRegex(pre: string, post: string, path: string)
    ensures PatternMatches(pre + "%" + post, path) == Matches(WildcardRegex(pre) + [AnyStar] + WildcardRegex(post), path)
  {
    var pattern := pre + "%" + post;
    assert pattern[|pre|] == '%';
    WildcardRegexSplit(pre, post);
  }

  /** "top.%" ignores the frames below "top". */
  lemma TopWildcardMatches()
    ensures PatternMatches("top.%", "top.nav")
  {
    assert "top.%" == "top." + "%" + "";
    OneWildcard("top.", "", "top.nav");
    assert "top.nav"[..4] == "top.";
  }

  /** "top.%" becomes `top..*`: the `.` is not escaped, so "topside" is ignored as well. */
  lemma TopWildcardUnescapedDot()
    ensures PatternMatches("top.%", "topside")
  {
    assert "top.%" == "top." + "%" + "";
    OneWildcard("top.", "", "topside");
    assert "topside"[..4] == "tops";
  }

  /** "top.%" also ignores frames nested below "top.nav". */
  lemma TopWildcardNested()
    ensures PatternMatches("top.%", "top.nav.ad")
  {
    assert "top.%" == "top." + "%" + "";
    OneWildcard("top.", "", "top.nav.ad");
  }

  /** "top.%" needs four characters before the rest and "top" in front: neither "top" nor "nav.top" is ignored. */
  lemma TopWildcardMisses()
    ensures !PatternMatches("top.%", "top")
    ensures !PatternMatches("top.%", "nav.top")
  {
    assert "top.%" == "top." + "%" + "";
    OneWildcard("top.", "", "top");
    OneWildcard("top.", "", "nav.top");
    assert "nav.top"[..4][0] != 't';
  }
}
