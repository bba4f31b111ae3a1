/**
 * The anchor filter: links to downloadable files and mail links are never
 * candidates (CandidateElementExtractor.hrefShouldBeIgnored, isFileForDownloading).
 */
module Hrefs {
  import opened Wrappers
  import opened Dom
  import opened JavaRegex

  const DownloadExtensions: seq<string> := ["pdf", "ps", "zip", "mp3"]

  /**
   * One alternative of `.+.pdf|.+.ps|.+.zip|.+.mp3`: `.+` is one character and
   * then `.*`, and `.` is any character but a line terminator.
   */
  function DownloadPattern(ext: string): seq<Atom>
  {
    [AnyChar, AnyStar, AnyChar] + Literal(ext)
  }


  /** `h` ends in `ext`, with at least two characters before it and no line terminator among them. */
  predicate EndsWithAfterTwo(h: string, ext: string)
  {
    |h| >= |ext| + 2 && h[|h| - |ext|..] == ext && NoLineTerminator(h[..|h| - |ext|])
  }

  /** The element's href; a missing attribute reads as "". */
  function Href(e: Element): string
  {
    AttributeValue(e.attributes, "href")
  }


  lemma LiteralTail(ext: string, u: string)
    ensures FixedAccepts([AnyChar] + Literal(ext), u) <==>
            |u| == |ext| + 1 && !IsLineTerminator(u[0]) && u[1..] == ext
  {
    var q := [AnyChar] + Literal(ext);
    if |u| == |ext| + 1 {
      assert forall i :: 0 < i < |u| ==> q[i] == Lit(ext[i - 1]);
      if FixedAccepts(q, u) {
        assert Accepts(q[0], u[0]);
        forall i | 0 <= i < |ext| ensures u[1..][i] == ext[i] {
          assert Accepts(q[i + 1], u[i + 1]);
        }
      }
      if !IsLineTerminator(u[0]) && u[1..] == ext {
        forall i | 0 <= i < |q| ensures Accepts(q[i], u[i]) {
          if i > 0 {
            assert u[i] == u[1..][i - 1];
          }
        }
      }
    }
  }

  lemma DownloadPatternShape(ext: string)
    ensures DownloadPattern(ext) == [AnyChar] + [AnyStar] + ([AnyChar] + Literal(ext))
    ensures Starless([AnyChar]) && Starless([AnyChar] + Literal(ext))
  {
    var q := [AnyChar] + Literal(ext);
    assert forall i :: 0 < i < |q| ==> q[i] == Lit(ext[i - 1]);
  }

  /** The three conditions StarMiddle yields for `.+.ext`, read as one. */
  lemma DownloadPieces(ext: string, h: string)
    requires |h| >= |ext| + 2
    ensures (FixedAccepts([AnyChar], h[..1]) && NoLineTerminator(h[1..|h| - |ext| - 1])
             && FixedAccepts([AnyChar] + Literal(ext), h[|h| - |ext| - 1..]))
            <==> EndsWithAfterTwo(h, ext)
  {
    var n := |h| - |ext|;
    LiteralTail(ext, h[n - 1..]);
    assert h[n - 1..][1..] == h[n..];
    var mid, front := h[1..n - 1], h[..n];
    assert FixedAccepts([AnyChar], h[..1]) <==> !IsLineTerminator(h[0]);
    if NoLineTerminator(front) {
      forall i | 0 <= i < |mid| ensures !IsLineTerminator(mid[i]) {
        assert mid[i] == front[i + 1];
      }
      assert front[n - 1] == h[n - 1];
    }
    if !IsLineTerminator(h[0]) && NoLineTerminator(mid) && !IsLineTerminator(h[n - 1]) {
      forall i | 0 <= i < |front| ensures !IsLineTerminator(front[i]) {
        if 0 < i < n - 1 {
          assert front[i] == mid[i - 1];
        }
      }
    }
  }

  /** `.+.ext` matches exactly the strings ending in `ext` after at least two characters. */
  lemma DownloadPatternMeaning(ext: string, h: string)
    ensures Matches(DownloadPattern(ext), h) <==> EndsWithAfterTwo(h, ext)
  {
    DownloadPatternShape(ext);
    StarMiddle([AnyChar], [AnyChar] + Literal(ext), h);
    if |h| >= |ext| + 2 {
      DownloadPieces(ext, h);
    }
  }

  /**
   * Whether the whole href matches one of the four alternatives: exactly when
   * it ends in pdf, ps, zip or mp3 (case-sensitively) after at least two
   * characters, none of them a line terminator.
   */
  predicate IsFileForDownloading(href: string)
    ensures IsFileForDownloading(href) <==> exists ext :: ext in DownloadExtensions && EndsWithAfterTwo(href, ext)
  {
    DownloadPatternMeaning("pdf", href);
    DownloadPatternMeaning("ps", href);
    DownloadPatternMeaning("zip", href);
    DownloadPatternMeaning("mp3", href);
    Matches(DownloadPattern("pdf"), href) || Matches(DownloadPattern("ps"), href)
    || Matches(DownloadPattern("zip"), href) || Matches(DownloadPattern("mp3"), href)
  }

  /** An anchor is dropped when its href names a download or starts with `mailto:`; a missing href is neither. */
  predicate HrefShouldBeIgnored(e: Element)
    ensures HrefShouldBeIgnored(e) <==>
            (exists ext :: ext in DownloadExtensions && EndsWithAfterTwo(Href(e), ext))
            || "mailto:" <= Href(e)
    ensures AttributeValue(e.attributes, "href") == "" ==> !HrefShouldBeIgnored(e)
  {
    IsFileForDownloading(Href(e)) || "mailto:" <= Href(e)
  }

  lemma PdfIsDownload()
    ensures IsFileForDownloading("file.pdf")
  {
    DownloadPatternMeaning("pdf", "file.pdf");
    assert "file.pdf"[5..] == "pdf";
  }

  lemma UpperCasePdfIsNotDownload()
    ensures !IsFileForDownloading("file.PDF")
  {
    assert "file.PDF"[5..] != "pdf" && "file.PDF"[6..] != "ps";
    assert "file.PDF"[5..] != "zip" && "file.PDF"[5..] != "mp3";
  }

  lemma BarePdfIsNotDownload()
    ensures !IsFileForDownloading(".pdf")
  {
  }

  /** An anchor with only the given href attribute. */
  function AnchorWithHref(href: string): Element
  {
    Element("A", [Attribute("href", href)], "/HTML[1]/BODY[1]/A[1]", None, None, None)
  }

  lemma MailtoIsIgnored()
    ensures HrefShouldBeIgnored(AnchorWithHref("mailto:x@y.com"))
  {
    assert Href(AnchorWithHref("mailto:x@y.com")) == "mailto:x@y.com";
    assert "mailto:x@y.com"[..7] == "mailto:";
  }

  lemma PlainPageIsKept()
    ensures !HrefShouldBeIgnored(AnchorWithHref("page.html"))
  {
    var h := "page.html";
    assert Href(AnchorWithHref(h)) == h;
    assert h[|h| - 3..] == "tml" && h[|h| - 2..] == "ml";
    assert h[0] != "mailto:"[0];
  }

  /** Example hrefs: a pdf link and a mail link are dropped; an upper-case PDF, a bare ".pdf" and a page are not downloads. */
  lemma HrefExamples()
    ensures IsFileForDownloading("file.pdf")
    ensures !IsFileForDownloading("file.PDF")
    ensures !IsFileForDownloading(".pdf")
    ensures HrefShouldBeIgnored(AnchorWithHref("mailto:x@y.com"))
    ensures !HrefShouldBeIgnored(AnchorWithHref("page.html"))
  {
    PdfIsDownload();
    UpperCasePdfIsNotDownload();
    BarePdfIsNotDownload();
    MailtoIsIgnored();
    PlainPageIsKept();
  }
}
