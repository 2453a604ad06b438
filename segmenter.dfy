/**
 * Segmentation: each page's text is split on blank lines ("\n\n") into paragraphs, each
 * stripped, the empty ones dropped; a page with no paragraph falls back to its whole
 * stripped text. Every non-empty paragraph becomes a content unit tagged with the
 * document, the page number and its index among the page's paragraphs.
 */
module Segmenter {
  import opened Text

  /** One page as the text extractor hands it over: its number and its text. */
  datatype Page = Page(number: int, text: string)

  /** A paragraph of a document, tagged with where it was found. */
  datatype ContentUnit = ContentUnit(document: string, pageNumber: int, text: string, paragraphIndex: nat)

  const ParagraphBreak: string := "\n\n"

  /** `[p.strip() for p in pieces if p.strip()]`. */
  function StrippedNonEmpty(pieces: seq<string>): (r: seq<string>)
    ensures |r| <= |pieces|
    ensures forall k | 0 <= k < |r| :: r[k] != [] && Strip(r[k]) == r[k]
  {
    if pieces == [] then []
    else
      var p := Strip(pieces[0]);
      StripIdempotent(pieces[0]);
      (if p != [] then [p] else []) + StrippedNonEmpty(pieces[1..])
  }

  /**
   * Stripping and filtering works piece by piece: the result for two runs of pieces is the
   * results for each, in order...
   */
  lemma {:induction false} StrippedNonEmptyAppend(a: seq<string>, b: seq<string>)
    ensures StrippedNonEmpty(a + b) == StrippedNonEmpty(a) + StrippedNonEmpty(b)
  {
    if a == [] {
      assert a + b == b;
    } else {
      assert (a + b)[0] == a[0];
      assert (a + b)[1..] == a[1..] + b;
      StrippedNonEmptyAppend(a[1..], b);
    }
  }

  /** ...and a single piece yields its stripped form when that is non-empty, and nothing otherwise. */
  lemma StrippedNonEmptyOne(p: string)
    ensures StrippedNonEmpty([p]) == if Strip(p) != [] then [Strip(p)] else []
  {
    assert [p][1..] == [];
  }

  /** Stripping a piece without `sep` cannot create one. */
  lemma {:induction false} StrippedNonEmptySepFree(pieces: seq<string>, sep: string)
    requires forall k | 0 <= k < |pieces| :: SepFree(pieces[k], sep)
    ensures forall k | 0 <= k < |StrippedNonEmpty(pieces)| :: SepFree(StrippedNonEmpty(pieces)[k], sep)
  {
    if pieces != [] {
      var p := pieces[0];
      StrippedNonEmptySepFree(pieces[1..], sep);
      StripRemovesOnlySpace(p);
      SliceSepFree(p, sep, LeadingSpace(p), LeadingSpace(p) + |Strip(p)|);
      var rest := StrippedNonEmpty(pieces[1..]);
      assert forall k | 1 <= k < |pieces| :: pieces[k] == pieces[1..][k - 1];
      assert StrippedNonEmpty(pieces) == (if Strip(p) != [] then [Strip(p)] else []) + rest;
    }
  }

  /**
   * The non-empty stripped blocks of a page's text between blank lines: each paragraph is
   * non-empty, has no whitespace at either end, and holds no blank line.
   */
  function Paragraphs(text: string): (r: seq<string>)
    ensures forall k | 0 <= k < |r| :: r[k] != [] && Strip(r[k]) == r[k] && SepFree(r[k], ParagraphBreak)
  {
    var pieces := Split(text, ParagraphBreak);
    SplitPiecesFree(text, ParagraphBreak);
    StrippedNonEmptySepFree(pieces, ParagraphBreak);
    StrippedNonEmpty(pieces)
  }

  /** The paragraphs, or the whole stripped page when there are none. */
  function PageParagraphs(text: string): (r: seq<string>)
    ensures r != []
    ensures forall k | 0 <= k < |r| :: Strip(r[k]) == r[k]
  {
    StripIdempotent(text);
    var paragraphs := Paragraphs(text);
    if paragraphs == [] then [Strip(text)] else paragraphs
  }

  /** `for para_idx, paragraph_text in enumerate(paragraphs): if paragraph_text: ...append(...)`. */
  function PageUnits(document: string, pageNumber: int, paragraphs: seq<string>): (r: seq<ContentUnit>)
    ensures |r| <= |paragraphs|
  {
    if paragraphs == [] then []
    else
      var n := |paragraphs| - 1;
      PageUnits(document, pageNumber, paragraphs[..n])
        + (if paragraphs[n] != [] then [ContentUnit(document, pageNumber, paragraphs[n], n)] else [])
  }

  /** The content units of one page. */
  function UnitsOfPage(document: string, page: Page): (r: seq<ContentUnit>)
    ensures |r| <= |PageParagraphs(page.text)|
  {
    PageUnits(document, page.number, PageParagraphs(page.text))
  }

  /** The content units of a document: page by page, and within a page in paragraph order. */
  function Segment(document: string, pages: seq<Page>): seq<ContentUnit> {
    if pages == [] then []
    else UnitsOfPage(document, pages[0]) + Segment(document, pages[1..])
  }

  lemma {:induction false} NoneKeptMeansAllBlank(pieces: seq<string>)
    requires StrippedNonEmpty(pieces) == []
    ensures forall k | 0 <= k < |pieces| :: AllSpace(pieces[k])
  {
    if pieces != [] {
      NoneKeptMeansAllBlank(pieces[1..]);
      StripEmptyIff(pieces[0]);
      assert forall k | 1 <= k < |pieces| :: pieces[k] == pieces[1..][k - 1];
    }
  }

  lemma {:induction false} BlankPiecesKeepNothing(pieces: seq<string>)
    requires forall k | 0 <= k < |pieces| :: AllSpace(pieces[k])
    ensures StrippedNonEmpty(pieces) == []
  {
    if pieces != [] {
      StripEmptyIff(pieces[0]);
      BlankPiecesKeepNothing(pieces[1..]);
    }
  }

  /**
   * A page has paragraphs exactly when its text is not all whitespace. So the
   * whole-page fallback only ever produces the empty string, which is then skipped.
   */
  lemma ParagraphsEmptyIff(text: string)
    ensures Paragraphs(text) == [] <==> AllSpace(text)
  {
    var pieces := Split(text, ParagraphBreak);
    if Paragraphs(text) == [] {
      NoneKeptMeansAllBlank(pieces);
      JoinAllSpace(pieces, ParagraphBreak);
      JoinSplit(text, ParagraphBreak);
    }
    if AllSpace(text) {
      SplitAllSpace(text, ParagraphBreak);
      BlankPiecesKeepNothing(pieces);
    }
  }

  lemma {:induction false} PageUnitsOfNonEmpty(document: string, pageNumber: int, paragraphs: seq<string>)
    requires forall k | 0 <= k < |paragraphs| :: paragraphs[k] != []
    ensures |PageUnits(document, pageNumber, paragraphs)| == |paragraphs|
    ensures forall k | 0 <= k < |paragraphs| ::
      PageUnits(document, pageNumber, paragraphs)[k] == ContentUnit(document, pageNumber, paragraphs[k], k)
  {
    if paragraphs != [] {
      PageUnitsOfNonEmpty(document, pageNumber, paragraphs[..|paragraphs| - 1]);
    }
  }

  /**
   * The units of a page are its paragraphs, in order, each tagged with the document,
   * the page number and its position among the page's paragraphs, counted from 0.
   */
  lemma UnitsOfPageAreParagraphs(document: string, page: Page)
    ensures var units := UnitsOfPage(document, page); var paragraphs := Paragraphs(page.text);
      && |units| == |paragraphs|
      && forall k | 0 <= k < |units| :: units[k] == ContentUnit(document, page.number, paragraphs[k], k)
  {
    var paragraphs := Paragraphs(page.text);
    if paragraphs == [] {
      ParagraphsEmptyIff(page.text);
      StripEmptyIff(page.text);
      assert PageParagraphs(page.text)[..0] == [];
    } else {
      PageUnitsOfNonEmpty(document, page.number, paragraphs);
    }
  }

  /** A page yields at least one unit exactly when its text is not all whitespace. */
  lemma PageYieldsUnitIff(document: string, page: Page)
    ensures UnitsOfPage(document, page) != [] <==> !AllSpace(page.text)
  {
    UnitsOfPageAreParagraphs(document, page);
    ParagraphsEmptyIff(page.text);
  }

  /** Every unit of a page carries the document, the page's number and a non-empty stripped text. */
  lemma UnitsOfPageWellFormed(document: string, page: Page)
    ensures forall u | u in UnitsOfPage(document, page) ::
      u.document == document && u.pageNumber == page.number && u.text != [] && Strip(u.text) == u.text
  {
    UnitsOfPageAreParagraphs(document, page);
  }

  /** Segmenting consecutive runs of pages concatenates their units: units come in page order. */
  lemma {:induction false} SegmentAppend(document: string, a: seq<Page>, b: seq<Page>)
    ensures Segment(document, a + b) == Segment(document, a) + Segment(document, b)
  {
    if a == [] {
      assert a + b == b;
    } else {
      assert (a + b)[1..] == a[1..] + b;
      SegmentAppend(document, a[1..], b);
    }
  }

  /** One more paragraph adds at most its own unit, at the end. */
  lemma PageUnitsStep(document: string, pageNumber: int, paragraphs: seq<string>, n: nat)
    requires n < |paragraphs|
    ensures PageUnits(document, pageNumber, paragraphs[..n + 1])
      == PageUnits(document, pageNumber, paragraphs[..n])
        + (if paragraphs[n] != [] then [ContentUnit(document, pageNumber, paragraphs[n], n)] else [])
  {
    assert paragraphs[..n + 1][..n] == paragraphs[..n];
  }

  /** One more page adds its units at the end. */
  lemma SegmentStep(document: string, pages: seq<Page>, p: nat)
    requires p < |pages|
    ensures Segment(document, pages[..p + 1]) == Segment(document, pages[..p]) + UnitsOfPage(document, pages[p])
  {
    assert pages[..p + 1] == pages[..p] + [pages[p]];
    SegmentAppend(document, pages[..p], [pages[p]]);
  }

  /** No unit holds a blank line: a page is cut at every blank line. */
  lemma {:induction false} SegmentCutsAtBlankLines(document: string, pages: seq<Page>)
    ensures forall u | u in Segment(document, pages) :: SepFree(u.text, ParagraphBreak)
  {
    if pages != [] {
      SegmentCutsAtBlankLines(document, pages[1..]);
      UnitsOfPageAreParagraphs(document, pages[0]);
      var units := UnitsOfPage(document, pages[0]);
      forall u | u in units
        ensures SepFree(u.text, ParagraphBreak)
      {
        var k :| 0 <= k < |units| && units[k] == u;
      }
    }
  }

  /**
   * Every unit of a document is well formed (non-empty, stripped text, the document's
   * name) and comes from one of its pages.
   */
  lemma {:induction false} SegmentWellFormed(document: string, pages: seq<Page>)
    ensures forall u | u in Segment(document, pages) ::
      && u.document == document && u.text != [] && Strip(u.text) == u.text
      && exists p | p in pages :: p.number == u.pageNumber
  {
    if pages != [] {
      SegmentWellFormed(document, pages[1..]);
      UnitsOfPageWellFormed(document, pages[0]);
      forall u | u in Segment(document, pages)
        ensures exists p | p in pages :: p.number == u.pageNumber
      {
        if u in Segment(document, pages[1..]) {
          var p :| p in pages[1..] && p.number == u.pageNumber;
          assert p in pages;
        } else {
          assert pages[0] in pages;
        }
      }
    }
  }
}
