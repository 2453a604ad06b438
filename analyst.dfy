/**
 * The document analyst (`intelligent_document_analyst`): segment the pages into content
 * units, extract the keywords of the persona and the job, score every unit and keep those
 * above 0, sort them by score, and emit the first ten as two aligned lists — ranked titled
 * sections, and the full text of each.
 */
module Analyst {
  import opened Text
  import opened Lexicon
  import opened Keywords
  import opened Relevance
  import opened Segmenter
  import opened Titles
  import opened Ranking

  /**
   * Entry `rank - 1` of the two output lists for the scored unit `item`: its location, its
   * title and its rank, and its location with its full text.
   */
  predicate IsEntryFor(item: ScoredUnit, rank: nat, section: Section, subSection: SubSection) {
    && section == Section(item.unit.document, item.unit.pageNumber, Title(item.unit.text, DefaultMaxLength), rank)
    && subSection == SubSection(item.unit.document, item.unit.pageNumber, item.unit.text)
  }

  /** The units of one page, in paragraph order: the inner loop of the segmentation. */
  method SegmentPage(documentName: string, page: Page) returns (units: seq<ContentUnit>)
    ensures units == UnitsOfPage(documentName, page)
  {
    var paragraphs := Paragraphs(page.text);
    if paragraphs == [] {
      paragraphs := [Strip(page.text)];
    }
    units := [];
    var paraIdx := 0;
    while paraIdx < |paragraphs|
      invariant 0 <= paraIdx <= |paragraphs|
      invariant units == PageUnits(documentName, page.number, paragraphs[..paraIdx])
    {
      PageUnitsStep(documentName, page.number, paragraphs, paraIdx);
      if paragraphs[paraIdx] != [] {
        units := units + [ContentUnit(documentName, page.number, paragraphs[paraIdx], paraIdx)];
      }
      paraIdx := paraIdx + 1;
    }
    assert paragraphs[..paraIdx] == paragraphs;
  }

  /** `all_content`: the units of every page, page after page. */
  method SegmentPages(documentName: string, pages: seq<Page>) returns (allContent: seq<ContentUnit>)
    ensures allContent == Segment(documentName, pages)
  {
    allContent := [];
    var p := 0;
    while p < |pages|
      invariant 0 <= p <= |pages|
      invariant allContent == Segment(documentName, pages[..p])
    {
      var units := SegmentPage(documentName, pages[p]);
      allContent := allContent + units;
      SegmentStep(documentName, pages, p);
      p := p + 1;
    }
    assert pages[..p] == pages;
  }

  /** `scored_content` before sorting: the units scoring above 0, with their scores. */
  method ScoreUnits(tokenize: Tokenizer, allContent: seq<ContentUnit>, keywords: set<string>)
    returns (scored: seq<ScoredUnit>)
    ensures scored == ScoreAndFilter(tokenize, allContent, keywords)
  {
    scored := [];
    var i := 0;
    while i < |allContent|
      invariant 0 <= i <= |allContent|
      invariant scored == ScoreAndFilter(tokenize, allContent[..i], keywords)
    {
      var item := allContent[i];
      var score := RelevanceScore(tokenize, item.text, keywords);
      if score > 0.0 {
        scored := scored + [ScoredUnit(item, score)];
      }
      ScoreAndFilterStep(tokenize, allContent, i, keywords);
      i := i + 1;
    }
    assert allContent[..i] == allContent;
  }

  /** The two output lists for the selected units, ranked 1, 2, ... in order. */
  method Emit(top: seq<ScoredUnit>) returns (sections: seq<Section>, subSections: seq<SubSection>)
    ensures |sections| == |top| && |subSections| == |top|
    ensures forall i | 0 <= i < |top| :: IsEntryFor(top[i], i + 1, sections[i], subSections[i])
  {
    sections, subSections := [], [];
    var k := 0;
    while k < |top|
      invariant 0 <= k <= |top|
      invariant |sections| == k && |subSections| == k
      invariant forall j | 0 <= j < k :: IsEntryFor(top[j], j + 1, sections[j], subSections[j])
    {
      var item := top[k];
      sections := sections + [Section(item.unit.document, item.unit.pageNumber, Title(item.unit.text, DefaultMaxLength), k + 1)];
      subSections := subSections + [SubSection(item.unit.document, item.unit.pageNumber, item.unit.text)];
      k := k + 1;
    }
  }

  /**
   * The pipeline for one document whose pages have already been extracted. The two lists
   * have the same length, at most ten; entry `i` of both describes the `i`-th best unit,
   * which carries rank `i + 1`.
   */
  method AnalyzeDocument(
    tokenize: Tokenizer, stopWords: set<string>,
    documentName: string, pages: seq<Page>, persona: string, job: string)
    returns (sections: seq<Section>, subSections: seq<SubSection>)
    ensures var keywords := CombinedKeywords(tokenize, stopWords, persona, job);
      var top := Top(Ranked(tokenize, documentName, pages, keywords));
      && |sections| == |top| && |subSections| == |top|
      && forall i | 0 <= i < |top| :: IsEntryFor(top[i], i + 1, sections[i], subSections[i])
    ensures |sections| == |subSections| <= MaxSectionsToOutput
    ensures forall i | 0 <= i < |sections| ::
      && sections[i].importanceRank == i + 1
      && sections[i].document == subSections[i].document == documentName
      && sections[i].pageNumber == subSections[i].pageNumber
      && subSections[i].refinedText != []
  {
    var allContent := SegmentPages(documentName, pages);
    var keywords := CombinedKeywords(tokenize, stopWords, persona, job);
    var scored := ScoreUnits(tokenize, allContent, keywords);
    scored := SortByScore(scored);
    assert scored == Ranked(tokenize, documentName, pages, keywords);
    var top := Top(scored);
    sections, subSections := Emit(top);
    SelectionIsRanked(tokenize, documentName, pages, keywords);
    SegmentWellFormed(documentName, pages);
    forall j | 0 <= j < |top|
      ensures top[j].unit.document == documentName && top[j].unit.text != []
    {
      assert top[j].unit in allContent;
    }
  }

  /**
   * A persona and a job that are empty or all whitespace yield no keywords, so no unit
   * scores above 0 and nothing is selected.
   */
  lemma BlankRequestSelectsNothing(
    tokenize: Tokenizer, stopWords: set<string>,
    documentName: string, pages: seq<Page>, persona: string, job: string)
    requires KeepsAlnumCharacters(tokenize)
    requires AllSpace(persona) && AllSpace(job)
    ensures Top(Ranked(tokenize, documentName, pages, CombinedKeywords(tokenize, stopWords, persona, job))) == []
  {
    NoKeywordsFromBlank(tokenize, stopWords, persona);
    NoKeywordsFromBlank(tokenize, stopWords, job);
    NoKeywordsKeepNothing(tokenize, Segment(documentName, pages));
  }
}
