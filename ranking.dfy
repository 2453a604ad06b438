/**
 * Ranking and selection: the units that score above 0 are kept in segmentation order,
 * sorted by score, highest first, by a stable sort (equal scores keep their order), and
 * the first ten are emitted with ranks 1, 2, ... and a derived title.
 */
module Ranking {
  import opened Lexicon
  import opened Relevance
  import opened Segmenter

  /** A content unit with the score attached to it. */
  datatype ScoredUnit = ScoredUnit(unit: ContentUnit, score: real)

  /** An entry of `extracted_sections`. */
  datatype Section = Section(document: string, pageNumber: int, sectionTitle: string, importanceRank: nat)

  /** An entry of `sub_section_analysis`. */
  datatype SubSection = SubSection(document: string, pageNumber: int, refinedText: string)

  /** `max_sections_to_output`. */
  const MaxSectionsToOutput: nat := 10

  /** The entry a single unit contributes: itself with its score, when that is positive. */
  function Kept(tokenize: Tokenizer, u: ContentUnit, keywords: set<string>): (r: seq<ScoredUnit>)
    ensures |r| <= 1
  {
    var score := RelevanceScore(tokenize, u.text, keywords);
    if score > 0.0 then [ScoredUnit(u, score)] else []
  }

  /** The units whose score is positive, each with its score, in their original order. */
  function ScoreAndFilter(tokenize: Tokenizer, units: seq<ContentUnit>, keywords: set<string>): (r: seq<ScoredUnit>)
    ensures |r| <= |units|
  {
    if units == [] then []
    else Kept(tokenize, units[0], keywords) + ScoreAndFilter(tokenize, units[1..], keywords)
  }

  lemma {:induction false} ScoreAndFilterAppend(tokenize: Tokenizer, a: seq<ContentUnit>, b: seq<ContentUnit>, keywords: set<string>)
    ensures ScoreAndFilter(tokenize, a + b, keywords) == ScoreAndFilter(tokenize, a, keywords) + ScoreAndFilter(tokenize, b, keywords)
  {
    if a == [] {
      assert a + b == b;
    } else {
      assert (a + b)[0] == a[0];
      assert (a + b)[1..] == a[1..] + b;
      ScoreAndFilterAppend(tokenize, a[1..], b, keywords);
    }
  }

  /** One more unit adds at most its own scored entry, at the end. */
  lemma ScoreAndFilterStep(tokenize: Tokenizer, units: seq<ContentUnit>, i: nat, keywords: set<string>)
    requires i < |units|
    ensures ScoreAndFilter(tokenize, units[..i + 1], keywords)
      == ScoreAndFilter(tokenize, units[..i], keywords) + Kept(tokenize, units[i], keywords)
  {
    assert units[..i + 1] == units[..i] + [units[i]];
    ScoreAndFilterAppend(tokenize, units[..i], [units[i]], keywords);
    assert [units[i]][1..] == [];
  }

  /**
   * Exactly the units with a positive score are kept: every kept entry is one of the
   * units with its own score, which is positive, and every unit with a positive score is
   * kept with that score.
   */
  lemma {:induction false} ScoreAndFilterKeepsPositive(tokenize: Tokenizer, units: seq<ContentUnit>, keywords: set<string>)
    ensures forall x | x in ScoreAndFilter(tokenize, units, keywords) ::
      && x.unit in units
      && x.score > 0.0 && x.score == RelevanceScore(tokenize, x.unit.text, keywords)
    ensures forall u | u in units && RelevanceScore(tokenize, u.text, keywords) > 0.0 ::
      ScoredUnit(u, RelevanceScore(tokenize, u.text, keywords)) in ScoreAndFilter(tokenize, units, keywords)
  {
    if units != [] {
      ScoreAndFilterKeepsPositive(tokenize, units[1..], keywords);
      assert forall u | u in units :: u == units[0] || u in units[1..];
    }
  }

  /** With no keywords nothing scores above 0, so nothing is kept. */
  lemma {:induction false} NoKeywordsKeepNothing(tokenize: Tokenizer, units: seq<ContentUnit>)
    ensures ScoreAndFilter(tokenize, units, {}) == []
  {
    if units != [] {
      NoKeywordsKeepNothing(tokenize, units[1..]);
    }
  }

  /** Scores never increase along the sequence. */
  predicate SortedByScore(s: seq<ScoredUnit>) {
    forall i, j | 0 <= i < j < |s| :: s[i].score >= s[j].score
  }

  /** Inserts `x` before the first entry whose score is not above its own. */
  function InsertByScore(x: ScoredUnit, sorted: seq<ScoredUnit>): (r: seq<ScoredUnit>)
    ensures |r| == |sorted| + 1
  {
    if sorted == [] || x.score >= sorted[0].score then [x] + sorted
    else [sorted[0]] + InsertByScore(x, sorted[1..])
  }

  /** `scored.sort(key=lambda x: x["score"], reverse=True)`, as a stable insertion sort. */
  function SortByScore(s: seq<ScoredUnit>): (r: seq<ScoredUnit>)
    ensures |r| == |s|
  {
    if s == [] then [] else InsertByScore(s[0], SortByScore(s[1..]))
  }

  /** The entries with score `v`, in order. */
  function WithScore(s: seq<ScoredUnit>, v: real): seq<ScoredUnit> {
    if s == [] then []
    else (if s[0].score == v then [s[0]] else []) + WithScore(s[1..], v)
  }

  lemma {:induction false} InsertByScorePermutes(x: ScoredUnit, sorted: seq<ScoredUnit>)
    ensures multiset(InsertByScore(x, sorted)) == multiset(sorted) + multiset{x}
  {
    if sorted != [] && x.score < sorted[0].score {
      InsertByScorePermutes(x, sorted[1..]);
      assert sorted == [sorted[0]] + sorted[1..];
    }
  }

  /** The first entry of a sorted sequence scores at least as high as every other. */
  lemma SortedHead(sorted: seq<ScoredUnit>)
    requires SortedByScore(sorted) && sorted != []
    ensures forall y | y in sorted[1..] :: sorted[0].score >= y.score
  {
    forall y | y in sorted[1..]
      ensures sorted[0].score >= y.score
    {
      var j :| 0 <= j < |sorted| - 1 && sorted[1..][j] == y;
      assert sorted[j + 1] == y;
    }
  }

  lemma {:induction false} InsertByScoreSorted(x: ScoredUnit, sorted: seq<ScoredUnit>)
    requires SortedByScore(sorted)
    ensures SortedByScore(InsertByScore(x, sorted))
  {
    if sorted != [] && x.score < sorted[0].score {
      var head := sorted[0];
      var tail := sorted[1..];
      var rest := InsertByScore(x, tail);
      InsertByScoreSorted(x, tail);
      InsertByScorePermutes(x, tail);
      SortedHead(sorted);
      forall j | 0 <= j < |rest|
        ensures head.score >= rest[j].score
      {
        assert rest[j] in multiset(rest);
      }
      assert InsertByScore(x, sorted) == [head] + rest;
    } else {
      assert forall j | 0 <= j < |sorted| :: x.score >= sorted[j].score;
    }
  }

  /** The sort orders the entries by score, highest first, and only reorders them. */
  lemma {:induction false} SortByScoreSortsAndPermutes(s: seq<ScoredUnit>)
    ensures SortedByScore(SortByScore(s))
    ensures multiset(SortByScore(s)) == multiset(s)
  {
    if s != [] {
      SortByScoreSortsAndPermutes(s[1..]);
      InsertByScoreSorted(s[0], SortByScore(s[1..]));
      InsertByScorePermutes(s[0], SortByScore(s[1..]));
      assert s == [s[0]] + s[1..];
    }
  }

  lemma WithScoreCons(x: ScoredUnit, s: seq<ScoredUnit>, v: real)
    ensures WithScore([x] + s, v) == (if x.score == v then [x] else []) + WithScore(s, v)
  {
    assert ([x] + s)[1..] == s;
  }

  lemma {:induction false} WithScoreInsert(x: ScoredUnit, sorted: seq<ScoredUnit>, v: real)
    ensures WithScore(InsertByScore(x, sorted), v) == (if x.score == v then [x] else []) + WithScore(sorted, v)
  {
    if sorted != [] && x.score < sorted[0].score {
      var head := sorted[0];
      var rest := InsertByScore(x, sorted[1..]);
      WithScoreInsert(x, sorted[1..], v);
      WithScoreCons(head, rest, v);
      WithScoreCons(head, sorted[1..], v);
      assert [head] + sorted[1..] == sorted;
      var h := if head.score == v then [head] else [];
      var xs := if x.score == v then [x] else [];
      assert h == [] || xs == [];
      assert h + xs == xs + h;
    } else {
      WithScoreCons(x, sorted, v);
    }
  }

  /**
   * The sort is stable: for every score, the entries with that score appear in the
   * same order before and after sorting.
   */
  lemma {:induction false} SortByScoreStable(s: seq<ScoredUnit>, v: real)
    ensures WithScore(SortByScore(s), v) == WithScore(s, v)
  {
    if s != [] {
      SortByScoreStable(s[1..], v);
      WithScoreInsert(s[0], SortByScore(s[1..]), v);
    }
  }

  /** `scored_content[:max_sections_to_output]`. */
  function Top(ranked: seq<ScoredUnit>): (r: seq<ScoredUnit>)
    ensures |r| == if |ranked| < MaxSectionsToOutput then |ranked| else MaxSectionsToOutput
    ensures r == ranked[..|r|]
  {
    if |ranked| <= MaxSectionsToOutput then ranked else ranked[..MaxSectionsToOutput]
  }

  /** Selection from a sorted sequence: each entry kept scores at least as high as every entry left out. */
  lemma TopIsBest(ranked: seq<ScoredUnit>)
    requires SortedByScore(ranked)
    ensures forall i, j | 0 <= i < |Top(ranked)| <= j < |ranked| :: Top(ranked)[i].score >= ranked[j].score
  {
  }

  /** The units a document contributes to the ranking: sorted by score, and no more than its units. */
  function Ranked(tokenize: Tokenizer, document: string, pages: seq<Page>, keywords: set<string>): (r: seq<ScoredUnit>)
    ensures SortedByScore(r)
    ensures |r| <= |Segment(document, pages)|
  {
    var kept := ScoreAndFilter(tokenize, Segment(document, pages), keywords);
    SortByScoreSortsAndPermutes(kept);
    SortByScore(kept)
  }

  /** Selecting from the sorted entries keeps them sorted, and keeps only entries given to the sort. */
  lemma TopOfSorted(kept: seq<ScoredUnit>)
    ensures SortedByScore(Top(SortByScore(kept)))
    ensures forall k | 0 <= k < |Top(SortByScore(kept))| :: Top(SortByScore(kept))[k] in kept
  {
    var ranked := SortByScore(kept);
    SortByScoreSortsAndPermutes(kept);
    var top := Top(ranked);
    forall k | 0 <= k < |top|
      ensures top[k] in kept
    {
      assert top[k] == ranked[k];
      assert ranked[k] in multiset(ranked);
    }
  }

  /**
   * The selected entries are sorted by score, all score above 0, and are units of the
   * document scored against the keywords.
   */
  lemma SelectionIsRanked(tokenize: Tokenizer, document: string, pages: seq<Page>, keywords: set<string>)
    ensures var top := Top(Ranked(tokenize, document, pages, keywords));
      && SortedByScore(top)
      && forall k | 0 <= k < |top| ::
        && top[k].score > 0.0
        && top[k].score == RelevanceScore(tokenize, top[k].unit.text, keywords)
        && top[k].unit in Segment(document, pages)
  {
    var units := Segment(document, pages);
    var kept := ScoreAndFilter(tokenize, units, keywords);
    TopOfSorted(kept);
    ScoreAndFilterKeepsPositive(tokenize, units, keywords);
    var top := Top(SortByScore(kept));
    forall k | 0 <= k < |top|
      ensures top[k].score > 0.0 && top[k].score == RelevanceScore(tokenize, top[k].unit.text, keywords)
      ensures top[k].unit in units
    {
      assert top[k] in kept;
    }
  }
}
