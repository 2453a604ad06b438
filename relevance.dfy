/**
 * The relevance score (`calculate_relevance_score`): the number of DISTINCT tokens of the
 * normalised text that are keywords, divided by the TOTAL number of tokens; 0 when the
 * text, the keyword set or the token sequence is empty. The score is kept as an exact
 * rational number.
 */
module Relevance {
  import opened Lexicon
  import opened Normalize

  /** `{word for word in tokens if word in keywords}`. */
  function Matched(tokens: seq<string>, keywords: set<string>): (m: set<string>)
    ensures m <= keywords
    ensures forall w | w in m :: w in tokens
    ensures forall w | w in tokens && w in keywords :: w in m
  {
    set w | w in tokens && w in keywords
  }

  /** There are never more distinct matches than tokens. */
  lemma {:induction false} MatchedBound(tokens: seq<string>, keywords: set<string>)
    ensures |Matched(tokens, keywords)| <= |tokens|
  {
    if tokens != [] {
      MatchedBound(tokens[1..], keywords);
      var rest := Matched(tokens[1..], keywords);
      SubsetCard(Matched(tokens, keywords), rest + {tokens[0]});
      assert |rest + {tokens[0]}| <= |rest| + 1;
    }
  }

  /** Matched keywords over the number of tokens. */
  function Density(tokens: seq<string>, keywords: set<string>): (r: real)
    requires tokens != []
    ensures 0.0 <= r <= 1.0
  {
    MatchedBound(tokens, keywords);
    (|Matched(tokens, keywords)| as real) / (|tokens| as real)
  }

  /** `calculate_relevance_score(text, keywords)`. */
  function RelevanceScore(tokenize: Tokenizer, text: string, keywords: set<string>): (r: real)
    ensures 0.0 <= r <= 1.0
  {
    if text == [] || keywords == {} then 0.0
    else
      var tokens := tokenize(Preprocess(text));
      if tokens == [] then 0.0 else Density(tokens, keywords)
  }

  /** Some token of the normalised text is a keyword. */
  predicate HasMatch(tokenize: Tokenizer, text: string, keywords: set<string>) {
    exists w | w in tokenize(Preprocess(text)) :: w in keywords
  }

  /**
   * The score is positive exactly when the text is non-empty and one of its tokens is a
   * keyword; so it is 0 for an empty text, an empty keyword set, a text without tokens,
   * and a text none of whose tokens is a keyword.
   */
  lemma ScorePositiveIff(tokenize: Tokenizer, text: string, keywords: set<string>)
    ensures RelevanceScore(tokenize, text, keywords) > 0.0 <==> text != [] && HasMatch(tokenize, text, keywords)
  {
    if text != [] && HasMatch(tokenize, text, keywords) {
      var tokens := tokenize(Preprocess(text));
      var w :| w in tokens && w in keywords;
      assert w in Matched(tokens, keywords);
    }
  }

  /** Repeating a token that already occurs adds to the token count only, so the density cannot grow. */
  lemma DensityRepeat(tokens: seq<string>, w: string, keywords: set<string>)
    requires w in tokens
    ensures Matched(tokens + [w], keywords) == Matched(tokens, keywords)
    ensures Density(tokens + [w], keywords) <= Density(tokens, keywords)
  {
    var m := |Matched(tokens, keywords)| as real;
    var n := |tokens| as real;
    assert Matched(tokens + [w], keywords) == Matched(tokens, keywords);
    assert m / (n + 1.0) <= m / n by {
      assert m / (n + 1.0) * (n + 1.0) == m;
      assert m / n * n == m;
    }
  }

  lemma DivideBoth(a: real, b: real, n: real)
    requires a <= b && n > 0.0
    ensures a / n <= b / n
  {
    assert b / n - a / n == (b - a) / n;
  }

  /** More keywords never lower a density. */
  lemma DensityMonotone(tokens: seq<string>, k1: set<string>, k2: set<string>)
    requires tokens != [] && k1 <= k2
    ensures Density(tokens, k1) <= Density(tokens, k2)
  {
    SubsetCard(Matched(tokens, k1), Matched(tokens, k2));
    DivideBoth(|Matched(tokens, k1)| as real, |Matched(tokens, k2)| as real, |tokens| as real);
  }

  /** More keywords never lower a score. */
  lemma ScoreMonotone(tokenize: Tokenizer, text: string, k1: set<string>, k2: set<string>)
    requires k1 <= k2
    ensures RelevanceScore(tokenize, text, k1) <= RelevanceScore(tokenize, text, k2)
  {
    var tokens := tokenize(Preprocess(text));
    if text != [] && k1 != {} && tokens != [] {
      DensityMonotone(tokens, k1, k2);
    }
  }

  lemma SubsetCard(a: set<string>, b: set<string>)
    requires a <= b
    ensures |a| <= |b|
  {
    assert b == a + (b - a);
  }

  /**
   * With the whitespace tokenizer: appending, after a space, a word the text already
   * contains never raises the text's score.
   */
  lemma RepetitionNeverRaisesScore(text: string, w: string, keywords: set<string>)
    requires w in Words(Preprocess(text))
    ensures RelevanceScore(Words, text + " " + w, keywords) <= RelevanceScore(Words, text, keywords)
  {
    var tokens := Words(Preprocess(text));
    WordsAreWords(Preprocess(text));
    var k :| 0 <= k < |tokens| && tokens[k] == w;
    forall i | 0 <= i < |w|
      ensures IsNormalChar(w[i])
    {
      WordsFromText(Preprocess(text), k, i);
    }
    assert IsNormal(w);
    PreprocessOfNormal(w);
    assert Preprocess(" ") == " ";
    PreprocessAppend(text + " ", w);
    PreprocessAppend(text, " ");
    WordsAppend(Preprocess(text), ' ', w);
    assert Words(w) == [w] by { WordOfWord(w); }
    assert text != [];
    if keywords != {} {
      DensityRepeat(tokens, w, keywords);
    }
  }
}
