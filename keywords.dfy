/**
 * Keyword extraction (`get_keywords`): lower-case a free-text description, tokenize it,
 * and keep the alphanumeric tokens that are not stop words, as a set. The persona's and
 * the job's keywords are then united.
 */
module Keywords {
  import opened Text
  import opened Lexicon
  import opened Normalize

  /** `get_keywords(description)`. */
  function GetKeywords(tokenize: Tokenizer, stopWords: set<string>, description: string): (r: set<string>)
    ensures forall w | w in r :: IsAlnum(w) && w !in stopWords
    ensures forall w | w in r :: w in tokenize(Lower(description))
    ensures forall w | w in tokenize(Lower(description)) && IsAlnum(w) && w !in stopWords :: w in r
  {
    set w | w in tokenize(Lower(description)) && IsAlnum(w) && w !in stopWords
  }

  /** `get_keywords(persona).union(get_keywords(job))`. */
  function CombinedKeywords(tokenize: Tokenizer, stopWords: set<string>, persona: string, job: string): (r: set<string>)
    ensures GetKeywords(tokenize, stopWords, persona) <= r && GetKeywords(tokenize, stopWords, job) <= r
    ensures forall w | w in r :: w in GetKeywords(tokenize, stopWords, persona) || w in GetKeywords(tokenize, stopWords, job)
  {
    GetKeywords(tokenize, stopWords, persona) + GetKeywords(tokenize, stopWords, job)
  }

  /** A keyword made only of lower-case ASCII letters and digits. */
  predicate IsKeywordForm(w: string) {
    w != [] && forall i | 0 <= i < |w| :: IsAsciiLower(w[i]) || IsDigit(w[i])
  }

  /**
   * With a tokenizer that does not invent characters in alphanumeric tokens, every keyword is a non-empty
   * lower-case word of letters and digits, so normalisation leaves it unchanged.
   */
  lemma KeywordsAreLowercaseAlnum(tokenize: Tokenizer, stopWords: set<string>, description: string, w: string)
    requires KeepsAlnumCharacters(tokenize)
    requires w in GetKeywords(tokenize, stopWords, description)
    ensures IsKeywordForm(w) && w !in stopWords
    ensures Preprocess(w) == w
  {
    var text := Lower(description);
    forall i | 0 <= i < |w|
      ensures IsAsciiLower(w[i]) || IsDigit(w[i])
    {
      assert w[i] in w;
      var j :| 0 <= j < |text| && text[j] == w[i];
      assert IsAlnumChar(w[i]);
    }
    assert IsNormal(w);
    PreprocessOfNormal(w);
  }

  /** The first character of an alphanumeric token is an alphanumeric character of the text. */
  lemma AlnumTokenFromText(tokenize: Tokenizer, text: string, t: string)
    requires KeepsAlnumCharacters(tokenize)
    requires t in tokenize(text) && IsAlnum(t)
    ensures t[0] in text && IsAlnumChar(t[0])
  {
    assert t[0] in t;
  }

  /** A description that is empty or all whitespace yields no keywords. */
  lemma NoKeywordsFromBlank(tokenize: Tokenizer, stopWords: set<string>, description: string)
    requires KeepsAlnumCharacters(tokenize)
    requires AllSpace(description)
    ensures GetKeywords(tokenize, stopWords, description) == {}
  {
    var text := Lower(description);
    assert AllSpace(text);
    forall t | t in tokenize(text)
      ensures !IsAlnum(t)
    {
      if IsAlnum(t) {
        AlnumTokenFromText(tokenize, text, t);
        assert false;
      }
    }
  }

  /**
   * With the whitespace tokenizer, uniting the persona's and the job's keywords is the
   * same as extracting keywords from the two descriptions joined by a space.
   */
  lemma CombinedIsJoinedDescription(stopWords: set<string>, persona: string, job: string)
    ensures CombinedKeywords(Words, stopWords, persona, job) == GetKeywords(Words, stopWords, persona + " " + job)
  {
    LowerAppend(persona + " ", job);
    LowerAppend(persona, " ");
    assert Lower(" ") == " ";
    WordsAppend(Lower(persona), ' ', Lower(job));
  }
}
