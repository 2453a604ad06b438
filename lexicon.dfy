/**
 * The lexical resource the pipeline consumes: a word tokenizer and a stop-word set.
 * Both are supplied by the caller; the tokenizer is any function from text to tokens.
 * `Words` (Python's `str.split()`) is a concrete tokenizer to instantiate it with.
 */
module Lexicon {
  import opened Text

  type Tokenizer = string -> seq<string>

  /**
   * A tokenizer that invents no characters in its alphanumeric tokens: each character of
   * such a token occurs in the text. Tokens of other characters may be rewritten.
   */
  ghost predicate KeepsAlnumCharacters(tokenize: Tokenizer) {
    forall s, t | t in tokenize(s) && IsAlnum(t) :: forall c | c in t :: c in s
  }

  /** The longest prefix of `s` without whitespace. */
  function TakeWord(s: string): (w: string)
    ensures |w| <= |s| && w == s[..|w|]
    ensures forall i | 0 <= i < |w| :: !IsSpace(w[i])
    ensures |w| < |s| ==> IsSpace(s[|w|])
    ensures s != [] && !IsSpace(s[0]) ==> |w| >= 1
  {
    if s == [] || IsSpace(s[0]) then [] else [s[0]] + TakeWord(s[1..])
  }

  /** A non-empty run of non-whitespace characters. */
  predicate IsWord(w: string) {
    w != [] && forall i | 0 <= i < |w| :: !IsSpace(w[i])
  }

  /** `s.split()`: the maximal runs of non-whitespace characters, in order; never more of them than characters. */
  function Words(s: string): (r: seq<string>)
    ensures |r| <= |s|
    decreases |s|
  {
    if s == [] then []
    else if IsSpace(s[0]) then Words(s[1..])
    else
      var w := TakeWord(s);
      [w] + Words(s[|w|..])
  }

  /** Each word is a non-empty run of non-whitespace characters. */
  lemma {:induction false} WordsAreWords(s: string)
    ensures forall k | 0 <= k < |Words(s)| :: IsWord(Words(s)[k])
    decreases |s|
  {
    if s != [] && IsSpace(s[0]) {
      WordsAreWords(s[1..]);
    } else if s != [] {
      var w := TakeWord(s);
      WordsAreWords(s[|w|..]);
      assert Words(s) == [w] + Words(s[|w|..]);
    }
  }

  /** Every character of every word occurs in the text. */
  lemma InSuffix(s: string, n: nat, c: char)
    requires n <= |s| && c in s[n..]
    ensures c in s
  {
    var j :| 0 <= j < |s| - n && s[n..][j] == c;
    assert s[n + j] == c;
  }

  lemma {:induction false} WordsFromText(s: string, k: nat, i: nat)
    requires k < |Words(s)| && i < |Words(s)[k]|
    ensures Words(s)[k][i] in s
    decreases |s|, 1
  {
    if IsSpace(s[0]) {
      assert Words(s) == Words(s[1..]);
      WordsFromText(s[1..], k, i);
      InSuffix(s, 1, Words(s)[k][i]);
    } else {
      WordsFromTextAtWord(s, k, i);
    }
  }

  lemma {:induction false} WordsFromTextAtWord(s: string, k: nat, i: nat)
    requires s != [] && !IsSpace(s[0])
    requires k < |Words(s)| && i < |Words(s)[k]|
    ensures Words(s)[k][i] in s
    decreases |s|, 0
  {
    var w := TakeWord(s);
    var rest := s[|w|..];
    WordsAtWord(s);
    if k == 0 {
      assert Words(s)[0] == w;
      assert s[i] == w[i];
    } else {
      assert Words(s)[k] == Words(rest)[k - 1];
      WordsFromText(rest, k - 1, i);
      InSuffix(s, |w|, Words(s)[k][i]);
    }
  }

  /** The text splits into no words exactly when it is all whitespace. */
  lemma {:induction false} WordsEmptyIff(s: string)
    ensures Words(s) == [] <==> AllSpace(s)
    decreases |s|
  {
    if s != [] {
      WordsEmptyIff(s[1..]);
      assert AllSpace(s) <==> IsSpace(s[0]) && AllSpace(s[1..]);
    }
  }

  /** The whitespace tokenizer invents no characters at all, so in particular none in its alphanumeric tokens. */
  lemma WordsKeepsCharacters()
    ensures forall s, t, c | t in Words(s) && c in t :: c in s
    ensures KeepsAlnumCharacters(Words)
  {
    forall s, t, c | t in Words(s) && c in t
      ensures c in s
    {
      var k :| 0 <= k < |Words(s)| && Words(s)[k] == t;
      var i :| 0 <= i < |t| && t[i] == c;
      WordsFromText(s, k, i);
    }
  }

  lemma {:induction false} TakeWordBeforeSpace(a: string, c: char, b: string)
    requires IsSpace(c)
    ensures TakeWord(a + [c] + b) == TakeWord(a)
  {
    if a == [] {
      assert (a + [c] + b)[0] == c;
    } else if !IsSpace(a[0]) {
      assert (a + [c] + b)[1..] == a[1..] + [c] + b;
      TakeWordBeforeSpace(a[1..], c, b);
    }
  }

  /** The first word of a text that starts with a non-whitespace character. */
  lemma WordsAtWord(s: string)
    requires s != [] && !IsSpace(s[0])
    ensures Words(s) == [TakeWord(s)] + Words(s[|TakeWord(s)|..])
  {
  }

  /** Text joined at a whitespace character splits into the words of each part, in order. */
  lemma {:induction false} WordsAppend(a: string, c: char, b: string)
    requires IsSpace(c)
    ensures Words(a + [c] + b) == Words(a) + Words(b)
    decreases |a|
  {
    var s := a + [c] + b;
    if a == [] {
      assert s == [c] + b;
      assert s[1..] == b;
    } else if IsSpace(a[0]) {
      assert s[1..] == a[1..] + [c] + b;
      WordsAppend(a[1..], c, b);
    } else {
      var w := TakeWord(a);
      TakeWordBeforeSpace(a, c, b);
      assert s[|w|..] == a[|w|..] + [c] + b;
      WordsAppend(a[|w|..], c, b);
      WordsAtWord(s);
      WordsAtWord(a);
    }
  }

  lemma {:induction false} TakeWordOfWord(w: string)
    requires forall i | 0 <= i < |w| :: !IsSpace(w[i])
    ensures TakeWord(w) == w
  {
    if w != [] {
      TakeWordOfWord(w[1..]);
    }
  }

  /** A single word splits into itself. */
  lemma WordOfWord(w: string)
    requires IsWord(w)
    ensures Words(w) == [w]
  {
    TakeWordOfWord(w);
    assert w[|w|..] == [];
  }
}
