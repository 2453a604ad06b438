/**
 * Text normalisation (`preprocess_text`): lower-case the text, then delete every
 * character that is not `a`-`z`, `0`-`9` or whitespace.
 */
module Normalize {
  import opened Text

  /** The characters the pattern `[^a-z0-9\s]` leaves in place. */
  predicate IsNormalChar(c: char) {
    IsAsciiLower(c) || IsDigit(c) || IsSpace(c)
  }

  predicate IsNormal(s: string) {
    forall i | 0 <= i < |s| :: IsNormalChar(s[i])
  }

  /** `re.sub(r'[^a-z0-9\s]', '', s)`: keeps the normal characters, in order. */
  function KeepNormal(s: string): (r: string)
    ensures |r| <= |s|
    ensures IsNormal(r)
  {
    if s == [] then []
    else if IsNormalChar(s[0]) then [s[0]] + KeepNormal(s[1..])
    else KeepNormal(s[1..])
  }

  /** `preprocess_text`. */
  function Preprocess(s: string): (r: string)
    ensures |r| <= |s|
    ensures IsNormal(r)
  {
    KeepNormal(Lower(s))
  }

  lemma {:induction false} KeepNormalOfNormal(s: string)
    requires IsNormal(s)
    ensures KeepNormal(s) == s
  {
    if s != [] {
      KeepNormalOfNormal(s[1..]);
    }
  }

  lemma {:induction false} LowerOfNormal(s: string)
    requires IsNormal(s)
    ensures Lower(s) == s
  {
    if s != [] {
      LowerOfNormal(s[1..]);
    }
  }

  /** Text that is already normal is left unchanged, so normalising twice is normalising once. */
  lemma PreprocessOfNormal(s: string)
    requires IsNormal(s)
    ensures Preprocess(s) == s
  {
    LowerOfNormal(s);
    KeepNormalOfNormal(s);
  }

  lemma PreprocessIdempotent(s: string)
    ensures Preprocess(Preprocess(s)) == Preprocess(s)
  {
    PreprocessOfNormal(Preprocess(s));
  }

  lemma {:induction false} KeepNormalAppend(a: string, b: string)
    ensures KeepNormal(a + b) == KeepNormal(a) + KeepNormal(b)
  {
    if a != [] {
      assert (a + b)[1..] == a[1..] + b;
      KeepNormalAppend(a[1..], b);
    } else {
      assert a + b == b;
    }
  }

  lemma LowerAppend(a: string, b: string)
    ensures Lower(a + b) == Lower(a) + Lower(b)
  {
  }

  /**
   * Normalisation works character by character: it distributes over concatenation,
   * and one character becomes its lower-case form when that is a letter, digit or
   * whitespace, and disappears otherwise.
   */
  lemma PreprocessAppend(a: string, b: string)
    ensures Preprocess(a + b) == Preprocess(a) + Preprocess(b)
  {
    LowerAppend(a, b);
    KeepNormalAppend(Lower(a), Lower(b));
  }

  lemma PreprocessChar(c: char)
    ensures Preprocess([c]) == if IsNormalChar(LowerChar(c)) then [LowerChar(c)] else []
  {
    assert Lower([c]) == [LowerChar(c)];
  }

  /** Every ASCII letter and digit of the input survives normalisation (upper case as lower case). */
  lemma {:induction false} PreprocessKeepsAlnum(s: string, i: nat)
    requires i < |s| && (IsAsciiUpper(s[i]) || IsAsciiLower(s[i]) || IsDigit(s[i]))
    ensures LowerChar(s[i]) in Preprocess(s)
  {
    assert s == s[..i] + [s[i]] + s[i + 1..];
    PreprocessAppend(s[..i] + [s[i]], s[i + 1..]);
    PreprocessAppend(s[..i], [s[i]]);
    PreprocessChar(s[i]);
  }
}
