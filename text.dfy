/**
 * The few Python `str` primitives the ranking pipeline relies on:
 * `str.isspace`, `str.strip`, `str.split(sep)` and `str.lower`.
 * Strings are sequences of Unicode scalar values.
 */
module Text {

  /** Python's `str.isspace()` on one character; the same class is `\s` in a `str` regular expression. */
  predicate IsSpace(c: char) {
    || ('\t' <= c <= '\r')
    || ('\U{1C}' <= c <= '\U{1F}')
    || c == ' '
    || c == '\U{85}'
    || c == '\U{A0}'
    || c == '\U{1680}'
    || ('\U{2000}' <= c <= '\U{200A}')
    || c == '\U{2028}'
    || c == '\U{2029}'
    || c == '\U{202F}'
    || c == '\U{205F}'
    || c == '\U{3000}'
  }

  predicate AllSpace(s: string) {
    forall i | 0 <= i < |s| :: IsSpace(s[i])
  }

  lemma SliceOfSlice(s: string, a: nat, b: nat, c: nat, d: nat)
    requires a <= b <= |s| && c <= d <= b - a
    ensures s[a..b][c..d] == s[a + c..a + d]
  {
    assert forall k | 0 <= k < d - c :: s[a..b][c..d][k] == s[a + c + k];
  }

  /** `part` occurs in `s` as a contiguous run of characters. */
  predicate IsSliceOf(part: string, s: string) {
    exists i, j | 0 <= i <= j <= |s| :: s[i..j] == part
  }

  lemma SliceOfSliceIsSlice(a: string, b: string, c: string)
    requires IsSliceOf(a, b) && IsSliceOf(b, c)
    ensures IsSliceOf(a, c)
  {
    var i, j :| 0 <= i <= j <= |b| && b[i..j] == a;
    var k, l :| 0 <= k <= l <= |c| && c[k..l] == b;
    SliceOfSlice(c, k, l, i, j);
  }

  predicate IsAsciiUpper(c: char) { 'A' <= c <= 'Z' }
  predicate IsAsciiLower(c: char) { 'a' <= c <= 'z' }
  predicate IsDigit(c: char) { '0' <= c <= '9' }

  /** A character `str.isalnum()` accepts, on the ASCII range. */
  predicate IsAlnumChar(c: char) {
    IsAsciiUpper(c) || IsAsciiLower(c) || IsDigit(c)
  }

  /** `str.isalnum()`: non-empty, and letters and digits only. */
  predicate IsAlnum(w: string) {
    w != [] && forall i | 0 <= i < |w| :: IsAlnumChar(w[i])
  }

  /** Lower-casing of one character, on the ASCII range. */
  function LowerChar(c: char): (r: char)
    ensures IsAsciiUpper(c) ==> IsAsciiLower(r) && r as int == c as int + 32
    ensures !IsAsciiUpper(c) ==> r == c
  {
    if IsAsciiUpper(c) then (c as int + 32) as char else c
  }

  /** `str.lower()`, on the ASCII range. */
  function Lower(s: string): (r: string)
    ensures |r| == |s|
    ensures forall i | 0 <= i < |s| :: r[i] == LowerChar(s[i])
  {
    if s == [] then [] else [LowerChar(s[0])] + Lower(s[1..])
  }

  /** The number of whitespace characters `s` starts with. */
  function LeadingSpace(s: string): (n: nat)
    ensures n <= |s|
  {
    if s != [] && IsSpace(s[0]) then 1 + LeadingSpace(s[1..]) else 0
  }

  /** The number of whitespace characters `s` ends with. */
  function TrailingSpace(s: string): (n: nat)
    ensures n <= |s|
  {
    if s != [] && IsSpace(s[|s| - 1]) then 1 + TrailingSpace(s[..|s| - 1]) else 0
  }

  lemma {:induction false} LeadingSpaceIsMaximal(s: string)
    ensures AllSpace(s[..LeadingSpace(s)])
    ensures LeadingSpace(s) < |s| ==> !IsSpace(s[LeadingSpace(s)])
  {
    if s != [] && IsSpace(s[0]) {
      LeadingSpaceIsMaximal(s[1..]);
      assert s[..LeadingSpace(s)] == [s[0]] + s[1..][..LeadingSpace(s[1..])];
    }
  }

  lemma {:induction false} TrailingSpaceIsMaximal(s: string)
    ensures AllSpace(s[|s| - TrailingSpace(s)..])
    ensures TrailingSpace(s) < |s| ==> !IsSpace(s[|s| - TrailingSpace(s) - 1])
  {
    if s != [] && IsSpace(s[|s| - 1]) {
      var u := s[..|s| - 1];
      var n := TrailingSpace(u);
      TrailingSpaceIsMaximal(u);
      assert TrailingSpace(s) == n + 1;
      assert u[|u| - n..] == s[|s| - 1 - n..|s| - 1];
      assert s[|s| - (n + 1)..] == s[|s| - 1 - n..|s| - 1] + [s[|s| - 1]];
    }
  }

  /** `str.strip()`: the slice of `s` without its leading and trailing whitespace. */
  function Strip(s: string): (r: string)
    ensures |r| <= |s| - LeadingSpace(s)
  {
    var t := s[LeadingSpace(s)..];
    t[..|t| - TrailingSpace(t)]
  }

  lemma StripSlice(s: string)
    ensures LeadingSpace(s) + |Strip(s)| <= |s|
    ensures Strip(s) == s[LeadingSpace(s)..LeadingSpace(s) + |Strip(s)|]
  {
    var i := LeadingSpace(s);
    var m := |s[i..]| - TrailingSpace(s[i..]);
    SliceOfSlice(s, i, |s|, 0, m);
    assert s[i..] == s[i..|s|];
  }

  lemma StripTrailingSpace(s: string)
    ensures LeadingSpace(s) + |Strip(s)| <= |s|
    ensures AllSpace(s[LeadingSpace(s) + |Strip(s)|..])
  {
    var t := s[LeadingSpace(s)..];
    TrailingSpaceIsMaximal(t);
    assert s[LeadingSpace(s) + |Strip(s)|..] == t[|t| - TrailingSpace(t)..];
  }

  /**
   * Strip's result is the slice of its input between a whitespace prefix and a whitespace
   * suffix: it removes only whitespace, and only at the ends.
   */
  lemma StripRemovesOnlySpace(s: string)
    ensures LeadingSpace(s) + |Strip(s)| <= |s|
    ensures Strip(s) == s[LeadingSpace(s)..LeadingSpace(s) + |Strip(s)|]
    ensures AllSpace(s[..LeadingSpace(s)])
    ensures AllSpace(s[LeadingSpace(s) + |Strip(s)|..])
  {
    LeadingSpaceIsMaximal(s);
    StripSlice(s);
    StripTrailingSpace(s);
  }

  lemma StripIsSliceOf(s: string)
    ensures IsSliceOf(Strip(s), s)
  {
    assert Strip(s) == s[LeadingSpace(s)..LeadingSpace(s) + |Strip(s)|];
  }

  /** After Strip there is no whitespace at either end. */
  lemma StripEnds(s: string)
    ensures var r := Strip(s); r == [] || (!IsSpace(r[0]) && !IsSpace(r[|r| - 1]))
  {
    var t := s[LeadingSpace(s)..];
    LeadingSpaceIsMaximal(s);
    TrailingSpaceIsMaximal(t);
    var r := Strip(s);
    if r != [] {
      assert r[0] == t[0] == s[LeadingSpace(s)];
      assert r[|r| - 1] == t[|t| - TrailingSpace(t) - 1];
    }
  }

  /** Strip yields the empty string exactly when the input is all whitespace. */
  lemma StripEmptyIff(s: string)
    ensures Strip(s) == [] <==> AllSpace(s)
  {
    StripRemovesOnlySpace(s);
    StripEnds(s);
    var i := LeadingSpace(s);
    var r := Strip(s);
    assert s == s[..i] + r + s[i + |r|..];
  }

  /** A string with no whitespace at either end is its own Strip; in particular Strip is idempotent. */
  lemma StripFixed(s: string)
    requires s == [] || (!IsSpace(s[0]) && !IsSpace(s[|s| - 1]))
    ensures Strip(s) == s
  {
    assert s[LeadingSpace(s)..] == s;
  }

  lemma StripIdempotent(s: string)
    ensures Strip(Strip(s)) == Strip(s)
  {
    StripEnds(s);
    StripFixed(Strip(s));
  }

  /**
   * `s.split(sep)` for a non-empty separator: cut at each occurrence of `sep`,
   * searching from the left; `cur` is the piece gathered so far.
   */
  function SplitFrom(s: string, sep: string, cur: string): (r: seq<string>)
    requires sep != []
    ensures |r| >= 1
    decreases |s|
  {
    if |s| < |sep| then [cur + s]
    else if s[..|sep|] == sep then [cur] + SplitFrom(s[|sep|..], sep, [])
    else SplitFrom(s[1..], sep, cur + [s[0]])
  }

  /** Python's `s.split(sep)`; it is never given an empty separator here. */
  function Split(s: string, sep: string): (r: seq<string>)
    requires sep != []
    ensures |r| >= 1
  {
    SplitFrom(s, sep, [])
  }

  /** An occurrence of `sep` starts at position `i` of `s`. */
  predicate OccursAt(s: string, sep: string, i: nat) {
    i + |sep| <= |s| && s[i..i + |sep|] == sep
  }

  /** No occurrence of `sep` starts anywhere in `s`. */
  predicate SepFree(s: string, sep: string) {
    forall i: nat | i < |s| :: !OccursAt(s, sep, i)
  }

  lemma OccursAtPrefix(a: string, b: string, sep: string, i: nat)
    requires i + |sep| <= |a|
    ensures OccursAt(a + b, sep, i) == OccursAt(a, sep, i)
  {
    assert (a + b)[i..i + |sep|] == a[i..i + |sep|];
  }

  lemma OccursAtSlice(s: string, a: nat, b: nat, sep: string, i: nat)
    requires a <= b <= |s|
    ensures OccursAt(s[a..b], sep, i) ==> OccursAt(s, sep, a + i)
  {
    if OccursAt(s[a..b], sep, i) {
      SliceOfSlice(s, a, b, i, i + |sep|);
    }
  }

  lemma {:induction false} SplitFromPiecesFree(s: string, sep: string, cur: string)
    requires sep != []
    requires forall i: nat | i < |cur| :: !OccursAt(cur + s, sep, i)
    ensures forall k | 0 <= k < |SplitFrom(s, sep, cur)| :: SepFree(SplitFrom(s, sep, cur)[k], sep)
    decreases |s|
  {
    var whole := cur + s;
    if |s| < |sep| {
      assert SplitFrom(s, sep, cur) == [whole];
      forall i: nat | i < |whole|
        ensures !OccursAt(whole, sep, i)
      {
        if i >= |cur| {
          assert i + |sep| > |whole|;
        }
      }
    } else if s[..|sep|] == sep {
      assert [] + s[|sep|..] == s[|sep|..];
      SplitFromPiecesFree(s[|sep|..], sep, []);
      forall i: nat | i < |cur|
        ensures !OccursAt(cur, sep, i)
      {
        if i + |sep| <= |cur| {
          OccursAtPrefix(cur, s, sep, i);
        }
      }
      assert SplitFrom(s, sep, cur) == [cur] + SplitFrom(s[|sep|..], sep, []);
    } else {
      var next := cur + [s[0]];
      assert next + s[1..] == whole;
      forall i: nat | i < |next|
        ensures !OccursAt(next + s[1..], sep, i)
      {
        if i == |cur| {
          assert whole[i..i + |sep|] == s[..|sep|];
        }
      }
      SplitFromPiecesFree(s[1..], sep, next);
    }
  }

  /** No piece of `s.split(sep)` contains `sep`: the split cuts at every occurrence. */
  lemma SplitPiecesFree(s: string, sep: string)
    requires sep != []
    ensures forall k | 0 <= k < |Split(s, sep)| :: SepFree(Split(s, sep)[k], sep)
  {
    SplitFromPiecesFree(s, sep, []);
  }

  lemma {:induction false} SplitFromLeftmost(s: string, sep: string, cur: string)
    requires sep != []
    requires forall i: nat | i < |cur| :: !OccursAt(cur + s, sep, i)
    ensures forall k: nat, i: nat | k + 1 < |SplitFrom(s, sep, cur)| && i < |SplitFrom(s, sep, cur)[k]| ::
      !OccursAt(SplitFrom(s, sep, cur)[k] + sep, sep, i)
    decreases |s|
  {
    var whole := cur + s;
    if |s| < |sep| {
      assert SplitFrom(s, sep, cur) == [whole];
    } else if s[..|sep|] == sep {
      var rest := SplitFrom(s[|sep|..], sep, []);
      SplitFromLeftmost(s[|sep|..], sep, []);
      assert whole[..|cur| + |sep|] == cur + sep;
      forall i: nat | i < |cur|
        ensures !OccursAt(cur + sep, sep, i)
      {
        OccursAtSlice(whole, 0, |cur| + |sep|, sep, i);
      }
      var r := SplitFrom(s, sep, cur);
      assert r == [cur] + rest;
      forall k: nat, i: nat | k + 1 < |r| && i < |r[k]|
        ensures !OccursAt(r[k] + sep, sep, i)
      {
        if k > 0 {
          assert r[k] == rest[k - 1];
          assert !OccursAt(rest[k - 1] + sep, sep, i);
        }
      }
    } else {
      var next := cur + [s[0]];
      assert next + s[1..] == whole;
      forall i: nat | i < |next|
        ensures !OccursAt(next + s[1..], sep, i)
      {
        if i == |cur| {
          assert whole[i..i + |sep|] == s[..|sep|];
        }
      }
      SplitFromLeftmost(s[1..], sep, next);
      assert SplitFrom(s, sep, cur) == SplitFrom(s[1..], sep, next);
    }
  }

  /**
   * `s.split(sep)` scans from the left: every cut is at the leftmost occurrence of `sep`
   * after the previous cut, so a piece followed by `sep` holds no earlier occurrence.
   */
  lemma SplitCutsLeftmost(s: string, sep: string)
    requires sep != []
    ensures var r := Split(s, sep);
      forall k: nat, i: nat | k < |r| - 1 && i < |r[k]| :: !OccursAt(r[k] + sep, sep, i)
  {
    assert Split(s, sep) == SplitFrom(s, sep, []);
    SplitFromLeftmost(s, sep, []);
  }

  /** A slice of a string without `sep` has no `sep` either. */
  lemma SliceSepFree(s: string, sep: string, a: nat, b: nat)
    requires a <= b <= |s| && SepFree(s, sep)
    ensures SepFree(s[a..b], sep)
  {
    forall i: nat | i < b - a
      ensures !OccursAt(s[a..b], sep, i)
    {
      OccursAtSlice(s, a, b, sep, i);
    }
  }

  /** `sep.join(parts)`. */
  function Join(parts: seq<string>, sep: string): string
  {
    if parts == [] then []
    else if |parts| == 1 then parts[0]
    else parts[0] + sep + Join(parts[1..], sep)
  }

  lemma {:induction false} JoinSplitFrom(s: string, sep: string, cur: string)
    requires sep != []
    ensures Join(SplitFrom(s, sep, cur), sep) == cur + s
    decreases |s|
  {
    if |s| < |sep| {
    } else if s[..|sep|] == sep {
      var rest := SplitFrom(s[|sep|..], sep, []);
      JoinSplitFrom(s[|sep|..], sep, []);
      assert ([cur] + rest)[1..] == rest;
      assert s == sep + s[|sep|..];
    } else {
      JoinSplitFrom(s[1..], sep, cur + [s[0]]);
      assert cur + [s[0]] + s[1..] == cur + s;
    }
  }

  /** Joining the pieces of a split with the same separator gives back the input. */
  lemma JoinSplit(s: string, sep: string)
    requires sep != []
    ensures Join(Split(s, sep), sep) == s
  {
    JoinSplitFrom(s, sep, []);
  }

  lemma {:induction false} JoinAllSpace(parts: seq<string>, sep: string)
    requires AllSpace(sep)
    requires forall k | 0 <= k < |parts| :: AllSpace(parts[k])
    ensures AllSpace(Join(parts, sep))
  {
    if |parts| > 1 {
      JoinAllSpace(parts[1..], sep);
      var j := Join(parts[1..], sep);
      assert Join(parts, sep) == parts[0] + sep + j;
      forall i | 0 <= i < |parts[0] + sep + j|
        ensures IsSpace((parts[0] + sep + j)[i])
      {
        if i < |parts[0]| {
        } else if i < |parts[0]| + |sep| {
          assert (parts[0] + sep + j)[i] == sep[i - |parts[0]|];
        } else {
          assert (parts[0] + sep + j)[i] == j[i - |parts[0]| - |sep|];
        }
      }
    }
  }

  lemma {:induction false} FirstPieceFrom(s: string, c: char, cur: string)
    ensures var p := SplitFrom(s, [c], cur)[0];
      && |cur| <= |p| <= |cur| + |s| && p == (cur + s)[..|p|] && (c !in cur ==> c !in p)
      && (|p| == |cur| + |s| || (cur + s)[|p|] == c)
    decreases |s|
  {
    if |s| < 1 {
    } else if s[..1] == [c] {
    } else {
      FirstPieceFrom(s[1..], c, cur + [s[0]]);
      assert cur + [s[0]] + s[1..] == cur + s;
    }
  }

  /**
   * The first piece of a split on a one-character separator is the prefix of the input up
   * to the first separator, or all of it when there is none; it is non-empty when the input
   * starts with another character.
   */
  lemma FirstPiece(s: string, c: char)
    ensures var p := Split(s, [c])[0];
      && |p| <= |s| && p == s[..|p|] && c !in p && (|p| == |s| || s[|p|] == c)
      && (s != [] && s[0] != c ==> p != [] && p[0] == s[0])
  {
    if s != [] && s[0] != c {
      assert s[..1] != [c];
      assert [] + [s[0]] == [s[0]];
      assert Split(s, [c]) == SplitFrom(s[1..], [c], [s[0]]);
      FirstPieceFrom(s[1..], c, [s[0]]);
      assert [s[0]] + s[1..] == s;
    } else {
      FirstPieceFrom(s, c, []);
      assert [] + s == s;
    }
  }

  lemma {:induction false} SplitFromNoSep(s: string, c: char, cur: string)
    requires c !in s
    ensures SplitFrom(s, [c], cur) == [cur + s]
    decreases |s|
  {
    if |s| >= 1 {
      assert s[..1] != [c] by { assert s[0] in s; }
      SplitFromNoSep(s[1..], c, cur + [s[0]]);
      assert cur + [s[0]] + s[1..] == cur + s;
    }
  }

  /** A string without the one-character separator splits into itself alone. */
  lemma SplitNoSep(s: string, c: char)
    requires c !in s
    ensures Split(s, [c]) == [s]
  {
    SplitFromNoSep(s, c, []);
    assert [] + s == s;
  }

  lemma {:induction false} SplitFromAllSpace(s: string, sep: string, cur: string)
    requires sep != [] && AllSpace(cur) && AllSpace(s)
    ensures forall k | 0 <= k < |SplitFrom(s, sep, cur)| :: AllSpace(SplitFrom(s, sep, cur)[k])
    decreases |s|
  {
    if |s| < |sep| {
    } else if s[..|sep|] == sep {
      SplitFromAllSpace(s[|sep|..], sep, []);
    } else {
      SplitFromAllSpace(s[1..], sep, cur + [s[0]]);
    }
  }

  /** The pieces of an all-whitespace string are all whitespace. */
  lemma SplitAllSpace(s: string, sep: string)
    requires sep != [] && AllSpace(s)
    ensures forall k | 0 <= k < |Split(s, sep)| :: AllSpace(Split(s, sep)[k])
  {
    SplitFromAllSpace(s, sep, []);
  }
}
