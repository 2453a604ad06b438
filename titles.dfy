/**
 * Title derivation (`get_section_title_from_text`): the first line of the stripped text,
 * stripped; cut back to the last space before `maxLength` and marked with "..." when it is
 * longer than `maxLength`; fixed titles for an empty and for an all-whitespace text.
 */
module Titles {
  import opened Text

  const UntitledSection: string := "Untitled Section"
  const RelevantContent: string := "Relevant Content"
  const Ellipsis: string := "..."
  /** The default `max_length`, the one the pipeline uses. */
  const DefaultMaxLength: nat := 100

  /** `text.strip().split('\n')[0].strip()`: it holds no line break and no whitespace at either end. */
  function FirstLine(text: string): (r: string)
    ensures '\n' !in r
    ensures Strip(r) == r
  {
    var piece := Split(Strip(text), "\n")[0];
    FirstPiece(Strip(text), '\n');
    StripKeepsAbsent(piece, '\n');
    StripIdempotent(piece);
    Strip(piece)
  }

  /** Stripping a string cannot introduce a character it lacks. */
  lemma StripKeepsAbsent(s: string, c: char)
    requires c !in s
    ensures c !in Strip(s)
  {
    StripRemovesOnlySpace(s);
    var i := LeadingSpace(s);
    var r := Strip(s);
    forall k | 0 <= k < |r|
      ensures r[k] != c
    {
      assert r[k] == s[i + k];
    }
  }

  /** `s.rsplit(' ', 1)[0]`: everything before the last space, or all of `s` when it has none. */
  function BeforeLastSpace(s: string): (r: string)
    ensures |r| <= |s| && r == s[..|r|]
    ensures ' ' !in s ==> r == s
    ensures ' ' in s ==> |r| < |s| && s[|r|] == ' ' && ' ' !in s[|r| + 1..]
  {
    if ' ' !in s then s
    else if s[|s| - 1] == ' ' then s[..|s| - 1]
    else
      var r := BeforeLastSpace(s[..|s| - 1]);
      assert s[|r| + 1..] == s[..|s| - 1][|r| + 1..] + [s[|s| - 1]];
      r
  }

  /**
   * `get_section_title_from_text(text, maxLength)`. A title is never longer than
   * `maxLength` plus the three characters of "...", or than the 16 characters of a fixed title.
   */
  function Title(text: string, maxLength: nat): (r: string)
    ensures text == [] ==> r == UntitledSection
    ensures |r| <= if maxLength + 3 < 16 then 16 else maxLength + 3
  {
    if text == [] then UntitledSection
    else
      var line := FirstLine(text);
      if line == [] then RelevantContent
      else if |line| > maxLength then BeforeLastSpace(line[..maxLength]) + Ellipsis
      else line
  }

  /**
   * The first line is the stripped text up to its first line break, or all of it when it
   * has none, stripped again.
   */
  lemma FirstLineIsUpToFirstBreak(text: string)
    ensures var t := Strip(text);
      exists n | 0 <= n <= |t| ::
        && '\n' !in t[..n] && (n == |t| || t[n] == '\n')
        && FirstLine(text) == Strip(t[..n])
  {
    var t := Strip(text);
    var p := Split(t, "\n")[0];
    FirstPiece(t, '\n');
    assert t[..|p|] == p;
  }

  /** The first line is a run of characters of the text. */
  lemma FirstLineIsSlice(text: string)
    ensures IsSliceOf(FirstLine(text), text)
  {
    var stripped := Strip(text);
    var piece := Split(stripped, "\n")[0];
    StripIsSliceOf(text);
    FirstPiece(stripped, '\n');
    assert IsSliceOf(piece, stripped) by { assert stripped[0..|piece|] == piece; }
    StripIsSliceOf(piece);
    SliceOfSliceIsSlice(piece, stripped, text);
    SliceOfSliceIsSlice(FirstLine(text), piece, text);
  }

  /** The first line is empty exactly when the whole text is whitespace. */
  lemma FirstLineEmptyIff(text: string)
    ensures FirstLine(text) == [] <==> AllSpace(text)
  {
    var stripped := Strip(text);
    var piece := Split(stripped, "\n")[0];
    StripEmptyIff(text);
    StripEnds(text);
    FirstPiece(stripped, '\n');
    if stripped != [] {
      assert piece != [] && !IsSpace(piece[0]);
      StripEmptyIff(piece);
    } else {
      assert piece == [];
    }
  }

  /** Non-empty text of whitespace only: the fixed title "Relevant Content". */
  lemma TitleOfBlank(text: string, maxLength: nat)
    requires text != [] && AllSpace(text)
    ensures Title(text, maxLength) == RelevantContent
  {
    FirstLineEmptyIff(text);
  }

  /** A first line that fits is returned verbatim. */
  lemma TitleFits(text: string, maxLength: nat)
    requires !AllSpace(text) && |FirstLine(text)| <= maxLength
    ensures Title(text, maxLength) == FirstLine(text)
  {
    FirstLineEmptyIff(text);
  }

  /**
   * A longer first line is cut to its first `maxLength` characters, then back to just
   * before the last space among them (if any), and "..." is appended.
   */
  lemma TitleTruncated(text: string, maxLength: nat)
    requires |FirstLine(text)| > maxLength
    ensures var line := FirstLine(text);
      exists cut: string | Title(text, maxLength) == cut + Ellipsis ::
        && |cut| <= maxLength
        && cut == line[..|cut|]
        && (' ' !in line[..maxLength] ==> |cut| == maxLength)
        && (' ' in line[..maxLength] ==> line[|cut|] == ' ' && ' ' !in line[|cut| + 1..maxLength])
  {
    var line := FirstLine(text);
    FirstLineEmptyIff(text);
    var cut := BeforeLastSpace(line[..maxLength]);
    assert Title(text, maxLength) == cut + Ellipsis;
    if ' ' in line[..maxLength] {
      assert line[..maxLength][|cut| + 1..] == line[|cut| + 1..maxLength];
    }
  }

  /** A single stripped line that fits is its own title. */
  lemma TitleOfLine(line: string, maxLength: nat)
    requires line != [] && Strip(line) == line && '\n' !in line && |line| <= maxLength
    ensures Title(line, maxLength) == line
  {
    SplitNoSep(line, '\n');
  }
}
