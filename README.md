# Persona-driven document analyst: the ranking core in Dafny

This project models the relevance-ranking core of `main.py`. A document arrives as its extracted
pages, each a page number and a text. The analyst cuts every page into paragraphs at blank lines
and drops the ones that are empty after stripping. Each remaining paragraph becomes a *content
unit*, tagged with the document name, the page number and its index on the page. The keywords
are the lower-cased, alphanumeric, non-stop-word tokens of the persona description and of the
job description, united. Each unit then gets a *relevance score*: the number of distinct keywords
among the tokens of its normalised text, divided by the total number of tokens. Units scoring 0
are dropped. The rest are sorted by score, highest first, with equal scores kept in document
order. The first ten are emitted twice, in two aligned lists:

- as ranked sections, with a title derived from the paragraph's first line and ranks 1 to 10;
- as sub-sections, with the full paragraph text.

Modules, in dependency order:

- `Text` holds the Python string primitives the core uses: `str.isspace`, `str.strip`,
  `str.split(sep)`, `str.lower` on ASCII, and `sep.join` as the inverse of split.
- `Lexicon` holds the tokenizer type and `Words`, a concrete whitespace tokenizer (`str.split()`).
- `Normalize` is `preprocess_text`.
- `Keywords` is `get_keywords` and the union of the persona's and the job's keywords.
- `Relevance` is `calculate_relevance_score`.
- `Titles` is `get_section_title_from_text`.
- `Segmenter` is the page-to-unit loop of `intelligent_document_analyst`.
- `Ranking` is the score filter, the sort and the top-ten selection, as functions.
- `Analyst` holds the imperative pipeline. `AnalyzeDocument` and its loop methods are proved
  against the functions of `Segmenter` and `Ranking`.

The word tokenizer and the stop-word list are parameters: any `string -> seq<string>` function
and any set of strings. Lemmas that need a property of the tokenizer assume only that its
alphanumeric tokens are made of characters of the text (`KeepsAlnumCharacters`), or they are
stated for `Words`. NLTK's `word_tokenize` meets that hypothesis: the characters it rewrites,
such as a double quote turned into two backquotes or two apostrophes, only ever form tokens that
are not alphanumeric.

The segmentation has a whole-page fallback (main.py:77-78). It applies when no piece between blank
lines is non-empty after stripping. In that case the whole page is whitespace
(`Segmenter.ParagraphsEmptyIff`), so the fallback paragraph is the empty string, which is then
skipped (main.py:81). A page with any non-whitespace character always yields a unit through the
paragraph split itself (`Segmenter.PageYieldsUnitIff`). The model keeps the fallback exactly as
written.

## Model

| member | source | states |
|---|---|---|
| Text.Lower | main.py:35 | lower-casing keeps the length and maps each character on its own; ASCII capitals become small letters and every other character is unchanged |
| Text.Strip | main.py:61 | `strip()` returns no more than what follows the leading whitespace; its content is fixed by the two lemmas below |
| Text.StripRemovesOnlySpace | main.py:61 | `strip()` returns the slice of its input between a whitespace prefix and a whitespace suffix |
| Text.StripEnds | main.py:61 | a stripped string is empty or has non-whitespace characters at both ends |
| Text.StripEmptyIff | main.py:76 | a piece strips to the empty string exactly when it is all whitespace |
| Text.StripIdempotent | main.py:61 | stripping twice is stripping once |
| Text.Split | main.py:76 | `split(sep)` always yields at least one piece |
| Text.JoinSplit | main.py:76 | the pieces of `split(sep)` joined back with `sep` give the input: splitting loses and invents nothing |
| Text.SplitPiecesFree | main.py:76 | no piece of `split(sep)` contains `sep` |
| Text.SplitCutsLeftmost | main.py:76 | `split(sep)` scans from the left: a piece followed by `sep` holds no earlier occurrence of `sep`, so each cut is at the leftmost occurrence after the previous one |
| Text.FirstPiece | main.py:61 | the first piece of `split('\n')` is the prefix of the text up to its first line break, or all of it when there is none; it is non-empty when the text starts with another character |
| Text.SplitNoSep | main.py:61 | a string without the separator splits into itself alone |
| Text.SplitAllSpace | main.py:76 | every piece of an all-whitespace text is all whitespace |
| Lexicon.Words | main.py:51 | the whitespace tokenizer yields no more tokens than the text has characters |
| Lexicon.WordsAreWords | main.py:51 | the whitespace tokenizer yields non-empty runs of non-whitespace characters |
| Lexicon.WordsKeepsCharacters | main.py:51 | the whitespace tokenizer invents no characters, so it meets the tokenizer hypothesis |
| Lexicon.WordsEmptyIff | main.py:52 | a text yields no tokens exactly when it is all whitespace |
| Lexicon.WordsAppend | main.py:51 | two texts joined by a whitespace character tokenize into the tokens of each, in order |
| Lexicon.WordOfWord | main.py:51 | a single word tokenizes into itself |
| Normalize.KeepNormal | main.py:36 | the pattern substitution leaves a string no longer than its input, holding only `a`-`z`, `0`-`9` and whitespace |
| Normalize.Preprocess | main.py:33-37 | the normalised text is no longer than the input and holds only `a`-`z`, `0`-`9` and whitespace |
| Normalize.PreprocessOfNormal | main.py:33-37 | text made only of those characters is left unchanged |
| Normalize.PreprocessIdempotent | main.py:33-37 | normalising twice is normalising once |
| Normalize.PreprocessAppend | main.py:33-37 | normalisation distributes over concatenation |
| Normalize.PreprocessChar | main.py:35-36 | a single character becomes its lower-case form if that is a letter, digit or whitespace, and disappears otherwise |
| Normalize.PreprocessKeepsAlnum | main.py:35-36 | every ASCII letter and digit of the input survives, capitals as small letters |
| Keywords.GetKeywords | main.py:39-44 | the keywords are exactly the alphanumeric tokens of the lower-cased description that are not stop words |
| Keywords.CombinedKeywords | main.py:89-91 | the combined set holds the keywords of the persona and of the job, and nothing else |
| Keywords.KeywordsAreLowercaseAlnum | main.py:42-43 | with a tokenizer whose alphanumeric tokens are made of characters of the text, a keyword is a non-empty word of small letters and digits, is not a stop word, and is unchanged by normalisation |
| Keywords.NoKeywordsFromBlank | main.py:39-44 | with such a tokenizer, an empty or all-whitespace description yields no keywords |
| Keywords.CombinedIsJoinedDescription | main.py:89-91 | with the whitespace tokenizer, the union equals the keywords of persona and job joined by a space |
| Relevance.Matched | main.py:54 | the matched set is exactly the tokens of the text that are keywords |
| Relevance.MatchedBound | main.py:54-55 | there are never more distinct matches than tokens |
| Relevance.Density | main.py:55 | a density lies between 0 and 1 |
| Relevance.RelevanceScore | main.py:46-55 | a score lies between 0 and 1 |
| Relevance.ScorePositiveIff | main.py:46-55 | the score is positive exactly when the text is non-empty and some token of its normalised text is a keyword |
| Relevance.DensityRepeat | main.py:54-55 | repeating a token already present leaves the matches unchanged and does not raise the density |
| Relevance.DensityMonotone | main.py:54-55 | more keywords never lower a density |
| Relevance.ScoreMonotone | main.py:46-55 | more keywords never lower a score |
| Relevance.RepetitionNeverRaisesScore | main.py:46-55 | with the whitespace tokenizer, appending a word the text already contains never raises its score |
| Titles.BeforeLastSpace | main.py:64 | `rsplit(' ', 1)[0]` is a prefix ending just before the last space, or the whole string when it has no space |
| Titles.FirstLine | main.py:61 | the first line has no line break and no whitespace at either end |
| Titles.FirstLineIsUpToFirstBreak | main.py:61 | the first line is the stripped text up to its first line break (or all of it when there is none), stripped again |
| Titles.Title | main.py:57-66 | an empty text gets "Untitled Section"; a title is at most `max_length + 3` characters long, or 16 for the fixed titles |
| Titles.FirstLineIsSlice | main.py:61 | the first line is a contiguous run of characters of the text |
| Titles.FirstLineEmptyIff | main.py:61-62 | the first line is empty exactly when the text is all whitespace |
| Titles.TitleOfBlank | main.py:59-66 | a non-empty all-whitespace text gets the title "Relevant Content" |
| Titles.TitleFits | main.py:62-65 | a first line that fits in `max_length` is the title verbatim |
| Titles.TitleTruncated | main.py:63-64 | a longer first line is cut to `max_length` characters, then back to just before the last space among them (if any), and "..." is appended |
| Titles.TitleOfLine | main.py:59-65 | a single stripped line that fits is its own title |
| Segmenter.StrippedNonEmpty | main.py:76 | each paragraph kept is non-empty and already stripped, and there are no more of them than pieces |
| Segmenter.StrippedNonEmptyAppend | main.py:76 | the comprehension works piece by piece: two runs of pieces give their results in order |
| Segmenter.StrippedNonEmptyOne | main.py:76 | one piece yields its stripped form when that is non-empty, and nothing otherwise |
| Segmenter.StrippedNonEmptySepFree | main.py:76 | stripping pieces without a blank line cannot create one |
| Segmenter.Paragraphs | main.py:76 | each paragraph is non-empty, stripped, and holds no blank line |
| Segmenter.PageParagraphs | main.py:76-78 | with the fallback there is always at least one paragraph, each stripped |
| Segmenter.PageUnits | main.py:80-87 | a page yields no more units than paragraphs |
| Segmenter.UnitsOfPage | main.py:75-87 | a page yields no more units than it has paragraphs, counting the fallback paragraph |
| Segmenter.Segment | main.py:75-87 | the units of every page, page after page; its properties are the lemmas `SegmentAppend`, `SegmentStep`, `SegmentCutsAtBlankLines` and `SegmentWellFormed` |
| Segmenter.NoneKeptMeansAllBlank | main.py:76-77 | when no paragraph is kept, every piece was all whitespace |
| Segmenter.BlankPiecesKeepNothing | main.py:76 | all-whitespace pieces yield no paragraph |
| Segmenter.ParagraphsEmptyIff | main.py:76-78 | a page has no paragraphs exactly when its text is all whitespace |
| Segmenter.PageUnitsOfNonEmpty | main.py:80-87 | non-empty paragraphs each become one unit, indexed by position |
| Segmenter.UnitsOfPageAreParagraphs | main.py:75-87 | the units of a page are its paragraphs in order, tagged with the document, the page number and the index from 0 |
| Segmenter.PageYieldsUnitIff | main.py:75-87 | a page yields a unit exactly when its text is not all whitespace |
| Segmenter.UnitsOfPageWellFormed | main.py:80-87 | every unit of a page carries the document, the page number and a non-empty stripped text |
| Segmenter.SegmentAppend | main.py:75 | segmenting two runs of pages concatenates their units: units come in page order |
| Segmenter.SegmentStep | main.py:75-87 | one more page adds its units at the end |
| Segmenter.SegmentCutsAtBlankLines | main.py:75-87 | no unit holds a blank line: every page is cut at every blank line |
| Segmenter.SegmentWellFormed | main.py:75-87 | every unit carries the document name, a non-empty stripped text and the number of one of the pages |
| Ranking.Kept | main.py:95-98 | a unit contributes at most one entry |
| Ranking.ScoreAndFilter | main.py:93-98 | no more entries are kept than there are units |
| Ranking.ScoreAndFilterAppend | main.py:94-98 | filtering two runs of units concatenates the results: kept entries stay in document order |
| Ranking.ScoreAndFilterStep | main.py:94-98 | one more unit adds at most its own scored entry, at the end |
| Ranking.ScoreAndFilterKeepsPositive | main.py:94-98 | an entry is kept exactly when its unit is one of the units and its score is that unit's score and is positive |
| Ranking.NoKeywordsKeepNothing | main.py:48-49 | with no keywords nothing is kept |
| Ranking.InsertByScore | main.py:100 | insertion adds exactly one entry |
| Ranking.SortByScore | main.py:100 | the sort keeps the number of entries |
| Ranking.InsertByScorePermutes | main.py:100 | insertion adds the one entry and loses none |
| Ranking.InsertByScoreSorted | main.py:100 | insertion into a list sorted by descending score keeps it sorted |
| Ranking.SortByScoreSortsAndPermutes | main.py:100 | the sort orders by descending score and is a permutation |
| Ranking.SortByScoreStable | main.py:100 | the sort is stable: entries of equal score keep their relative order |
| Ranking.Top | main.py:105-106 | the selection is the first `min(n, 10)` entries |
| Ranking.TopIsBest | main.py:105-106 | from a sorted list, each selected entry scores at least as high as every entry left out |
| Ranking.TopOfSorted | main.py:100-106 | the selection from the sorted entries is sorted and holds only entries given to the sort |
| Ranking.Ranked | main.py:93-100 | the ranked entries are sorted by descending score and are no more than the document's units |
| Ranking.SelectionIsRanked | main.py:93-106 | the selected entries are sorted by score, all score above 0 with their own unit's score, and are units of the document |
| Analyst.SegmentPage | main.py:76-87 | the inner loop builds exactly the units of the page |
| Analyst.SegmentPages | main.py:75-87 | the outer loop builds exactly the segmentation of all pages, in page order |
| Analyst.ScoreUnits | main.py:93-98 | the scoring loop keeps exactly the units with a positive score, with that score, in document order |
| Analyst.Emit | main.py:102-117 | the output lists have one entry per selected unit; entry `i` has rank `i + 1`, the unit's location and title, and its full text |
| Analyst.AnalyzeDocument | main.py:70-128 | the outputs are the entries of the ten best-scoring units in sorted order: equal length, at most ten, ranks 1, 2, ..., the document's name, and a non-empty text |
| Analyst.BlankRequestSelectsNothing | main.py:89-100 | with a tokenizer whose alphanumeric tokens are made of characters of the text, an empty or all-whitespace persona and job select nothing |

## Left out

- PDF text extraction (main.py:19-31) is not part of this model. The pages arrive as a parameter. Pages with no text are skipped by the extractor, so they never reach the model.
- The NLTK tokenizer and stop-word list (main.py:41-42, 51) are parameters. Their internals are not modelled: Punkt sentence splitting, Treebank tokenization and the English stop-word file.
- Text.Lower and Text.IsAlnum cover the ASCII range only. Python's Unicode case mapping and `str.isalnum` are not modelled. For example, the Kelvin sign lower-cases to `k` in Python, and `é` counts as alphanumeric there. Python's `\s` in `preprocess_text` is the same set as `str.isspace`, which `Text.IsSpace` lists in full.
- Relevance.RelevanceScore is an exact rational, not an IEEE double. Rounding could in principle make two different ratios compare equal.
- The metadata block (main.py:119-125) is not produced: the persona, the job and the clock-dependent timestamp. The outputs are the two lists.
- `os.path.basename` (main.py:72) is not modelled. The document name is a parameter.
- The container entry point (main.py:132-167) is left out: environment variables, directory listing, JSON writing and console messages.
- The in-place `item['score'] = score` and the in-place `list.sort` are modelled as values. A scored unit is a new value, and the sorted list is assigned back. Python's Timsort is modelled by a stable insertion sort, which gives the same result because both are stable sorts by the same key.
- Titles.Title takes `max_length` as a natural number; the pipeline always uses 100. Negative lengths, which Python would slice from the end, are not modelled.
- Text.Split requires a non-empty separator. Python raises an error on an empty one, and the source never passes one.
