# PDF comparison core in Dafny

This project models the comparison engine of a tool that checks a generated PDF against an
original one. The engine lives in `compare.py`. The model covers these steps:

- **Line extraction.** `extract_lines_with_bbox` takes the page, block, line and span
  structure a layout pass reports. It joins each line's spans and strips the result. It drops
  empty lines, numbers the kept lines per page and gives each line the union of its spans'
  boxes.
- **Normalisation** (`normalize_text`).
- **The similarity guard** (`similarity_score`).
- **Spatial best-match search** (`find_best_match`), with its fallback to every original line.
- **Word-level diff rendering** (`word_level_diff_html`).
- **Row and summary aggregation.** This is the loop of `compare_pdfs_and_build_pairs`. It
  produces per-line rows, the character and line totals, both accuracies and the error
  breakdown.
- **Bag-of-words content accuracy** (`pdf_content_accuracy`).
- **Word extraction** (`extract_pdf_words`) and the exact word-list comparison
  (`compare_pdfs_content_only`).

Python's `str` operations are modelled in module `PyText`: `isspace`, `strip`, `split()`,
`join` and `lower`. Strings are sequences of Unicode scalar values. A Python `str` holds any
code point, so lone surrogates (U+D800 to U+DFFF) are outside the model.

The model replaces these collaborators with parameters:

- **rapidfuzz's `token_sort_ratio`** becomes a `Ratio` parameter: any function into 0..100.
- **`difflib.SequenceMatcher.get_opcodes`** becomes a `Differ` parameter. Its opcode lists must
  be well formed: they tile both token sequences in order, and `equal` runs hold equal tokens.
- **The PDF library.** Its pages, blocks, lines and spans, and its word lists, are input data.

Levenshtein distance is defined directly, as the usual recursive minimum.

Some behaviour of the code is easy to misread from its docstrings and names; the model
follows the code:

- **`compare_pdfs_content_only` compares two ordered, case-sensitive word lists with `==`.**
  Its docstring (compare.py:1142) promises "the same content", ignoring whitespace and page
  boundaries; word order and case still count. `pdf_content_accuracy` (compare.py:336-342)
  is the comparison that ignores order. `Content.ReorderedNotEqual` shows two documents that
  differ only in word order. Their content accuracy is 100 %, yet they are not content-equal.
- **Character accuracy cannot go negative.** Each row's edit distance is at most the longer
  text's length, which is at most the row's character count. So `Aggregate.ComparePairs`
  proves `total_char_diffs <= total_chars`, and both accuracies lie in [0, 1] although the
  code does not clamp them.
- **A `no_match` row arises only when the original document has no lines at all.** The
  fallback in `find_best_match` scores every original line once none is nearby, so every
  generated line gets a best candidate whenever there is one original line.
- **The replacement of U+00A0 in `normalize_text` is redundant.** Python's `split()` already
  treats U+00A0 as whitespace (`Normalize.SplitReplaceNbsp`).

## Model

| member | source | states |
|---|---|---|
| PyText.StripLeft | compare.py:99 | `lstrip()` returns a suffix of its input that is empty or starts with a non-whitespace character |
| PyText.StripRight | compare.py:99 | `rstrip()` returns a prefix of its input that is empty or ends with a non-whitespace character |
| PyText.StripLeftSpace | compare.py:99 | what `lstrip()` removes is whitespace only |
| PyText.StripRightSpace | compare.py:99 | what `rstrip()` removes is whitespace only |
| PyText.Strip | compare.py:99 | `strip()` returns a string with no whitespace at either end, no longer than its input |
| PyText.StripRemovesSpace | compare.py:99 | the input is leading whitespace, then the `strip()` result, then trailing whitespace |
| PyText.StripFixedIff | compare.py:198 | a string is its own `strip()` exactly when it has no whitespace at either end |
| PyText.StripNoop | compare.py:198 | `strip()` leaves an already trimmed string unchanged |
| PyText.StripEmptyAll | compare.py:100 | when `strip()` leaves nothing, every character was leading whitespace |
| PyText.StripRightKeepsFirst | compare.py:99 | `rstrip()` keeps a string that starts with a non-whitespace character non-empty |
| PyText.StripEmptyIff | compare.py:100 | `strip()` is empty (falsy) exactly when the string is all whitespace |
| PyText.WordLen | compare.py:196 | the leading run of non-whitespace characters is maximal: it ends at the end of the string or at whitespace |
| PyText.Split | compare.py:196 | `split()` yields only non-empty whitespace-free words |
| PyText.JoinAppend | compare.py:196 | joining a concatenation of two non-empty lists puts the separator once between the two joins |
| PyText.WordThenRest | compare.py:196 | splitting a word followed by nothing or by whitespace yields that word first, then the split of the rest |
| PyText.SplitLeadingSpace | compare.py:196 | `split()` drops a leading whitespace character of any kind: the rest splits the same |
| PyText.SplitWord | compare.py:196 | a single word splits into itself |
| PyText.SplitWordSpace | compare.py:196 | a word followed by any whitespace character splits as that word, then the split of what follows the character; with the two lemmas above and `Split([]) == []` this fixes `split()` on every string |
| PyText.SplitDoubleSpace | compare.py:196-197 | two adjacent whitespace characters are dropped like one, so runs of whitespace collapse |
| PyText.SplitTwoWordsRun | compare.py:196-197 | two words separated by a run of two whitespace characters split into exactly those two words |
| PyText.WordLenOf | compare.py:196 | the leading word of a word followed by whitespace is exactly that word |
| PyText.SplitJoin | compare.py:196 | round trip: `" ".join(ws).split() == ws` for whitespace-free words |
| PyText.JoinSpaced | compare.py:196 | `" ".join(ws)` of words is single-spaced: no leading, trailing or doubled whitespace, and only plain spaces |
| PyText.JoinSplitSpaced | compare.py:196 | round trip: a single-spaced string equals `" ".join` of its own `split()` |
| PyText.SpacedRest | compare.py:196 | in a single-spaced string the first word is followed by one plain space and a single-spaced rest |
| PyText.LowerChar | compare.py:198 | lowering a character maps whitespace to whitespace and nothing else to whitespace |
| PyText.LowerCharIdempotent | compare.py:198 | lowering a character twice equals lowering it once |
| PyText.Lower | compare.py:198 | `lower()` keeps the length and lowers each character in place |
| PyText.LowerAll | compare.py:349-350 | `[w.lower() for w in ws]` lowers each word in place |
| PyText.LowerIdempotent | compare.py:198 | `lower()` is idempotent |
| PyText.LowerSpaced | compare.py:198 | lowering keeps a string single-spaced |
| PyText.LowerJoin | compare.py:196-198 | lowering a space-join equals joining the lowered words |
| PyText.LowerAllWords | compare.py:196-198 | lowered words are still whitespace-free and non-empty |
| Normalize.ReplaceNbsp | compare.py:195 | every U+00A0 becomes a plain space, every other character is kept in place, and no U+00A0 remains |
| Normalize.NormalizeText | compare.py:192-200 | `None` gives ""; the result is single-spaced, lower-case, trimmed and free of U+00A0; its words are exactly the input's words lower-cased |
| Normalize.PipelineFacts | compare.py:195-198 | replace, split, join, strip and lower equal the lowered words joined by single spaces |
| Normalize.SpacedTrimmed | compare.py:196-198 | a single-spaced string has no whitespace at its ends, so the `strip()` after the join is a no-op |
| Normalize.NormalizedFixed | compare.py:192-200 | a normalised string is a fixed point of `normalize_text` |
| Normalize.NormalizeIdempotent | compare.py:192-200 | normalising twice equals normalising once |
| Normalize.SplitReplaceNbsp | compare.py:195-196 | replacing U+00A0 by a space does not change `split()`, so the replacement is redundant |
| Normalize.SplitSameShape | compare.py:196 | strings that agree except where both have whitespace split identically |
| Normalize.WordLenSame | compare.py:196 | such strings have the same leading word length |
| Similarity.SimilarityScore | compare.py:202-207 | two empty strings score 100, exactly one empty scores 0, and only two non-empty strings reach the ratio |
| Similarity.ZeroScore | compare.py:202-207 | a zero score means exactly one side was empty or the ratio itself gave 0 |
| Similarity.ScoreSymmetric | compare.py:202-207 | the score is symmetric whenever the ratio is |
| Similarity.ScoreReflexive | compare.py:202-207 | a line scores 100 against itself whenever the ratio does |
| Matcher.NearbyFrom | compare.py:211-215 | lists, in increasing order, exactly the original lines within the page window and the widening vertical tolerance |
| Matcher.Scored | compare.py:216-217 | pairs each candidate with its similarity on the normalised texts |
| Matcher.Pool | compare.py:210-221 | the candidates are the nearby lines, or every line when none is nearby; the pool is empty only when there are no original lines |
| Matcher.MaxFrom | compare.py:222 | `max` with a key scans on: the result is a greatest score, strictly above every earlier one |
| Matcher.FirstMax | compare.py:222 | `max(candidates, key=score)` returns the first candidate of greatest score |
| Matcher.FindBestMatch | compare.py:209-222 | `(0, None)` exactly when there are no original lines; otherwise an eligible line of greatest score over the eligible lines, and the first such in `orig_lines` order |
| Matcher.ArgMaxIsFirst | compare.py:222 | the first maximum of the pool is the first maximum over all eligible lines in document order |
| Matcher.PositionOf | compare.py:214-220 | locates a pool member's position in the pool |
| Matcher.IncreasingOrder | compare.py:214-220 | the pool is built in `orig_lines` order, so a smaller line index comes earlier in it |
| WordDiff.CoversBounded | compare.py:238 | opcodes that tile both token lists stay inside them |
| WordDiff.Wrap | compare.py:230-248 | a marked run's HTML is strictly longer than its text |
| WordDiff.NonEmpty | compare.py:250 | `filter(None, outs)` keeps exactly the non-empty strings: a string is kept when and only when it is a non-empty input, a single input is kept or dropped by itself, and never more strings than came in |
| WordDiff.NonEmptyAppend | compare.py:250 | the filter keeps the order: filtering a concatenation is the concatenation of the filtered parts |
| WordDiff.Renders | compare.py:240-248 | every rendered piece appears at its own position |
| WordDiff.GenPieces | compare.py:239-248 | the generated side carries only the `replace-generated` and `deleted-from-generated` classes |
| WordDiff.OrigPieces | compare.py:239-248 | the original side carries only the `replace-original` and `added-to-original` classes |
| WordDiff.GenRun | compare.py:240-247 | an opcode adds nothing to `a_out` exactly when it is an `insert`, otherwise one run of `a_tokens[i1:i2]`, unmarked exactly for `equal`, marked `replace-generated` for `replace` and `deleted-from-generated` for `delete` |
| WordDiff.OrigRun | compare.py:240-248 | an opcode adds nothing to `b_out` exactly when it is a `delete`, otherwise one run of `b_tokens[j1:j2]`, unmarked exactly for `equal`, marked `replace-original` for `replace` and `added-to-original` for `insert` |
| WordDiff.GenPiecesShape | compare.py:239-248 | the generated side follows the opcodes one by one: its unmarked runs are exactly the `equal` runs of `a_tokens` in order, and its marked runs carry one `replace-generated` per `replace` and one `deleted-from-generated` per `delete`, in opcode order |
| WordDiff.OrigPiecesShape | compare.py:239-248 | the original side follows the opcodes one by one: its unmarked runs are exactly the `equal` runs of `b_tokens` in order, and its marked runs carry one `replace-original` per `replace` and one `added-to-original` per `insert`, in opcode order |
| WordDiff.MarksAppend | compare.py:239-248 | the classes of concatenated pieces are the concatenated classes |
| WordDiff.WordLevelDiff | compare.py:224-250 | both empty gives two empty strings; one empty wraps the other whole as missing; otherwise each side is its rendered runs joined by spaces |
| WordDiff.GenCoversFrom | compare.py:239-248 | the generated pieces from a tiling position show the remaining generated tokens, in order |
| WordDiff.OrigCoversFrom | compare.py:239-248 | the original pieces from a tiling position show the remaining original tokens, in order |
| WordDiff.DiffCoversTokens | compare.py:232-250 | with the markup removed, each side shows exactly its own line's tokens, each once and in order |
| WordDiff.PlainRunsAgree | compare.py:240-242 | the unmarked runs of the two sides are the same token runs |
| WordDiff.WordsAppend | compare.py:239-248 | the words of concatenated pieces are the concatenated words |
| WordDiff.PlainRunsAppend | compare.py:239-248 | the unmarked runs of concatenated pieces are the concatenated runs |
| WordDiff.EqualRunsSame | compare.py:240-242 | with only `equal` runs, both sides are the same unmarked pieces |
| WordDiff.JoinNotEmpty | compare.py:250 | joining a list that starts with a non-empty string is non-empty |
| WordDiff.PlainRender | compare.py:241-250 | unmarked pieces of words render as those words joined by single spaces |
| WordDiff.UnchangedLine | compare.py:224-250 | a pair with only `equal` runs has the same words on both sides and renders unmarked |
| WordDiff.UnchangedSpacedLine | compare.py:224-250 | for single-spaced lines such as normalised ones, an unchanged pair renders as the lines themselves |
| WordDiff.ExampleTokens | compare.py:233-234 | "a b c" and "a x c" split into three one-letter tokens |
| WordDiff.ExamplePieces | compare.py:239-248 | the opcodes equal, replace, equal tile those tokens and give the marked middle run on each side |
| WordDiff.ThreeRender | compare.py:241-250 | three one-word runs with the middle one marked render as the words, single spaces apart, with the middle one wrapped |
| WordDiff.ThreeRenders | compare.py:241-245 | each of those runs renders as its word, the middle one wrapped |
| WordDiff.NonEmptyThree | compare.py:250 | `filter(None, …)` keeps three non-empty strings |
| WordDiff.JoinThree | compare.py:250 | `" ".join` of three strings puts one space between neighbours |
| WordDiff.ReplacedWordExample | compare.py:224-250 | "a b c" against "a x c" marks only the middle word, as replaced on both sides |
| Levenshtein.Min3 | compare.py:270 | the minimum of three counts is one of them and at most each |
| Levenshtein.Distance | compare.py:270-271 | the edit distance is at most the longer length, hence within the row's character count |
| Levenshtein.DistanceAtLeastLengthGap | compare.py:270 | the edit distance is at least the difference in length |
| Levenshtein.DistanceZeroIff | compare.py:270 | the edit distance is zero exactly for equal strings |
| Levenshtein.DistanceSymmetric | compare.py:270 | the edit distance is symmetric |
| Extract.JoinedText | compare.py:99 | no spans join to the empty string and one span to its own text (missing text reading as ""); no span's text is longer than the joined text |
| Extract.JoinedTextAppend | compare.py:99 | joining spans split anywhere gives the concatenation of the two parts' joined texts, with nothing between them |
| Extract.MinOf | compare.py:102-103 | `min` is a member of the list and at most every element |
| Extract.MaxOf | compare.py:104-105 | `max` is a member of the list and at least every element |
| Extract.LineBox | compare.py:102-105 | the line's box is the union of its spans' boxes, with 1e9 and 0 standing in for a missing bbox; each coordinate comes from some span |
| Extract.TextNeedsSpans | compare.py:99-101 | a line with non-empty text has at least one span, so the `min`/`max` are defined |
| Extract.TextLines | compare.py:94-97 | a line is selected exactly when it belongs to a block of type 0; a single block gives its own lines or none |
| Extract.TextLinesAppend | compare.py:94-97 | the lines of concatenated block lists are the concatenated lines, so block order and line order are kept |
| Extract.Prepare | compare.py:98-101 | a prepared line keeps the line's spans and the stripped join of their texts, which is trimmed and, when non-empty, comes with spans |
| Extract.PrepareAll | compare.py:97-101 | line k of the page is prepared into entry k, with its stripped text and its own spans |
| Extract.Kept | compare.py:100-101 | a line survives `if not text: continue` exactly when its stripped text is non-empty; no more lines come out than went in |
| Extract.KeptAppend | compare.py:97-101 | the filter keeps the order: filtering a concatenation is the concatenation of the filtered parts |
| Extract.NumberLines | compare.py:93-106 | the kept lines are numbered consecutively from the counter plus one |
| Extract.NumberShift | compare.py:106 | numbering a kept head line shifts the numbers of the rest by one |
| Extract.Records | compare.py:102-112 | each record carries the page, the line number, the stripped text and the union box of the line it was built from |
| Extract.ExtractPage | compare.py:90-112 | a page's records carry page `pno + 1`, are numbered 1, 2, … and have non-empty trimmed text |
| Extract.ExtractPageIsLoop | compare.py:92-112 | a page's records are, in order, one per line of a type-0 block whose stripped text is non-empty, numbered 1, 2, … and carrying that line's stripped text and box: exactly what the loop yields |
| Extract.RecordsLoop | compare.py:96-112 | the records of the numbered kept lines are those of the line-by-line loop, from any counter |
| Extract.NumberLinesStep | compare.py:98-108 | one loop step numbers the first line when its stripped text is non-empty and skips it otherwise |
| Extract.NumberedRecordable | compare.py:100-101 | every numbered line has non-empty text and spans, so it yields a record |
| Extract.RecordsCons | compare.py:109-112 | the record of a leading line comes first, followed by the records of the rest |
| Extract.PerPage | compare.py:89-112 | each page's records are that page's extraction |
| Extract.Flatten | compare.py:89-113 | the concatenated records have pages in range and in order, line numbers restart at 1 on each page and count up by one, and texts are non-empty and trimmed |
| Extract.PagesAppend | compare.py:89-113 | appending a page's records before later pages keeps the ordering and numbering |
| Extract.ExtractLines | compare.py:86-114 | records carry pages 1..N in non-decreasing order, line numbers 1, 2, … within each page, and non-empty trimmed text; the records of page p are exactly that page's own extraction |
| Extract.OnPage | compare.py:109 | filtering by page keeps only that page's records |
| Extract.OnPageAppend | compare.py:109 | filtering by page distributes over concatenation |
| Extract.OnPageAll | compare.py:109 | filtering records all on page p for p keeps them all |
| Extract.OnPageNone | compare.py:109 | filtering records none on page p for p keeps none |
| Extract.ExtractLinesByPage | compare.py:86-114 | the records of page p are exactly page p's own extraction, and none exist outside 1..N |
| Extract.FlattenByPage | compare.py:89-113 | the flattened records of page p are exactly that page's records |
| Aggregate.RowFor | compare.py:268-312 | a row is `no_match` exactly when the matcher found nothing, and then wraps the whole generated text as `no-match` with an empty original side; a matched row carries both lines, the score, the y delta, the edit distance and the word diff of the two texts, and is `match` exactly when the score reaches the threshold |
| Aggregate.MatchedRow | compare.py:269-293 | a matched row's edit distance is the Levenshtein distance, within its character count, its HTML is the word diff of the two texts, and `matched` is `score >= threshold` |
| Aggregate.PairHtml | compare.py:276 | two empty texts render as two empty strings |
| Aggregate.LineRow | compare.py:267-305 | the row is the one the loop appends (`LineRowFields`): generated page, number and text from the line; the best match's score as similarity; with no original lines a `no-match` wrap of the text, no original side, no y delta and the whole line as edits; otherwise the best match's page, line number and text, the word-diff HTML of the two texts, `y_delta = g.y0 - o.y0`, their Levenshtein distance, and `match` exactly when the score reaches the threshold; the row is sound |
| Aggregate.Count | compare.py:327-329 | a count of rows by error type is at most the number of rows |
| Aggregate.RowChars | compare.py:271 | a row adds at least one character, and at least the length of each of its texts |
| Aggregate.CharAccuracy | compare.py:314 | in [0, 1], 0 when nothing was counted, and 1 exactly when no character differs |
| Aggregate.LineAccuracy | compare.py:315 | in [0, 1], 1 exactly when every line matched, 0 exactly when none did |
| Aggregate.Rows | compare.py:266-305 | one row per generated line, in order, each the row the loop appends for that line (`LineRowFields`: page, number, text, best match's original side, HTML, y delta, edit distance, similarity and the threshold test), and each sound |
| Aggregate.Summarize | compare.py:262-331 | the totals are the sums over the rows; the three error counts partition the rows; diffs never exceed chars; line accuracy is 1 exactly when every row matched and 0 exactly when none did |
| Aggregate.ComparePairs | compare.py:252-331 | row i is the row the loop appends for generated line i (`LineRowFields`) and is sound; the counts and totals are those of the rows; `char_accuracy` is `1 - total_diff_chars/total_chars` (0 with nothing counted) and `line_accuracy` is `matched_lines/len(gen_lines)` (0 with no lines); `no_match` rows occur exactly when there are no original lines; the line accuracy is 1 exactly when there are lines on both sides and every best match scores at least the threshold |
| Aggregate.AllMatchedIff | compare.py:267-275 | every row is a `match` exactly when there are original lines and every generated line's best match reaches the threshold |
| Aggregate.RowEdits | compare.py:270-309 | a row built as the loop builds it counts the edit distance of its pairing, or the whole line when unmatched, so `PerfectCharAccuracy` applies to the rows `ComparePairs` returns |
| Aggregate.PerfectCharAccuracy | compare.py:267-314 | for rows of non-empty generated lines as `LineRow` builds them, the differing characters never exceed the counted ones, and the character accuracy is 1 exactly when every generated line is paired with an original line of identical text |
| Aggregate.SumsBounded | compare.py:271-272 | over sound rows the total differing characters never exceed the total counted characters, and each row counts at least one |
| Aggregate.ExactRow | compare.py:269-312 | a non-empty generated line adds no differing characters exactly when it is paired with an original line of identical text; an unmatched line counts wholly as wrong |
| Aggregate.SumEditsZero | compare.py:272 | the total edit count is zero exactly when every row's is |
| Aggregate.MatchedCountAll | compare.py:273-275 | the match count is the row count exactly when all rows matched, and zero exactly when none did |
| Aggregate.AppendRow | compare.py:262-312 | appending a row adds its share to each running total and count |
| Content.KeepWords | compare.py:1135 | the kept words are non-blank and are exactly the page's non-blank words; a single word is kept exactly when it is not blank |
| Content.KeepWordsAppend | compare.py:1134-1135 | the filter keeps the order: filtering a concatenation is the concatenation of the filtered parts |
| Content.KeepWordsCount | compare.py:1134-1135 | a non-blank word is kept as often as it occurs on the page, a blank one never |
| Content.ExtractWords | compare.py:1128-1137 | every extracted word is non-blank, and a one-page document gives that page's kept words |
| Content.ExtractWordsFlat | compare.py:1128-1137 | the extracted words are the non-blank words of the whole document read page after page, in order and with their multiplicity |
| Content.FlatAppend | compare.py:1132-1135 | the word list of concatenated documents is the concatenation of their word lists |
| Content.ExtractWordsAppend | compare.py:1132-1135 | page boundaries do not matter: the words of concatenated documents are the concatenated words |
| Content.ExtractWordsMember | compare.py:1128-1137 | a word is extracted exactly when some page holds it and it is not blank |
| Content.Repeat | compare.py:357 | `[word] * n` holds n copies of the word |
| Content.Distinct | compare.py:349-353 | the keys of a `Counter` are duplicate-free and are exactly the words seen |
| Content.TallyCounts | compare.py:353-357 | the loop's `match_count` sums the common counts, and `not_found_words` holds each key's missing copies |
| Content.SumOverAll | compare.py:358 | summing a bag's counts over keys covering it gives the bag's size |
| Content.SumOverSame | compare.py:353-358 | a key that is not listed does not affect the sum |
| Content.ContentAccuracy | compare.py:335-359 | empty original gives `(0.0, 0, 0, [])`; otherwise `match_count` is the size of the common bag, `not_found_words` is the original bag minus the generated one, the total is the original word count, and the accuracy is 100 exactly when the original bag is contained in the generated bag |
| Content.PercentOf | compare.py:358 | a part of a whole is 0..100 percent, and 100 exactly when the part is the whole |
| Content.TallyBags | compare.py:349-358 | the tally over the original's keys gives the bag intersection and difference |
| Content.RepeatedWordExample | compare.py:335-359 | `a a b` against `a b b` finds 2 of 3 words and misses one `a` |
| Content.KeysOfExample | compare.py:349-353 | the `Counter` of `a a b` has keys `a`, `b` |
| Content.TallyOfExample | compare.py:353-357 | the loop over those keys finds 2 words and misses one `a` |
| Content.EqualContentFullAccuracy | compare.py:1140-1145 | content-equal documents with at least one word have 100 % content accuracy |
| Content.ReorderedNotEqual | compare.py:1140-1145 | the converse fails: two swapped words are not content-equal, yet score 100 % |
| Content.SwappedFullAccuracy | compare.py:349-358 | swapping two words leaves the content accuracy at 100 |
| Content.OnePageOfTwo | compare.py:1128-1137 | a page of two non-blank words yields both words, in order |
| Content.ContentOnlyEqual | compare.py:1140-1145 | two documents are content-equal exactly when their non-blank words, read page after page, are the same list; equal documents then hold the same words equally often |

## Left out

- Opening and decoding PDFs, rendering annotated PDFs or HTML, the Flask front end and HTML-to-PDF conversion are left out. The model starts from the page, block, line and span data and from the per-page word lists the PDF library reports.
- `fuzz.token_sort_ratio` is a parameter (any function into 0..100). Its sorting and edit-ratio internals are not modelled.
- `difflib.SequenceMatcher.get_opcodes` is a parameter that must return well-formed opcodes. The longest-matching-block algorithm is not modelled.
- Python strings holding lone surrogates (U+D800 to U+DFFF) are not modelled, because a Dafny `char` is a Unicode scalar value.
- Aggregate.PairHtml: states only the both-empty case; what it renders otherwise is stated by `WordDiff.WordLevelDiff`, which it calls.
- Rounding the accuracies to four places, the pandas DataFrame and the CSV and JSON reports are left out. The summary keeps the unrounded reals.
- Floating point is modelled as exact reals. This covers box coordinates, `y_delta` and the accuracy divisions.
- `str.lower()` is modelled for ASCII and Latin-1 capitals only. Other scripts' case mappings, including ones that change a string's length, are not modelled.
- The `try`/`except` around `lower()` in `normalize_text` is left out, because `lower()` on a `str` does not raise.
- `normalize_text(None)` is modelled with an `Option`. Extracted line texts are never `None`, so the comparison always passes `Some`.
- Matcher.FindBestMatch: names the chosen original line by its position in `orig_lines` rather than returning the dictionary itself.
- A span's missing `"text"` key reads as "" and a missing `"bbox"` as the documented defaults. Non-text blocks (`type != 0`) are skipped. Malformed values of other types are not modelled.
- The `norm` field is not stored on the records; `Matcher.Norm` recomputes it from the line text.
