/**
  The row-and-summary loop of `compare_pdfs_and_build_pairs`: every generated line is
  matched against the original lines, scored, diffed and classified, and the running
  totals give the character and line accuracies.
 */
module Aggregate {
  import opened Wrappers
  import opened PyText
  import opened Extract
  import opened Similarity
  import opened Matcher
  import opened Levenshtein
  import WordDiff

  datatype ErrorType = Match | Mismatch | NoMatch

  /** One row of the result table, per generated line. */
  datatype Row = Row(
    genPage: int, genLineNo: int, genText: string, genHtml: string,
    origPage: Option<int>, origLineNo: Option<int>, origText: Option<string>, origHtml: string,
    similarity: real, charEditDistance: nat, yDelta: Option<real>,
    matched: bool, errorType: ErrorType)

  datatype Summary = Summary(
    genLines: nat, origLines: nat, matchedLines: nat,
    charAccuracy: real, lineAccuracy: real,
    totalCharDiffs: nat, totalChars: nat,
    matches: nat, mismatches: nat, noMatches: nat)

  /** `difflib.SequenceMatcher(a=…, b=…).get_opcodes()` on two token sequences. */
  type Differ = (seq<string>, seq<string>) -> seq<WordDiff.Opcode>

  /** The differ always returns opcodes that tile both token sequences. */
  ghost predicate ValidDiffer(differ: Differ) {
    forall a, b :: WordDiff.WellFormed(differ(a, b), a, b)
  }

  /** The invariants of a row: `no_match` exactly when there is no original line,
      and `matched` exactly when the row is a `match`. */
  predicate RowConsistent(r: Row) {
    && (r.errorType == NoMatch <==> r.origPage.None?)
    && (r.matched <==> r.errorType == Match)
    && (r.origPage.None? <==> r.origText.None?)
    && 0.0 <= r.similarity <= 100.0
  }

  /** What a row adds to `total_chars`: the longer of the two texts, at least 1;
      an unmatched row counts its generated text only. */
  function RowChars(r: Row): (n: nat)
    ensures n >= 1 && n >= |r.genText|
    ensures r.origText.Some? ==> n >= |r.origText.value|
  {
    match r.origText
    case Some(o) => Max(Max(|r.genText|, |o|), 1)
    case None => Max(|r.genText|, 1)
  }

  /** The row for generated line `g` once the matcher has answered `m`. */
  function RowFor(g: LineRecord, origs: seq<LineRecord>, m: MatchResult, threshold: real, differ: Differ): (r: Row)
    requires ValidDiffer(differ)
    requires m.orig.Some? ==> m.orig.value < |origs| && 0.0 <= m.score <= 100.0
    ensures RowConsistent(r)
    ensures r.genPage == g.page && r.genLineNo == g.lineNo && r.genText == g.text
    ensures r.errorType == NoMatch <==> m.orig.None?
    ensures r.charEditDistance <= RowChars(r)
    ensures r.origText.None? ==> r.charEditDistance == |g.text| && r.similarity == 0.0
    ensures m.orig.Some? ==>
      var o := origs[m.orig.value];
      && r.origPage == Some(o.page) && r.origLineNo == Some(o.lineNo) && r.origText == Some(o.text)
      && r.similarity == m.score
      && r.yDelta == Some(g.box.y0 - o.box.y0)
      && r.charEditDistance == Distance(g.text, o.text)
      && (r.matched <==> m.score >= threshold)
      && (r.genHtml, r.origHtml) == PairHtml(g.text, o.text, differ)
    ensures m.orig.None? ==> r.genHtml == WordDiff.Wrap(WordDiff.NoMatch, g.text) && r.origHtml == ""
  {
    match m.orig
    case Some(i) => MatchedRow(g, origs[i], m.score, threshold, differ)
    case None =>
      Row(g.page, g.lineNo, g.text, WordDiff.Wrap(WordDiff.NoMatch, g.text),
          None, None, None, "",
          0.0, |g.text|, None,
          false, NoMatch)
  }

  /** The row of a generated line `g` paired with original line `o` at similarity `score`. */
  function MatchedRow(g: LineRecord, o: LineRecord, score: real, threshold: real, differ: Differ): (r: Row)
    requires ValidDiffer(differ)
    requires 0.0 <= score <= 100.0
    ensures RowConsistent(r) && r.errorType != NoMatch
    ensures r.genPage == g.page && r.genLineNo == g.lineNo && r.genText == g.text
    ensures r.origPage == Some(o.page) && r.origLineNo == Some(o.lineNo) && r.origText == Some(o.text)
    ensures r.similarity == score && r.yDelta == Some(g.box.y0 - o.box.y0)
    ensures r.charEditDistance == Distance(g.text, o.text) <= RowChars(r)
    ensures r.matched <==> score >= threshold
    ensures (r.genHtml, r.origHtml) == PairHtml(g.text, o.text, differ)
  {
    var matched := score >= threshold;
    var html := PairHtml(g.text, o.text, differ);
    Row(g.page, g.lineNo, g.text, html.0,
        Some(o.page), Some(o.lineNo), Some(o.text), html.1,
        score, Distance(g.text, o.text), Some(g.box.y0 - o.box.y0),
        matched, if matched then Match else Mismatch)
  }

  /** `word_level_diff_html(gen_text, orig_text)` with the differ's opcodes on the split texts. */
  function PairHtml(a: string, b: string, differ: Differ): (html: (string, string))
    requires ValidDiffer(differ)
    ensures a == [] && b == [] ==> html == ("", "")
  {
    WordDiff.WordLevelDiff(a, b, differ(Split(a), Split(b)))
  }

  /** The body of the loop for one generated line `g`: match it with the default spatial
      window, then build its row. */
  function LineRow(g: LineRecord, origs: seq<LineRecord>, threshold: real, ratio: Ratio, differ: Differ): (r: Row)
    requires ValidDiffer(differ)
    ensures RowSound(r, origs == [])
    ensures LineRowFields(r, g, origs, threshold, ratio, differ)
  {
    RowFor(g, origs, BestMatch(g, origs, ratio), threshold, differ)
  }

  /** The row the loop appends for generated line `g` (compare.py:268-305): the generated
      fields come from `g` and the similarity is the best match's score. With no original
      lines the row wraps the whole text as `no-match`, counts it wholly as edits and has no
      original side. Otherwise the original side is the best-matching line: its page, number
      and text, the word diff of the two texts, the vertical offset of their tops and their
      edit distance; the row is `match` exactly when the score reaches the threshold. */
  predicate LineRowFields(r: Row, g: LineRecord, origs: seq<LineRecord>, threshold: real, ratio: Ratio, differ: Differ)
    requires ValidDiffer(differ)
  {
    var m := BestMatch(g, origs, ratio);
    && r.genPage == g.page && r.genLineNo == g.lineNo && r.genText == g.text
    && r.similarity == m.score
    && (r.matched <==> origs != [] && m.score >= threshold)
    && if origs == [] then
         && r.origPage.None? && r.origLineNo.None? && r.origText.None? && r.yDelta.None?
         && r.genHtml == WordDiff.Wrap(WordDiff.NoMatch, g.text) && r.origHtml == ""
         && r.charEditDistance == |g.text| && r.errorType == NoMatch
       else
         var o := origs[m.orig.value];
         && r.origPage == Some(o.page) && r.origLineNo == Some(o.lineNo) && r.origText == Some(o.text)
         && r.yDelta == Some(g.box.y0 - o.box.y0)
         && (r.genHtml, r.origHtml) == PairHtml(g.text, o.text, differ)
         && r.charEditDistance == Distance(g.text, o.text)
         && r.errorType == (if m.score >= threshold then Match else Mismatch)
  }

  /** The matcher with the window the loop uses: a tolerance of 12 points and one page. */
  function BestMatch(g: LineRecord, origs: seq<LineRecord>, ratio: Ratio): MatchResult {
    FindBestMatch(g, origs, DefaultYTolerance, DefaultPageWindow, ratio)
  }

  // ---------------------------------------------------------------- totals over rows

  function SumChars(rows: seq<Row>): nat {
    if rows == [] then 0 else SumChars(rows[..|rows| - 1]) + RowChars(rows[|rows| - 1])
  }

  function SumEdits(rows: seq<Row>): nat {
    if rows == [] then 0 else SumEdits(rows[..|rows| - 1]) + rows[|rows| - 1].charEditDistance
  }

  /** `len([r for r in rows if r['error_type'] == e])`. */
  function Count(rows: seq<Row>, e: ErrorType): (n: nat)
    ensures n <= |rows|
  {
    if rows == [] then 0
    else Count(rows[..|rows| - 1], e) + (if rows[|rows| - 1].errorType == e then 1 else 0)
  }

  /** The character accuracy: `1 - diffs/chars`, or 0 when nothing was counted. */
  function CharAccuracy(diffs: nat, chars: nat): (acc: real)
    requires diffs <= chars
    ensures 0.0 <= acc <= 1.0
    ensures chars == 0 ==> acc == 0.0
    ensures chars != 0 ==> (acc == 1.0 <==> diffs == 0)
  {
    if chars != 0 then 1.0 - (diffs as real) / (chars as real) else 0.0
  }

  /** The line accuracy: `matched/lines`, or 0 when there are no lines. */
  function LineAccuracy(matched: nat, lines: nat): (acc: real)
    requires matched <= lines
    ensures 0.0 <= acc <= 1.0
    ensures acc == 1.0 <==> lines != 0 && matched == lines
    ensures acc == 0.0 <==> matched == 0
  {
    if lines != 0 then (matched as real) / (lines as real) else 0.0
  }

  /** The rows of `compare_pdfs_and_build_pairs`, one per generated line in order. */
  function Rows(origs: seq<LineRecord>, gens: seq<LineRecord>, threshold: real, ratio: Ratio, differ: Differ)
    : (rows: seq<Row>)
    requires ValidDiffer(differ)
    ensures |rows| == |gens|
    ensures forall i :: 0 <= i < |rows| ==> RowSound(rows[i], origs == [])
    ensures forall i :: 0 <= i < |gens| ==> LineRowFields(rows[i], gens[i], origs, threshold, ratio, differ)
  {
    seq(|gens|, i requires 0 <= i < |gens| => LineRow(gens[i], origs, threshold, ratio, differ))
  }

  /** What every row of one comparison satisfies: it is consistent, its edit count is
      within its character count, and it is `no_match` exactly when there are no
      original lines. */
  predicate RowSound(r: Row, noOrigs: bool) {
    RowConsistent(r) && r.charEditDistance <= RowChars(r) && (r.errorType == NoMatch <==> noOrigs)
  }

  /** The running totals of `compare_pdfs_and_build_pairs` and the summary built from them. */
  method Summarize(rows: seq<Row>, origLines: nat, noOrigs: bool) returns (summary: Summary)
    requires forall i :: 0 <= i < |rows| ==> RowSound(rows[i], noOrigs)
    ensures summary.genLines == |rows| && summary.origLines == origLines
    ensures summary.matches == Count(rows, Match)
    ensures summary.mismatches == Count(rows, Mismatch)
    ensures summary.noMatches == Count(rows, NoMatch)
    ensures summary.matches + summary.mismatches + summary.noMatches == |rows|
    ensures summary.matchedLines == summary.matches
    ensures summary.noMatches == (if noOrigs then |rows| else 0)
    ensures summary.totalChars == SumChars(rows) && summary.totalCharDiffs == SumEdits(rows)
    ensures |rows| <= summary.totalChars
    ensures summary.totalCharDiffs <= summary.totalChars
    ensures summary.charAccuracy == CharAccuracy(summary.totalCharDiffs, summary.totalChars)
    ensures summary.lineAccuracy == LineAccuracy(summary.matchedLines, |rows|)
    ensures summary.lineAccuracy == 1.0 <==> rows != [] && forall i :: 0 <= i < |rows| ==> rows[i].matched
    ensures summary.lineAccuracy == 0.0 <==> forall i :: 0 <= i < |rows| ==> !rows[i].matched
  {
    var totalChars := 0;
    var totalDiffChars := 0;
    var matchedLines := 0;
    for n := 0 to |rows|
      invariant totalChars == SumChars(rows[..n]) && totalDiffChars == SumEdits(rows[..n])
      invariant n <= totalChars && totalDiffChars <= totalChars
      invariant matchedLines == Count(rows[..n], Match)
      invariant Count(rows[..n], Match) + Count(rows[..n], Mismatch) + Count(rows[..n], NoMatch) == n
      invariant Count(rows[..n], NoMatch) == (if noOrigs then n else 0)
    {
      var r := rows[n];
      assert rows[..n + 1] == rows[..n] + [r];
      AppendRow(rows[..n], r);
      totalChars := totalChars + RowChars(r);
      totalDiffChars := totalDiffChars + r.charEditDistance;
      if r.matched {
        matchedLines := matchedLines + 1;
      }
    }
    assert rows[..|rows|] == rows;
    MatchedCountAll(rows);
    summary := Summary(|rows|, origLines, matchedLines,
                       CharAccuracy(totalDiffChars, totalChars), LineAccuracy(matchedLines, |rows|),
                       totalDiffChars, totalChars,
                       Count(rows, Match), Count(rows, Mismatch), Count(rows, NoMatch));
  }

  /** `compare_pdfs_and_build_pairs` once both documents' lines are extracted: a row per
      generated line and the summary of all rows. Both accuracies lie in [0, 1], so the
      character accuracy never goes negative although the code does not clamp it. */
  method ComparePairs(origs: seq<LineRecord>, gens: seq<LineRecord>, threshold: real, ratio: Ratio, differ: Differ)
    returns (rows: seq<Row>, summary: Summary)
    requires ValidDiffer(differ)
    ensures |rows| == |gens|
    ensures forall i :: 0 <= i < |rows| ==> RowSound(rows[i], origs == [])
    ensures forall i :: 0 <= i < |gens| ==> LineRowFields(rows[i], gens[i], origs, threshold, ratio, differ)
    ensures summary.genLines == |gens| && summary.origLines == |origs|
    ensures summary.matches + summary.mismatches + summary.noMatches == |gens|
    ensures summary.matchedLines == summary.matches == Count(rows, Match)
    ensures summary.noMatches == (if origs == [] then |gens| else 0)
    ensures summary.totalChars == SumChars(rows) && summary.totalCharDiffs == SumEdits(rows)
    ensures summary.totalCharDiffs <= summary.totalChars
    ensures summary.charAccuracy == CharAccuracy(summary.totalCharDiffs, summary.totalChars)
    ensures summary.lineAccuracy == LineAccuracy(summary.matchedLines, |gens|)
    ensures summary.lineAccuracy == 1.0 <==>
      gens != [] && origs != [] && forall i :: 0 <= i < |gens| ==> BestMatch(gens[i], origs, ratio).score >= threshold
  {
    rows := Rows(origs, gens, threshold, ratio, differ);
    summary := Summarize(rows, |origs|, origs == []);
    AllMatchedIff(origs, gens, threshold, ratio, differ, rows);
  }

  /** Every row is a `match` exactly when there are original lines and every generated
      line's best match reaches the threshold. */
  lemma AllMatchedIff(origs: seq<LineRecord>, gens: seq<LineRecord>, threshold: real, ratio: Ratio, differ: Differ,
                      rows: seq<Row>)
    requires ValidDiffer(differ)
    requires |rows| == |gens|
    requires forall i :: 0 <= i < |gens| ==> LineRowFields(rows[i], gens[i], origs, threshold, ratio, differ)
    ensures (gens != [] && forall i :: 0 <= i < |rows| ==> rows[i].matched) <==>
      (gens != [] && origs != [] && forall i :: 0 <= i < |gens| ==> BestMatch(gens[i], origs, ratio).score >= threshold)
  {
    forall i | 0 <= i < |gens|
      ensures rows[i].matched <==> origs != [] && BestMatch(gens[i], origs, ratio).score >= threshold
    {
      assert LineRowFields(rows[i], gens[i], origs, threshold, ratio, differ);
    }
    if gens != [] && forall i :: 0 <= i < |rows| ==> rows[i].matched {
      assert rows[0].matched;
    }
  }

  /** For rows like those `ComparePairs` builds (one per non-empty generated line, matched rows
      counting the edit distance and unmatched rows the whole line): no character differs,
      so the character accuracy is exactly 1, when every generated line is paired with an
      original line of the very same text, and only then. */
  lemma {:induction false} PerfectCharAccuracy(gens: seq<LineRecord>, rows: seq<Row>, noOrigs: bool)
    requires |rows| == |gens|
    requires forall i :: 0 <= i < |gens| ==> gens[i].text != [] && RowSound(rows[i], noOrigs)
    requires forall i :: 0 <= i < |gens| && rows[i].origText.Some? ==>
      rows[i].charEditDistance == Distance(gens[i].text, rows[i].origText.value)
    requires forall i :: 0 <= i < |gens| && rows[i].origText.None? ==> rows[i].charEditDistance == |gens[i].text|
    ensures SumEdits(rows) <= SumChars(rows)
    ensures CharAccuracy(SumEdits(rows), SumChars(rows)) == 1.0 <==>
      gens != [] && forall i :: 0 <= i < |gens| ==> rows[i].origText == Some(gens[i].text)
  {
    SumsBounded(rows, noOrigs);
    SumEditsZero(rows);
    forall i | 0 <= i < |gens|
      ensures rows[i].charEditDistance == 0 <==> rows[i].origText == Some(gens[i].text)
    {
      ExactRow(gens[i].text, rows[i]);
    }
  }

  /** A row built as the loop builds it counts the edit distance of its pairing, or the whole
      generated line when it has no original line, as `PerfectCharAccuracy` requires. */
  lemma RowEdits(r: Row, g: LineRecord, origs: seq<LineRecord>, threshold: real, ratio: Ratio, differ: Differ)
    requires ValidDiffer(differ)
    requires LineRowFields(r, g, origs, threshold, ratio, differ)
    ensures r.origText.Some? ==> r.charEditDistance == Distance(g.text, r.origText.value)
    ensures r.origText.None? ==> r.charEditDistance == |g.text|
  {
  }

  /** A row for a non-empty generated line adds no differing characters exactly when its
      paired original text is identical: an unmatched row counts the whole line as wrong,
      and a matched row counts the edit distance. */
  lemma ExactRow(text: string, r: Row)
    requires text != []
    requires r.origText.Some? ==> r.charEditDistance == Distance(text, r.origText.value)
    requires r.origText.None? ==> r.charEditDistance == |text|
    ensures r.charEditDistance == 0 <==> r.origText == Some(text)
  {
    if r.origText.Some? {
      DistanceZeroIff(text, r.origText.value);
    }
  }

  /** Over sound rows the differing characters never exceed the counted ones, and every row
      counts at least one character. */
  lemma {:induction false} SumsBounded(rows: seq<Row>, noOrigs: bool)
    requires forall i :: 0 <= i < |rows| ==> RowSound(rows[i], noOrigs)
    ensures SumEdits(rows) <= SumChars(rows) && |rows| <= SumChars(rows)
    decreases |rows|
  {
    if rows != [] {
      var init := rows[..|rows| - 1];
      assert forall i :: 0 <= i < |init| ==> init[i] == rows[i];
      SumsBounded(init, noOrigs);
    }
  }

  /** The total edit count is zero exactly when every row's is. */
  lemma {:induction false} SumEditsZero(rows: seq<Row>)
    ensures SumEdits(rows) == 0 <==> forall i :: 0 <= i < |rows| ==> rows[i].charEditDistance == 0
    decreases |rows|
  {
    if rows != [] {
      var init := rows[..|rows| - 1];
      SumEditsZero(init);
      assert forall i :: 0 <= i < |init| ==> init[i] == rows[i];
    }
  }

  /** All rows are matches exactly when the match count is the row count, and none
      are exactly when it is zero. */
  lemma {:induction false} MatchedCountAll(rows: seq<Row>)
    requires forall i :: 0 <= i < |rows| ==> RowConsistent(rows[i])
    ensures Count(rows, Match) == |rows| <==> forall i :: 0 <= i < |rows| ==> rows[i].matched
    ensures Count(rows, Match) == 0 <==> forall i :: 0 <= i < |rows| ==> !rows[i].matched
    decreases |rows|
  {
    if rows != [] {
      var init := rows[..|rows| - 1];
      MatchedCountAll(init);
      assert forall i :: 0 <= i < |init| ==> init[i] == rows[i];
    }
  }

  /** The totals over rows grow by the new row's share when a row is appended. */
  lemma AppendRow(rows: seq<Row>, r: Row)
    ensures SumChars(rows + [r]) == SumChars(rows) + RowChars(r)
    ensures SumEdits(rows + [r]) == SumEdits(rows) + r.charEditDistance
    ensures forall e :: Count(rows + [r], e) == Count(rows, e) + (if r.errorType == e then 1 else 0)
  {
    assert (rows + [r])[..|rows|] == rows;
  }
}
