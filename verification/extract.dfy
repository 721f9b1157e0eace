/**
  `extract_lines_with_bbox` after the PDF has been parsed: a fold over the
  page → block → line → span tree that PyMuPDF's `page.get_text("dict")` returns.
  The tree itself is the input; opening and parsing the PDF is not modelled.
 */
module Extract {
  import opened Wrappers
  import opened PyText

  /** A rectangle in page coordinates: left, top, right, bottom. */
  datatype BBox = BBox(x0: real, y0: real, x1: real, y1: real)

  /** A span; either key may be absent from PyMuPDF's dictionary. */
  datatype Span = Span(text: Option<string>, bbox: Option<BBox>)

  datatype TextLine = TextLine(spans: seq<Span>)

  /** A block; `kind` is its `"type"` entry, 0 for text. */
  datatype Block = Block(kind: Option<int>, lines: seq<TextLine>)

  datatype Page = Page(blocks: seq<Block>)

  /** One extracted line: 1-based page, 1-based line number within the page,
      stripped text and the union of its spans' boxes. */
  datatype LineRecord = LineRecord(page: int, lineNo: int, text: string, box: BBox)

  /** The coordinate used for a span without a box when taking minima (`1e9`). */
  const FarCoordinate: real := 1000000000.0

  // ---------------------------------------------------------------- spans

  function SpanText(s: Span): string {
    match s.text
    case Some(t) => t
    case None => ""
  }

  function SpanX0(s: Span): real { if s.bbox.Some? then s.bbox.value.x0 else FarCoordinate }
  function SpanY0(s: Span): real { if s.bbox.Some? then s.bbox.value.y0 else FarCoordinate }
  function SpanX1(s: Span): real { if s.bbox.Some? then s.bbox.value.x1 else 0.0 }
  function SpanY1(s: Span): real { if s.bbox.Some? then s.bbox.value.y1 else 0.0 }

  /** `"".join(span texts)`: the span texts concatenated in order, with nothing between
      them (`JoinedTextAppend` extends this from one span to any split of the spans). */
  function JoinedText(spans: seq<Span>): (t: string)
    ensures spans == [] ==> t == []
    ensures |spans| == 1 ==> t == SpanText(spans[0])
    ensures forall k :: 0 <= k < |spans| ==> |SpanText(spans[k])| <= |t|
  {
    if spans == [] then [] else SpanText(spans[0]) + JoinedText(spans[1..])
  }

  lemma {:induction false} JoinedTextAppend(xs: seq<Span>, ys: seq<Span>)
    ensures JoinedText(xs + ys) == JoinedText(xs) + JoinedText(ys)
    decreases |xs|
  {
    if xs == [] {
      assert xs + ys == ys;
    } else {
      assert (xs + ys)[1..] == xs[1..] + ys;
      JoinedTextAppend(xs[1..], ys);
    }
  }

  /** The text a line contributes: its spans' texts joined, then stripped. */
  function LineText(l: TextLine): string {
    Strip(JoinedText(l.spans))
  }

  /** Python's `min`: the least value, which is one of the values. */
  function MinOf(xs: seq<real>): (m: real)
    requires |xs| > 0
    ensures forall k :: 0 <= k < |xs| ==> m <= xs[k]
    ensures exists k :: 0 <= k < |xs| && m == xs[k]
  {
    if |xs| == 1 then xs[0]
    else
      var rest := MinOf(xs[1..]);
      if xs[0] <= rest then xs[0] else rest
  }

  /** Python's `max`: the greatest value, which is one of the values. */
  function MaxOf(xs: seq<real>): (m: real)
    requires |xs| > 0
    ensures forall k :: 0 <= k < |xs| ==> xs[k] <= m
    ensures exists k :: 0 <= k < |xs| && m == xs[k]
  {
    if |xs| == 1 then xs[0]
    else
      var rest := MaxOf(xs[1..]);
      if xs[0] >= rest then xs[0] else rest
  }

  /** The union of the spans' boxes: the least left and top edges and the greatest
      right and bottom edges, each attained by some span. */
  function LineBox(spans: seq<Span>): (b: BBox)
    requires |spans| > 0
    ensures forall k :: 0 <= k < |spans| ==>
      b.x0 <= SpanX0(spans[k]) && b.y0 <= SpanY0(spans[k]) &&
      SpanX1(spans[k]) <= b.x1 && SpanY1(spans[k]) <= b.y1
    ensures exists k :: 0 <= k < |spans| && b.x0 == SpanX0(spans[k])
    ensures exists k :: 0 <= k < |spans| && b.y0 == SpanY0(spans[k])
    ensures exists k :: 0 <= k < |spans| && b.x1 == SpanX1(spans[k])
    ensures exists k :: 0 <= k < |spans| && b.y1 == SpanY1(spans[k])
  {
    var x0s := seq(|spans|, k requires 0 <= k < |spans| => SpanX0(spans[k]));
    var y0s := seq(|spans|, k requires 0 <= k < |spans| => SpanY0(spans[k]));
    var x1s := seq(|spans|, k requires 0 <= k < |spans| => SpanX1(spans[k]));
    var y1s := seq(|spans|, k requires 0 <= k < |spans| => SpanY1(spans[k]));
    assert forall k :: 0 <= k < |spans| ==>
      x0s[k] == SpanX0(spans[k]) && y0s[k] == SpanY0(spans[k]) &&
      x1s[k] == SpanX1(spans[k]) && y1s[k] == SpanY1(spans[k]);
    BBox(MinOf(x0s), MinOf(y0s), MaxOf(x1s), MaxOf(y1s))
  }

  /** A line whose stripped text is non-empty has at least one span. */
  lemma TextNeedsSpans(l: TextLine)
    requires LineText(l) != []
    ensures |l.spans| > 0
  {
  }

  // ---------------------------------------------------------------- blocks and pages

  /** The lines of the text blocks (those whose type is 0), in order; other blocks are skipped. */
  function TextLines(blocks: seq<Block>): (ls: seq<TextLine>)
    ensures blocks == [] ==> ls == []
    ensures |blocks| == 1 ==> ls == (if blocks[0].kind == Some(0) then blocks[0].lines else [])
    ensures forall l :: l in ls <==> exists b :: b in blocks && b.kind == Some(0) && l in b.lines
  {
    if blocks == [] then []
    else
      var rest := TextLines(blocks[1..]);
      assert forall b :: b in blocks <==> b == blocks[0] || b in blocks[1..];
      (if blocks[0].kind == Some(0) then blocks[0].lines else []) + rest
  }

  lemma {:induction false} TextLinesAppend(xs: seq<Block>, ys: seq<Block>)
    ensures TextLines(xs + ys) == TextLines(xs) + TextLines(ys)
    decreases |xs|
  {
    if xs == [] {
      assert xs + ys == ys;
    } else {
      assert (xs + ys)[1..] == xs[1..] + ys;
      TextLinesAppend(xs[1..], ys);
    }
  }

  /** A line with its stripped text computed once, as the loop's `line_text`. */
  datatype Stripped = Stripped(text: string, spans: seq<Span>)

  /** A stripped line: its text has no surrounding whitespace, and if it has text it also
      has spans to take a box from. */
  predicate Ready(c: Stripped) {
    Trimmed(c.text) && (c.text != [] ==> |c.spans| > 0)
  }

  predicate AllReady(cs: seq<Stripped>) {
    forall k :: 0 <= k < |cs| ==> Ready(cs[k])
  }

  function Prepare(l: TextLine): (c: Stripped)
    ensures Ready(c)
    ensures c == Stripped(LineText(l), l.spans)
  {
    var t := LineText(l);
    if t != [] then
      TextNeedsSpans(l);
      Stripped(t, l.spans)
    else
      Stripped(t, l.spans)
  }

  /** Every line of a page, stripped. */
  function PrepareAll(lines: seq<TextLine>): (cs: seq<Stripped>)
    ensures |cs| == |lines| && AllReady(cs)
    ensures forall k :: 0 <= k < |lines| ==> cs[k] == Stripped(LineText(lines[k]), lines[k].spans)
  {
    seq(|lines|, k requires 0 <= k < |lines| => Prepare(lines[k]))
  }

  /** The lines that yield a record: those whose stripped text is non-empty, in order. */
  function Kept(cs: seq<Stripped>): (ks: seq<Stripped>)
    ensures |ks| <= |cs|
    ensures forall k :: 0 <= k < |ks| ==> ks[k].text != []
    ensures AllReady(cs) ==> AllReady(ks)
    ensures forall c :: c in ks <==> c in cs && c.text != []
  {
    if cs == [] then []
    else
      var rest := Kept(cs[1..]);
      assert forall c :: c in cs <==> c == cs[0] || c in cs[1..];
      if cs[0].text != [] then [cs[0]] + rest else rest
  }

  lemma {:induction false} KeptAppend(xs: seq<Stripped>, ys: seq<Stripped>)
    ensures Kept(xs + ys) == Kept(xs) + Kept(ys)
    decreases |xs|
  {
    if xs == [] {
      assert xs + ys == ys;
    } else {
      assert (xs + ys)[1..] == xs[1..] + ys;
      KeptAppend(xs[1..], ys);
    }
  }

  /** The record for a kept line. */
  function Record(pageNo: int, lineNo: int, c: Stripped): LineRecord
    requires |c.spans| > 0
  {
    LineRecord(pageNo, lineNo, c.text, LineBox(c.spans))
  }

  /** A kept line together with the line number the page's counter gives it. */
  datatype Numbered = Numbered(lineNo: int, line: Stripped)

  /** The inner loop over one page's lines, with `line_counter` already at `counter`:
      the counter goes up on each kept line only, so the kept lines are numbered
      `counter + 1`, `counter + 2`, … in order. */
  function NumberLines(cs: seq<Stripped>, counter: int): (ns: seq<Numbered>)
    ensures |ns| == |Kept(cs)|
    ensures forall k :: 0 <= k < |ns| ==> ns[k] == Numbered(counter + k + 1, Kept(cs)[k])
  {
    if cs == [] then []
    else
      var c := cs[0];
      if c.text == [] then NumberLines(cs[1..], counter)
      else
        var tail := NumberLines(cs[1..], counter + 1);
        NumberShift(c, cs[1..], tail, counter);
        [Numbered(counter + 1, c)] + tail
  }

  lemma NumberShift(c: Stripped, more: seq<Stripped>, tail: seq<Numbered>, counter: int)
    requires c.text != []
    requires |tail| == |Kept(more)|
    requires forall k :: 0 <= k < |tail| ==> tail[k] == Numbered(counter + 1 + k + 1, Kept(more)[k])
    ensures Kept([c] + more) == [c] + Kept(more)
    ensures forall k :: 0 <= k < |tail| + 1 ==>
      ([Numbered(counter + 1, c)] + tail)[k] == Numbered(counter + k + 1, ([c] + Kept(more))[k])
  {
    assert ([c] + more)[1..] == more;
    var head := Numbered(counter + 1, c);
    forall k | 0 <= k < |tail| + 1
      ensures ([head] + tail)[k] == Numbered(counter + k + 1, ([c] + Kept(more))[k])
    {
      if k > 0 {
        assert ([head] + tail)[k] == tail[k - 1];
        assert ([c] + Kept(more))[k] == Kept(more)[k - 1];
      }
    }
  }

  /** Numbered lines that each have spans to take a box from. */
  predicate Recordable(ns: seq<Numbered>) {
    forall k :: 0 <= k < |ns| ==> |ns[k].line.spans| > 0
  }

  /** The records of numbered kept lines on page `pageNo`. */
  function Records(pageNo: int, ns: seq<Numbered>): (rs: seq<LineRecord>)
    requires Recordable(ns)
    ensures |rs| == |ns|
    ensures forall k :: 0 <= k < |rs| ==> rs[k].page == pageNo && rs[k].lineNo == ns[k].lineNo
    ensures forall k :: 0 <= k < |rs| ==> rs[k].text == ns[k].line.text
    ensures forall k :: 0 <= k < |ns| ==> rs[k].box == LineBox(ns[k].line.spans)
  {
    seq(|ns|, k requires 0 <= k < |ns| => Record(pageNo, ns[k].lineNo, ns[k].line))
  }

  /** The records of one page (0-based index `pno`): page number `pno + 1`,
      line numbers 1, 2, 3, … with no gaps, text non-empty and stripped, at most one
      record per line of a text block. */
  function ExtractPage(pno: nat, page: Page): (rs: seq<LineRecord>)
    ensures |rs| <= |TextLines(page.blocks)|
    ensures PageNumbered(rs, pno + 1)
  {
    var cs := PrepareAll(TextLines(page.blocks));
    var ns := NumberLines(cs, 0);
    assert forall k :: 0 <= k < |ns| ==> ns[k].line == Kept(cs)[k];
    Records(pno + 1, ns)
  }

  /** The inner loop of `extract_lines_with_bbox` written line by line, as a reference:
      a line whose stripped text is empty is skipped, any other line takes the next line
      number and yields its stripped text and the union of its spans' boxes. */
  function LoopRecords(p: int, lines: seq<TextLine>, counter: int): seq<LineRecord> {
    if lines == [] then []
    else
      var l := lines[0];
      var t := LineText(l);
      if t == [] then LoopRecords(p, lines[1..], counter)
      else
        TextNeedsSpans(l);
        [LineRecord(p, counter + 1, t, LineBox(l.spans))] + LoopRecords(p, lines[1..], counter + 1)
  }

  /** A page's records are exactly those the line-by-line loop yields over the lines of its
      text blocks: in order, one per line whose stripped text is non-empty, carrying that
      text and that line's box. */
  lemma ExtractPageIsLoop(pno: nat, page: Page)
    ensures ExtractPage(pno, page) == LoopRecords(pno + 1, TextLines(page.blocks), 0)
  {
    RecordsLoop(pno + 1, TextLines(page.blocks), 0);
  }

  lemma {:induction false} RecordsLoop(p: int, lines: seq<TextLine>, counter: int)
    ensures Recordable(NumberLines(PrepareAll(lines), counter))
    ensures Records(p, NumberLines(PrepareAll(lines), counter)) == LoopRecords(p, lines, counter)
    decreases |lines|
  {
    NumberedRecordable(PrepareAll(lines), counter);
    if lines != [] {
      var l := lines[0];
      NumberLinesStep(lines, counter);
      if LineText(l) == [] {
        RecordsLoop(p, lines[1..], counter);
      } else {
        var tail := NumberLines(PrepareAll(lines[1..]), counter + 1);
        RecordsLoop(p, lines[1..], counter + 1);
        RecordsCons(p, Numbered(counter + 1, Prepare(l)), tail);
      }
    }
  }

  /** One step of the inner loop: the first line is numbered when its stripped text is
      non-empty and skipped otherwise. */
  lemma NumberLinesStep(lines: seq<TextLine>, counter: int)
    requires lines != []
    ensures NumberLines(PrepareAll(lines), counter) ==
      if LineText(lines[0]) == [] then NumberLines(PrepareAll(lines[1..]), counter)
      else [Numbered(counter + 1, Prepare(lines[0]))] + NumberLines(PrepareAll(lines[1..]), counter + 1)
  {
    assert PrepareAll(lines)[1..] == PrepareAll(lines[1..]);
  }

  lemma NumberedRecordable(cs: seq<Stripped>, counter: int)
    requires AllReady(cs)
    ensures Recordable(NumberLines(cs, counter))
  {
    var ns := NumberLines(cs, counter);
    assert forall k :: 0 <= k < |ns| ==> ns[k].line == Kept(cs)[k];
  }

  lemma RecordsCons(p: int, n: Numbered, tail: seq<Numbered>)
    requires Recordable([n] + tail)
    ensures |n.line.spans| > 0 && Recordable(tail)
    ensures Records(p, [n] + tail) == [Record(p, n.lineNo, n.line)] + Records(p, tail)
  {
    var ns := [n] + tail;
    assert ns[0] == n;
    assert forall k :: 0 <= k < |tail| ==> tail[k] == ns[k + 1];
    var rs, want := Records(p, ns), [Record(p, n.lineNo, n.line)] + Records(p, tail);
    forall k | 0 <= k < |rs|
      ensures rs[k] == want[k]
    {
      if k > 0 {
        assert ns[k] == tail[k - 1];
      }
    }
    assert |rs| == |want|;
  }

  /** The records of page `p`: all on page `p`, numbered 1, 2, 3, …, each with
      non-empty stripped text. */
  predicate PageNumbered(rs: seq<LineRecord>, p: int) {
    forall k :: 0 <= k < |rs| ==>
      rs[k].page == p && rs[k].lineNo == k + 1 && rs[k].text != [] && Trimmed(rs[k].text)
  }

  /** Line numbers restart at 1 on each page and otherwise go up by one. */
  predicate WellNumbered(rs: seq<LineRecord>) {
    && (|rs| > 0 ==> rs[0].lineNo == 1)
    && forall k :: 0 < k < |rs| ==>
         rs[k].lineNo == (if rs[k - 1].page == rs[k].page then rs[k - 1].lineNo + 1 else 1)
  }

  /** Every page's records, page by page. */
  function PerPage(pages: seq<Page>): (recs: seq<seq<LineRecord>>)
    ensures |recs| == |pages|
    ensures forall p :: 0 <= p < |recs| ==> recs[p] == ExtractPage(p, pages[p])
    ensures forall p :: 0 <= p < |recs| ==> PageNumbered(recs[p], p + 1)
  {
    seq(|pages|, p requires 0 <= p < |pages| => ExtractPage(p, pages[p]))
  }

  /** The records of pages `from`, `from + 1`, … (0-based), in page order. */
  function Flatten(recs: seq<seq<LineRecord>>, from: nat): (rs: seq<LineRecord>)
    requires from <= |recs|
    requires forall p :: 0 <= p < |recs| ==> PageNumbered(recs[p], p + 1)
    ensures forall k :: 0 <= k < |rs| ==> from + 1 <= rs[k].page <= |recs|
    ensures forall k, l :: 0 <= k < l < |rs| ==> rs[k].page <= rs[l].page
    ensures WellNumbered(rs)
    ensures forall k :: 0 <= k < |rs| ==> rs[k].text != [] && Trimmed(rs[k].text)
    decreases |recs| - from
  {
    if from == |recs| then []
    else
      var here := recs[from];
      var rest := Flatten(recs, from + 1);
      PagesAppend(here, rest, from + 1, |recs|);
      here + rest
  }

  /** One page's records followed by the records of later pages. */
  lemma PagesAppend(here: seq<LineRecord>, rest: seq<LineRecord>, p: int, last: int)
    requires p <= last
    requires PageNumbered(here, p)
    requires forall k :: 0 <= k < |rest| ==> p + 1 <= rest[k].page <= last
    requires forall k, l :: 0 <= k < l < |rest| ==> rest[k].page <= rest[l].page
    requires WellNumbered(rest)
    requires forall k :: 0 <= k < |rest| ==> rest[k].text != [] && Trimmed(rest[k].text)
    ensures forall k :: 0 <= k < |here + rest| ==> p <= (here + rest)[k].page <= last
    ensures forall k, l :: 0 <= k < l < |here + rest| ==> (here + rest)[k].page <= (here + rest)[l].page
    ensures WellNumbered(here + rest)
    ensures forall k :: 0 <= k < |here + rest| ==> (here + rest)[k].text != [] && Trimmed((here + rest)[k].text)
  {
    var rs := here + rest;
    forall k | 0 < k < |rs|
      ensures rs[k].lineNo == (if rs[k - 1].page == rs[k].page then rs[k - 1].lineNo + 1 else 1)
    {
      if k < |here| {
        assert rs[k] == here[k] && rs[k - 1] == here[k - 1];
      } else if k == |here| {
        assert rs[k] == rest[0] && rs[k - 1] == here[k - 1];
      } else {
        assert rs[k] == rest[k - |here|] && rs[k - 1] == rest[k - 1 - |here|];
      }
    }
  }

  /** `extract_lines_with_bbox` on a parsed document: the records of all pages in page
      order, pages numbered from 1, lines numbered from 1 on each page. */
  function ExtractLines(pages: seq<Page>): (rs: seq<LineRecord>)
    ensures forall k :: 0 <= k < |rs| ==> 1 <= rs[k].page <= |pages|
    ensures forall k, l :: 0 <= k < l < |rs| ==> rs[k].page <= rs[l].page
    ensures WellNumbered(rs)
    ensures forall k :: 0 <= k < |rs| ==> rs[k].text != [] && Trimmed(rs[k].text)
    ensures forall p :: 1 <= p <= |pages| ==> OnPage(rs, p) == ExtractPage(p - 1, pages[p - 1])
  {
    var rs := Flatten(PerPage(pages), 0);
    assert forall p :: 1 <= p <= |pages| ==> OnPage(rs, p) == ExtractPage(p - 1, pages[p - 1]) by {
      forall p | 1 <= p <= |pages|
        ensures OnPage(rs, p) == ExtractPage(p - 1, pages[p - 1])
      {
        FlattenByPage(PerPage(pages), 0, p);
      }
    }
    rs
  }

  /** The records with page number `p`, in order. */
  function OnPage(rs: seq<LineRecord>, p: int): (qs: seq<LineRecord>)
    ensures forall k :: 0 <= k < |qs| ==> qs[k].page == p
  {
    if rs == [] then []
    else (if rs[0].page == p then [rs[0]] else []) + OnPage(rs[1..], p)
  }

  lemma {:induction false} OnPageAppend(xs: seq<LineRecord>, ys: seq<LineRecord>, p: int)
    ensures OnPage(xs + ys, p) == OnPage(xs, p) + OnPage(ys, p)
    decreases |xs|
  {
    if xs == [] {
      assert xs + ys == ys;
    } else {
      assert (xs + ys)[1..] == xs[1..] + ys;
      OnPageAppend(xs[1..], ys, p);
    }
  }

  lemma {:induction false} OnPageAll(rs: seq<LineRecord>, p: int)
    requires forall k :: 0 <= k < |rs| ==> rs[k].page == p
    ensures OnPage(rs, p) == rs
    decreases |rs|
  {
    if rs != [] {
      OnPageAll(rs[1..], p);
    }
  }

  lemma {:induction false} OnPageNone(rs: seq<LineRecord>, p: int)
    requires forall k :: 0 <= k < |rs| ==> rs[k].page != p
    ensures OnPage(rs, p) == []
    decreases |rs|
  {
    if rs != [] {
      OnPageNone(rs[1..], p);
    }
  }

  /** Records keep the document order: picking out the records of page `p` (1-based)
      gives exactly that page's own extraction, and no page outside the document has any. */
  lemma ExtractLinesByPage(pages: seq<Page>, p: int)
    ensures OnPage(ExtractLines(pages), p) == (if 1 <= p <= |pages| then ExtractPage(p - 1, pages[p - 1]) else [])
  {
    FlattenByPage(PerPage(pages), 0, p);
  }

  lemma {:induction false} FlattenByPage(recs: seq<seq<LineRecord>>, from: nat, p: int)
    requires from <= |recs|
    requires forall q :: 0 <= q < |recs| ==> PageNumbered(recs[q], q + 1)
    ensures OnPage(Flatten(recs, from), p) == (if from + 1 <= p <= |recs| then recs[p - 1] else [])
    decreases |recs| - from
  {
    if from < |recs| {
      var here := recs[from];
      var rest := Flatten(recs, from + 1);
      assert Flatten(recs, from) == here + rest;
      OnPageAppend(here, rest, p);
      FlattenByPage(recs, from + 1, p);
      if p == from + 1 {
        OnPageAll(here, p);
        OnPageNone(rest, p);
        assert OnPage(here, p) + OnPage(rest, p) == here;
      } else {
        OnPageNone(here, p);
        assert OnPage(here, p) + OnPage(rest, p) == OnPage(rest, p);
      }
    }
  }
}
