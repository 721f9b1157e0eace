/**
  `word_level_diff_html`: both lines of a matched pair rendered with their differing
  word runs marked up. The opcode list comes from `difflib.SequenceMatcher`, whose
  algorithm is not part of this model; it is an input that must be well formed.
 */
module WordDiff {
  import opened PyText

  datatype Tag = Equal | Replace | Delete | Insert

  /** `(tag, i1, i2, j1, j2)`: the run `a[i1:i2]` of the generated tokens against the run
      `b[j1:j2]` of the original tokens. */
  datatype Opcode = Opcode(tag: Tag, i1: nat, i2: nat, j1: nat, j2: nat)

  /** Every opcode's runs lie within the token sequences. */
  predicate Bounded(ops: seq<Opcode>, a: seq<string>, b: seq<string>) {
    forall k :: 0 <= k < |ops| ==> ops[k].i1 <= ops[k].i2 <= |a| && ops[k].j1 <= ops[k].j2 <= |b|
  }

  /** What each tag promises of its runs: `equal` runs hold the same tokens, a `delete`
      run has nothing on the original side and an `insert` run nothing on the generated side. */
  predicate RunOk(op: Opcode, a: seq<string>, b: seq<string>)
    requires op.i1 <= op.i2 <= |a| && op.j1 <= op.j2 <= |b|
  {
    match op.tag
    case Equal => a[op.i1..op.i2] == b[op.j1..op.j2]
    case Delete => op.j1 == op.j2
    case Insert => op.i1 == op.i2
    case Replace => true
  }

  /** The opcodes, in order, tile `a[i..]` and `b[j..]`: each run starts where the previous one
      ended and the last ends at the ends of both sequences. */
  predicate CoversFrom(ops: seq<Opcode>, a: seq<string>, b: seq<string>, i: nat, j: nat)
    decreases |ops|
  {
    if ops == [] then i == |a| && j == |b|
    else
      var op := ops[0];
      && op.i1 == i && op.j1 == j && i <= op.i2 <= |a| && j <= op.j2 <= |b|
      && RunOk(op, a, b)
      && CoversFrom(ops[1..], a, b, op.i2, op.j2)
  }

  /** A well-formed opcode list for token sequences `a` and `b`. */
  predicate WellFormed(ops: seq<Opcode>, a: seq<string>, b: seq<string>) {
    Bounded(ops, a, b) && CoversFrom(ops, a, b, 0, 0)
  }

  lemma {:induction false} CoversBounded(ops: seq<Opcode>, a: seq<string>, b: seq<string>, i: nat, j: nat)
    requires CoversFrom(ops, a, b, i, j)
    ensures Bounded(ops, a, b)
    decreases |ops|
  {
    if ops != [] {
      CoversBounded(ops[1..], a, b, ops[0].i2, ops[0].j2);
      assert forall k :: 0 < k < |ops| ==> ops[k] == ops[1..][k - 1];
    }
  }

  // ---------------------------------------------------------------- markup

  /** The CSS classes the renderer wraps runs in. */
  datatype Mark =
    | ReplaceGenerated | ReplaceOriginal | DeletedFromGenerated | AddedToOriginal
    | MissingInGenerated | MissingInOriginal | NoMatch

  function ClassName(m: Mark): string {
    match m
    case ReplaceGenerated => "replace-generated"
    case ReplaceOriginal => "replace-original"
    case DeletedFromGenerated => "deleted-from-generated"
    case AddedToOriginal => "added-to-original"
    case MissingInGenerated => "missing-in-generated"
    case MissingInOriginal => "missing-in-original"
    case NoMatch => "no-match"
  }

  /** `<span class="error CLASS">TEXT</span>`. */
  function Wrap(m: Mark, text: string): (html: string)
    ensures |html| > |text|
  {
    "<span class=\"error " + ClassName(m) + "\">" + text + "</span>"
  }

  /** A rendered run: unmarked, or marked with a class. */
  datatype Piece = Plain(words: seq<string>) | Marked(mark: Mark, words: seq<string>)

  /** A run's text is its words joined by spaces; an empty replaced run shows `[empty]`. */
  function Render(p: Piece): string {
    match p
    case Plain(ws) => Join(" ", ws)
    case Marked(m, ws) =>
      var t := Join(" ", ws);
      Wrap(m, if t == [] && (m == ReplaceGenerated || m == ReplaceOriginal) then "[empty]" else t)
  }

  /** `filter(None, outs)`: the non-empty strings, in order. */
  function NonEmpty(outs: seq<string>): (kept: seq<string>)
    ensures forall k :: 0 <= k < |kept| ==> kept[k] != []
    ensures forall s :: s in kept <==> s in outs && s != []
    ensures |kept| <= |outs|
    ensures |outs| == 1 ==> kept == (if outs[0] == [] then [] else outs)
  {
    if outs == [] then []
    else
      assert forall s :: s in outs <==> s == outs[0] || s in outs[1..];
      (if outs[0] == [] then [] else [outs[0]]) + NonEmpty(outs[1..])
  }

  /** The filter keeps the order: filtering a concatenation concatenates the filtered parts. */
  lemma {:induction false} NonEmptyAppend(xs: seq<string>, ys: seq<string>)
    ensures NonEmpty(xs + ys) == NonEmpty(xs) + NonEmpty(ys)
    decreases |xs|
  {
    if xs == [] {
      assert xs + ys == ys;
    } else {
      assert (xs + ys)[1..] == xs[1..] + ys;
      NonEmptyAppend(xs[1..], ys);
    }
  }

  /** `" ".join(filter(None, [render(p) for p in ps]))`. */
  function RenderAll(ps: seq<Piece>): string {
    Join(" ", NonEmpty(Renders(ps)))
  }

  function Renders(ps: seq<Piece>): (outs: seq<string>)
    ensures |outs| == |ps|
    ensures forall k :: 0 <= k < |ps| ==> outs[k] == Render(ps[k])
  {
    seq(|ps|, k requires 0 <= k < |ps| => Render(ps[k]))
  }

  /** The tokens a list of pieces shows, in order. */
  function Words(ps: seq<Piece>): seq<string> {
    if ps == [] then [] else ps[0].words + Words(ps[1..])
  }

  /** The words of the unmarked pieces, run by run. */
  function PlainRuns(ps: seq<Piece>): seq<seq<string>> {
    if ps == [] then []
    else (if ps[0].Plain? then [ps[0].words] else []) + PlainRuns(ps[1..])
  }

  // ---------------------------------------------------------------- the two sides

  /** What one opcode adds to the generated side, `a_out`: an `equal` run unmarked, a `replace`
      run marked as replaced, a `delete` run marked as deleted, an `insert` run nothing. */
  function GenRun(op: Opcode, a: seq<string>): (ps: seq<Piece>)
    requires op.i1 <= op.i2 <= |a|
    ensures ps == [] <==> op.tag == Insert
    ensures |ps| <= 1
    ensures ps != [] ==> ps[0].words == a[op.i1..op.i2] && (ps[0].Plain? <==> op.tag == Equal)
    ensures ps != [] && ps[0].Marked? ==>
      ps[0].mark == (if op.tag == Replace then ReplaceGenerated else DeletedFromGenerated)
  {
    var run := a[op.i1..op.i2];
    match op.tag
    case Equal => [Plain(run)]
    case Replace => [Marked(ReplaceGenerated, run)]
    case Delete => [Marked(DeletedFromGenerated, run)]
    case Insert => []
  }

  /** What one opcode adds to the original side, `b_out`: an `equal` run unmarked, a `replace`
      run marked as replaced, an `insert` run marked as added, a `delete` run nothing. */
  function OrigRun(op: Opcode, b: seq<string>): (ps: seq<Piece>)
    requires op.j1 <= op.j2 <= |b|
    ensures ps == [] <==> op.tag == Delete
    ensures |ps| <= 1
    ensures ps != [] ==> ps[0].words == b[op.j1..op.j2] && (ps[0].Plain? <==> op.tag == Equal)
    ensures ps != [] && ps[0].Marked? ==>
      ps[0].mark == (if op.tag == Replace then ReplaceOriginal else AddedToOriginal)
  {
    var run := b[op.j1..op.j2];
    match op.tag
    case Equal => [Plain(run)]
    case Replace => [Marked(ReplaceOriginal, run)]
    case Delete => []
    case Insert => [Marked(AddedToOriginal, run)]
  }

  /** The generated side: only the two generated-side classes ever appear on it. */
  function GenPieces(ops: seq<Opcode>, a: seq<string>): (ps: seq<Piece>)
    requires forall k :: 0 <= k < |ops| ==> ops[k].i1 <= ops[k].i2 <= |a|
    ensures forall k :: 0 <= k < |ps| && ps[k].Marked? ==>
      ps[k].mark == ReplaceGenerated || ps[k].mark == DeletedFromGenerated
  {
    if ops == [] then [] else GenRun(ops[0], a) + GenPieces(ops[1..], a)
  }

  /** The original side: only the two original-side classes ever appear on it. */
  function OrigPieces(ops: seq<Opcode>, b: seq<string>): (ps: seq<Piece>)
    requires forall k :: 0 <= k < |ops| ==> ops[k].j1 <= ops[k].j2 <= |b|
    ensures forall k :: 0 <= k < |ps| && ps[k].Marked? ==>
      ps[k].mark == ReplaceOriginal || ps[k].mark == AddedToOriginal
  {
    if ops == [] then [] else OrigRun(ops[0], b) + OrigPieces(ops[1..], b)
  }

  /** `word_level_diff_html(a, b)` for generated text `a`, original text `b` and the opcodes
      of their token sequences. With an empty side there is no alignment: the other side is
      wrapped whole as missing from the empty one. Otherwise each side is its pieces rendered
      and joined by spaces. */
  function WordLevelDiff(a: string, b: string, ops: seq<Opcode>): (r: (string, string))
    requires a != [] && b != [] ==> WellFormed(ops, Split(a), Split(b))
    ensures a == [] && b == [] ==> r == ([], [])
    ensures a == [] && b != [] ==> r == ([], Wrap(MissingInGenerated, b))
    ensures a != [] && b == [] ==> r == (Wrap(MissingInOriginal, a), [])
    ensures a != [] && b != [] ==>
      r == (RenderAll(GenPieces(ops, Split(a))), RenderAll(OrigPieces(ops, Split(b))))
  {
    if a == [] && b == [] then ([], [])
    else if a == [] then ([], Wrap(MissingInGenerated, b))
    else if b == [] then (Wrap(MissingInOriginal, a), [])
    else
      (RenderAll(GenPieces(ops, Split(a))), RenderAll(OrigPieces(ops, Split(b))))
  }

  // ---------------------------------------------------------------- properties

  /** The `equal` runs of the generated tokens, in opcode order. */
  function EqualRunsGen(ops: seq<Opcode>, a: seq<string>): seq<seq<string>>
    requires forall k :: 0 <= k < |ops| ==> ops[k].i1 <= ops[k].i2 <= |a|
  {
    if ops == [] then []
    else (if ops[0].tag == Equal then [a[ops[0].i1..ops[0].i2]] else []) + EqualRunsGen(ops[1..], a)
  }

  /** The `equal` runs of the original tokens, in opcode order. */
  function EqualRunsOrig(ops: seq<Opcode>, b: seq<string>): seq<seq<string>>
    requires forall k :: 0 <= k < |ops| ==> ops[k].j1 <= ops[k].j2 <= |b|
  {
    if ops == [] then []
    else (if ops[0].tag == Equal then [b[ops[0].j1..ops[0].j2]] else []) + EqualRunsOrig(ops[1..], b)
  }

  /** The classes of the marked pieces, in order. */
  function Marks(ps: seq<Piece>): seq<Mark> {
    if ps == [] then [] else (if ps[0].Marked? then [ps[0].mark] else []) + Marks(ps[1..])
  }

  /** The class each opcode calls for on the generated side: `replace` and `delete` runs
      are marked, `equal` and `insert` runs are not. */
  function GenMarks(ops: seq<Opcode>): seq<Mark> {
    if ops == [] then []
    else
      (match ops[0].tag
       case Replace => [ReplaceGenerated]
       case Delete => [DeletedFromGenerated]
       case _ => []) + GenMarks(ops[1..])
  }

  /** The class each opcode calls for on the original side: `replace` and `insert` runs
      are marked, `equal` and `delete` runs are not. */
  function OrigMarks(ops: seq<Opcode>): seq<Mark> {
    if ops == [] then []
    else
      (match ops[0].tag
       case Replace => [ReplaceOriginal]
       case Insert => [AddedToOriginal]
       case _ => []) + OrigMarks(ops[1..])
  }

  lemma {:induction false} MarksAppend(xs: seq<Piece>, ys: seq<Piece>)
    ensures Marks(xs + ys) == Marks(xs) + Marks(ys)
    decreases |xs|
  {
    if xs == [] {
      assert xs + ys == ys;
    } else {
      var head := if xs[0].Marked? then [xs[0].mark] else [];
      assert (xs + ys)[0] == xs[0] && (xs + ys)[1..] == xs[1..] + ys;
      MarksAppend(xs[1..], ys);
      assert Marks(xs + ys) == head + Marks(xs[1..] + ys);
      assert Marks(xs) == head + Marks(xs[1..]);
    }
  }

  /** The generated side follows the opcodes one by one: its unmarked pieces are exactly the
      `equal` runs, and its marked pieces carry `replace-generated` for each `replace` and
      `deleted-from-generated` for each `delete`, in opcode order. */
  lemma {:induction false} GenPiecesShape(ops: seq<Opcode>, a: seq<string>)
    requires forall k :: 0 <= k < |ops| ==> ops[k].i1 <= ops[k].i2 <= |a|
    ensures PlainRuns(GenPieces(ops, a)) == EqualRunsGen(ops, a)
    ensures Marks(GenPieces(ops, a)) == GenMarks(ops)
    decreases |ops|
  {
    if ops != [] {
      var here, rest := GenRun(ops[0], a), GenPieces(ops[1..], a);
      GenPiecesShape(ops[1..], a);
      PlainRunsAppend(here, rest);
      MarksAppend(here, rest);
      if here != [] {
        assert here[1..] == [];
      }
    }
  }

  /** The original side follows the opcodes one by one: its unmarked pieces are exactly the
      `equal` runs, and its marked pieces carry `replace-original` for each `replace` and
      `added-to-original` for each `insert`, in opcode order. */
  lemma {:induction false} OrigPiecesShape(ops: seq<Opcode>, b: seq<string>)
    requires forall k :: 0 <= k < |ops| ==> ops[k].j1 <= ops[k].j2 <= |b|
    ensures PlainRuns(OrigPieces(ops, b)) == EqualRunsOrig(ops, b)
    ensures Marks(OrigPieces(ops, b)) == OrigMarks(ops)
    decreases |ops|
  {
    if ops != [] {
      var here, rest := OrigRun(ops[0], b), OrigPieces(ops[1..], b);
      OrigPiecesShape(ops[1..], b);
      PlainRunsAppend(here, rest);
      MarksAppend(here, rest);
      if here != [] {
        assert here[1..] == [];
      }
    }
  }

  lemma {:induction false} GenCoversFrom(ops: seq<Opcode>, a: seq<string>, b: seq<string>, i: nat, j: nat)
    requires CoversFrom(ops, a, b, i, j)
    ensures i <= |a| && Bounded(ops, a, b)
    ensures Words(GenPieces(ops, a)) == a[i..]
    decreases |ops|
  {
    CoversBounded(ops, a, b, i, j);
    if ops != [] {
      var op := ops[0];
      GenCoversFrom(ops[1..], a, b, op.i2, op.j2);
      var here := GenRun(op, a);
      WordsAppend(here, GenPieces(ops[1..], a));
      assert a[i..] == a[i..op.i2] + a[op.i2..];
    }
  }

  lemma {:induction false} OrigCoversFrom(ops: seq<Opcode>, a: seq<string>, b: seq<string>, i: nat, j: nat)
    requires CoversFrom(ops, a, b, i, j)
    ensures j <= |b| && Bounded(ops, a, b)
    ensures Words(OrigPieces(ops, b)) == b[j..]
    decreases |ops|
  {
    CoversBounded(ops, a, b, i, j);
    if ops != [] {
      var op := ops[0];
      OrigCoversFrom(ops[1..], a, b, op.i2, op.j2);
      var here := OrigRun(op, b);
      WordsAppend(here, OrigPieces(ops[1..], b));
      assert b[j..] == b[j..op.j2] + b[op.j2..];
    }
  }

  /** Each side shows every token of its own line exactly once and in order: removing the
      markup from the generated side gives back `a`, and from the original side `b`. */
  lemma DiffCoversTokens(ops: seq<Opcode>, a: seq<string>, b: seq<string>)
    requires WellFormed(ops, a, b)
    ensures Words(GenPieces(ops, a)) == a
    ensures Words(OrigPieces(ops, b)) == b
  {
    GenCoversFrom(ops, a, b, 0, 0);
    OrigCoversFrom(ops, a, b, 0, 0);
  }

  /** The unmarked runs of the two sides are the same runs of the same tokens. */
  lemma {:induction false} PlainRunsAgree(ops: seq<Opcode>, a: seq<string>, b: seq<string>, i: nat, j: nat)
    requires CoversFrom(ops, a, b, i, j)
    ensures Bounded(ops, a, b)
    ensures PlainRuns(GenPieces(ops, a)) == PlainRuns(OrigPieces(ops, b))
    decreases |ops|
  {
    CoversBounded(ops, a, b, i, j);
    if ops != [] {
      var op := ops[0];
      PlainRunsAgree(ops[1..], a, b, op.i2, op.j2);
      PlainRunsAppend(GenRun(op, a), GenPieces(ops[1..], a));
      PlainRunsAppend(OrigRun(op, b), OrigPieces(ops[1..], b));
    }
  }

  lemma {:induction false} WordsAppend(xs: seq<Piece>, ys: seq<Piece>)
    ensures Words(xs + ys) == Words(xs) + Words(ys)
    decreases |xs|
  {
    if xs == [] {
      assert xs + ys == ys;
    } else {
      assert (xs + ys)[1..] == xs[1..] + ys;
      WordsAppend(xs[1..], ys);
    }
  }

  lemma {:induction false} PlainRunsAppend(xs: seq<Piece>, ys: seq<Piece>)
    ensures PlainRuns(xs + ys) == PlainRuns(xs) + PlainRuns(ys)
    decreases |xs|
  {
    if xs == [] {
      assert xs + ys == ys;
    } else {
      assert (xs + ys)[1..] == xs[1..] + ys;
      PlainRunsAppend(xs[1..], ys);
    }
  }

  predicate AllEqual(ops: seq<Opcode>) {
    forall k :: 0 <= k < |ops| ==> ops[k].tag == Equal
  }

  /** With only `equal` runs both sides are the same unmarked pieces over the same tokens. */
  lemma {:induction false} EqualRunsSame(ops: seq<Opcode>, a: seq<string>, b: seq<string>, i: nat, j: nat)
    requires CoversFrom(ops, a, b, i, j) && AllEqual(ops)
    ensures Bounded(ops, a, b)
    ensures GenPieces(ops, a) == OrigPieces(ops, b)
    ensures forall k :: 0 <= k < |GenPieces(ops, a)| ==> GenPieces(ops, a)[k].Plain?
    decreases |ops|
  {
    CoversBounded(ops, a, b, i, j);
    if ops != [] {
      EqualRunsSame(ops[1..], a, b, ops[0].i2, ops[0].j2);
      var rest := GenPieces(ops[1..], a);
      assert GenPieces(ops, a) == [Plain(a[ops[0].i1..ops[0].i2])] + rest;
      assert forall k :: 0 < k < |GenPieces(ops, a)| ==> GenPieces(ops, a)[k] == rest[k - 1];
    }
  }

  lemma JoinNotEmpty(sep: string, xs: seq<string>)
    requires xs != [] && xs[0] != []
    ensures Join(sep, xs) != []
  {
  }

  /** Unmarked pieces over words render as the words joined by single spaces. */
  lemma {:induction false} PlainRender(ps: seq<Piece>)
    requires forall k :: 0 <= k < |ps| ==> ps[k].Plain?
    requires AllWords(Words(ps))
    ensures RenderAll(ps) == Join(" ", Words(ps))
    decreases |ps|
  {
    if ps != [] {
      var p, rest := ps[0], ps[1..];
      var x := Render(p);
      assert Renders(ps) == [x] + Renders(rest);
      assert [x] + Renders(rest) != [] && ([x] + Renders(rest))[1..] == Renders(rest);
      var ne := NonEmpty(Renders(rest));
      assert Words(ps) == p.words + Words(rest);
      assert AllWords(p.words) && AllWords(Words(rest)) by {
        assert forall k :: 0 <= k < |p.words| ==> p.words[k] == Words(ps)[k];
        assert forall k :: 0 <= k < |Words(rest)| ==> Words(rest)[k] == Words(ps)[|p.words| + k];
      }
      PlainRender(rest);
      if p.words == [] {
        assert x == [];
        assert NonEmpty(Renders(ps)) == ne;
        assert p.words + Words(rest) == Words(rest);
      } else {
        JoinSpaced(p.words);
        assert x == Join(" ", p.words) != [];
        assert NonEmpty(Renders(ps)) == [x] + ne;
        if Words(rest) == [] {
          if ne != [] { JoinNotEmpty(" ", ne); }
          assert [x] + ne == [x];
          assert p.words + Words(rest) == p.words;
        } else {
          JoinSpaced(Words(rest));
          assert ne != [];
          JoinAppend(" ", [x], ne);
          JoinAppend(" ", p.words, Words(rest));
        }
      }
    }
  }

  /** A pair with only `equal` runs has the same words on both sides, and both sides come out
      unmarked as those words joined by single spaces. */
  lemma UnchangedLine(a: string, b: string, ops: seq<Opcode>)
    requires a != [] && b != []
    requires WellFormed(ops, Split(a), Split(b)) && AllEqual(ops)
    ensures Split(a) == Split(b)
    ensures WordLevelDiff(a, b, ops) == (Join(" ", Split(a)), Join(" ", Split(b)))
  {
    EqualRunsSame(ops, Split(a), Split(b), 0, 0);
    DiffCoversTokens(ops, Split(a), Split(b));
    PlainRender(GenPieces(ops, Split(a)));
  }

  /** For lines already in single-spaced form (as normalised lines are), an unchanged
      pair renders as the input itself on both sides. */
  lemma UnchangedSpacedLine(a: string, b: string, ops: seq<Opcode>)
    requires a != [] && b != [] && Spaced(a) && Spaced(b)
    requires WellFormed(ops, Split(a), Split(b)) && AllEqual(ops)
    ensures a == b
    ensures WordLevelDiff(a, b, ops) == (a, b)
  {
    UnchangedLine(a, b, ops);
    JoinSplitSpaced(a);
    JoinSplitSpaced(b);
  }

  /** The opcodes `SequenceMatcher` reports for the tokens of "a b c" against "a x c". */
  const ExampleOps: seq<Opcode> :=
    [Opcode(Equal, 0, 1, 0, 1), Opcode(Replace, 1, 2, 1, 2), Opcode(Equal, 2, 3, 2, 3)]

  lemma ExampleTokens()
    ensures Split("a b c") == ["a", "b", "c"] && Split("a x c") == ["a", "x", "c"]
  {
    assert "a b c" == Join(" ", ["a", "b", "c"]);
    assert "a x c" == Join(" ", ["a", "x", "c"]);
    SplitJoin(["a", "b", "c"]);
    SplitJoin(["a", "x", "c"]);
  }

  lemma ExamplePieces()
    ensures WellFormed(ExampleOps, ["a", "b", "c"], ["a", "x", "c"])
    ensures GenPieces(ExampleOps, ["a", "b", "c"]) == [Plain(["a"]), Marked(ReplaceGenerated, ["b"]), Plain(["c"])]
    ensures OrigPieces(ExampleOps, ["a", "x", "c"]) == [Plain(["a"]), Marked(ReplaceOriginal, ["x"]), Plain(["c"])]
  {
    var ops := ExampleOps;
    var A, B := ["a", "b", "c"], ["a", "x", "c"];
    assert A[0..1] == ["a"] && A[1..2] == ["b"] && A[2..3] == ["c"];
    assert B[0..1] == ["a"] && B[1..2] == ["x"] && B[2..3] == ["c"];
    assert ops[2..][1..] == [];
    assert CoversFrom(ops[2..], A, B, 2, 2);
    assert CoversFrom(ops[1..], A, B, 1, 1);
    assert GenPieces(ops[2..], A) == [Plain(["c"])];
    assert GenPieces(ops[1..], A) == [Marked(ReplaceGenerated, ["b"]), Plain(["c"])];
    assert OrigPieces(ops[2..], B) == [Plain(["c"])];
    assert OrigPieces(ops[1..], B) == [Marked(ReplaceOriginal, ["x"]), Plain(["c"])];
  }

  /** Three runs of one word each, the middle one marked, render as the three words
      separated by single spaces with the middle one wrapped. */
  lemma ThreeRender(x: string, m: Mark, y: string, z: string)
    requires x != [] && y != [] && z != []
    ensures RenderAll([Plain([x]), Marked(m, [y]), Plain([z])]) == x + " " + Wrap(m, y) + " " + z
  {
    var w := Wrap(m, y);
    ThreeRenders(x, m, y, z);
    NonEmptyThree(x, w, z);
    JoinThree(x, w, z);
  }

  lemma ThreeRenders(x: string, m: Mark, y: string, z: string)
    requires y != []
    ensures Renders([Plain([x]), Marked(m, [y]), Plain([z])]) == [x, Wrap(m, y), z]
  {
    var ps := [Plain([x]), Marked(m, [y]), Plain([z])];
    assert Join(" ", [y]) == y && Join(" ", [x]) == x && Join(" ", [z]) == z;
    assert Render(ps[1]) == Wrap(m, y);
  }

  lemma NonEmptyThree(x: string, w: string, z: string)
    requires x != [] && w != [] && z != []
    ensures NonEmpty([x, w, z]) == [x, w, z]
  {
    assert [x, w, z][1..] == [w, z] && [w, z][1..] == [z];
    assert NonEmpty([z]) == [z];
    assert NonEmpty([w, z]) == [w, z];
  }

  lemma JoinThree(x: string, w: string, z: string)
    ensures Join(" ", [x, w, z]) == x + " " + w + " " + z
  {
    assert [x, w, z][1..] == [w, z] && [w, z][1..] == [z];
    assert Join(" ", [w, z]) == w + " " + z;
    assert Join(" ", [x, w, z]) == x + " " + (w + " " + z);
  }

  /** "a b c" against "a x c": the middle word is marked as replaced on both sides and the
      rest passes through unmarked. */
  lemma ReplacedWordExample(a: string, b: string)
    requires a == "a b c" && b == "a x c"
    ensures WellFormed(ExampleOps, Split(a), Split(b))
    ensures WordLevelDiff(a, b, ExampleOps) ==
            ("a" + " " + Wrap(ReplaceGenerated, "b") + " " + "c",
             "a" + " " + Wrap(ReplaceOriginal, "x") + " " + "c")
  {
    ExampleTokens();
    ExamplePieces();
    ThreeRender("a", ReplaceGenerated, "b", "c");
    ThreeRender("a", ReplaceOriginal, "x", "c");
  }
}
