/**
  `find_best_match`: the original line a generated line is paired with.
  Lines are compared on their normalised text; the result names the original
  line by its position in `orig_lines`.
 */
module Matcher {
  import opened Wrappers
  import opened Extract
  import opened Normalize
  import opened Similarity

  /** Default vertical slack, in points, on the generated line's own page. */
  const DefaultYTolerance: real := 12.0

  /** Default number of pages away an original line may lie and still count as nearby. */
  const DefaultPageWindow: int := 1

  /** Extra vertical slack allowed per page of distance. */
  const SlackPerPage: int := 5

  function AbsInt(x: int): nat { if x < 0 then -x else x }

  function AbsReal(x: real): real { if x < 0.0 then -x else x }

  /** The `norm` field the comparison stores on every line. */
  function Norm(l: LineRecord): string {
    NormalizeText(Some(l.text))
  }

  /** The spatial filter: the pages are at most `pageWindow` apart and the tops of the
      lines at most `yTolerance + 5·|Δpage|` apart. */
  predicate Nearby(g: LineRecord, o: LineRecord, yTolerance: real, pageWindow: int) {
    var dp := AbsInt(o.page - g.page);
    dp <= pageWindow && AbsReal(o.box.y0 - g.box.y0) <= yTolerance + (SlackPerPage * dp) as real
  }

  function Score(g: LineRecord, o: LineRecord, ratio: Ratio): Percent {
    SimilarityScore(Norm(g), Norm(o), ratio)
  }

  predicate AnyNearby(g: LineRecord, origs: seq<LineRecord>, yTolerance: real, pageWindow: int) {
    exists j :: 0 <= j < |origs| && Nearby(g, origs[j], yTolerance, pageWindow)
  }

  /** Whether `origs[j]` competes for the match: it is nearby, or nothing is nearby
      and the search falls back to every original line. */
  predicate Eligible(g: LineRecord, origs: seq<LineRecord>, j: int, yTolerance: real, pageWindow: int)
    requires 0 <= j < |origs|
  {
    Nearby(g, origs[j], yTolerance, pageWindow) || !AnyNearby(g, origs, yTolerance, pageWindow)
  }

  predicate Increasing(s: seq<nat>) {
    forall a, b :: 0 <= a < b < |s| ==> s[a] < s[b]
  }

  /** Positions `from`, `from + 1`, … of the original lines that pass the spatial filter. */
  function NearbyFrom(g: LineRecord, origs: seq<LineRecord>, yTolerance: real, pageWindow: int, from: nat)
    : (idx: seq<nat>)
    requires from <= |origs|
    ensures Increasing(idx)
    ensures forall k :: 0 <= k < |idx| ==> from <= idx[k] < |origs|
    ensures forall j :: from <= j < |origs| ==>
      (j in idx <==> Nearby(g, origs[j], yTolerance, pageWindow))
    decreases |origs| - from
  {
    if from == |origs| then []
    else
      var rest := NearbyFrom(g, origs, yTolerance, pageWindow, from + 1);
      if Nearby(g, origs[from], yTolerance, pageWindow) then [from] + rest else rest
  }

  /** A scored candidate: Python's `(s, o)` pair, with `o` given by its position. */
  datatype Candidate = Candidate(score: real, index: nat)

  function Scored(g: LineRecord, origs: seq<LineRecord>, idx: seq<nat>, ratio: Ratio): (cs: seq<Candidate>)
    requires forall k :: 0 <= k < |idx| ==> idx[k] < |origs|
    ensures |cs| == |idx|
    ensures forall k :: 0 <= k < |cs| ==> cs[k] == Candidate(Score(g, origs[idx[k]], ratio), idx[k])
  {
    seq(|idx|, k requires 0 <= k < |idx| => Candidate(Score(g, origs[idx[k]], ratio), idx[k]))
  }

  /** The candidate pool: the nearby lines, or every line when none is nearby. */
  function Pool(g: LineRecord, origs: seq<LineRecord>, yTolerance: real, pageWindow: int): (idx: seq<nat>)
    ensures Increasing(idx)
    ensures forall k :: 0 <= k < |idx| ==> idx[k] < |origs|
    ensures forall j :: 0 <= j < |origs| ==> (j in idx <==> Eligible(g, origs, j, yTolerance, pageWindow))
    ensures idx == [] <==> origs == []
  {
    var near := NearbyFrom(g, origs, yTolerance, pageWindow, 0);
    if near != [] then
      assert near[0] in near && Nearby(g, origs[near[0]], yTolerance, pageWindow);
      near
    else
      var all := seq(|origs|, j requires 0 <= j < |origs| => j as nat);
      forall j | 0 <= j < |origs| ensures j in all {
        assert all[j] == j;
      }
      assert !AnyNearby(g, origs, yTolerance, pageWindow);
      all
  }

  /** Python's `max(cs, key=score)` continued from position `k` with `best` the winner so far:
      a later candidate replaces the winner only when its score is strictly greater,
      so the first of several equal maxima wins. */
  function MaxFrom(cs: seq<Candidate>, best: nat, k: nat): (p: nat)
    requires best < k <= |cs|
    requires forall i :: 0 <= i < k ==> cs[i].score <= cs[best].score
    requires forall i :: 0 <= i < best ==> cs[i].score < cs[best].score
    ensures p < |cs|
    ensures forall i :: 0 <= i < |cs| ==> cs[i].score <= cs[p].score
    ensures forall i :: 0 <= i < p ==> cs[i].score < cs[p].score
    decreases |cs| - k
  {
    if k == |cs| then best
    else MaxFrom(cs, if cs[k].score > cs[best].score then k else best, k + 1)
  }

  /** The position of the first candidate with the greatest score. */
  function FirstMax(cs: seq<Candidate>): (p: nat)
    requires |cs| > 0
    ensures p < |cs|
    ensures forall i :: 0 <= i < |cs| ==> cs[i].score <= cs[p].score
    ensures forall i :: 0 <= i < p ==> cs[i].score < cs[p].score
  {
    MaxFrom(cs, 0, 1)
  }

  /** The outcome of `find_best_match`: a score and, unless there was nothing to compare
      against, the position of the chosen original line. */
  datatype MatchResult = MatchResult(score: real, orig: Option<nat>)

  /** `find_best_match(gen_line, orig_lines, y_tolerance, page_window)`.
      Nothing is found exactly when there are no original lines. Otherwise the chosen line
      is eligible (nearby if any line is nearby), its score is the greatest over the eligible
      lines, and no eligible line before it in `orig_lines` reaches that score. */
  function FindBestMatch(g: LineRecord, origs: seq<LineRecord>, yTolerance: real, pageWindow: int, ratio: Ratio)
    : (m: MatchResult)
    ensures m.orig.None? <==> origs == []
    ensures m.orig.None? ==> m.score == 0.0
    ensures m.orig.Some? ==> m.orig.value < |origs|
    ensures m.orig.Some? ==> Eligible(g, origs, m.orig.value, yTolerance, pageWindow)
    ensures m.orig.Some? ==> m.score == Score(g, origs[m.orig.value], ratio)
    ensures m.orig.Some? ==> forall j :: 0 <= j < |origs| && Eligible(g, origs, j, yTolerance, pageWindow) ==>
      Score(g, origs[j], ratio) <= m.score
    ensures m.orig.Some? ==> forall j :: 0 <= j < m.orig.value && Eligible(g, origs, j, yTolerance, pageWindow) ==>
      Score(g, origs[j], ratio) < m.score
  {
    var pool := Pool(g, origs, yTolerance, pageWindow);
    if pool == [] then MatchResult(0.0, None)
    else
      var cs := Scored(g, origs, pool, ratio);
      var p := FirstMax(cs);
      ArgMaxIsFirst(g, origs, yTolerance, pageWindow, ratio, pool, cs, p);
      MatchResult(cs[p].score, Some(cs[p].index))
  }

  /** The first maximum of the scored pool is the first maximum over the eligible lines
      in `orig_lines` order, because the pool lists them in increasing position. */
  lemma ArgMaxIsFirst(g: LineRecord, origs: seq<LineRecord>, yTolerance: real, pageWindow: int, ratio: Ratio,
                      pool: seq<nat>, cs: seq<Candidate>, p: nat)
    requires Increasing(pool)
    requires forall j :: 0 <= j < |origs| ==> (j in pool <==> Eligible(g, origs, j, yTolerance, pageWindow))
    requires |cs| == |pool|
    requires forall k :: 0 <= k < |cs| ==> pool[k] < |origs| && cs[k] == Candidate(Score(g, origs[pool[k]], ratio), pool[k])
    requires p < |cs|
    requires forall i :: 0 <= i < |cs| ==> cs[i].score <= cs[p].score
    requires forall i :: 0 <= i < p ==> cs[i].score < cs[p].score
    ensures forall j :: 0 <= j < |origs| && Eligible(g, origs, j, yTolerance, pageWindow) ==>
      Score(g, origs[j], ratio) <= cs[p].score
    ensures forall j :: 0 <= j < cs[p].index && Eligible(g, origs, j, yTolerance, pageWindow) ==>
      Score(g, origs[j], ratio) < cs[p].score
  {
    forall j | 0 <= j < |origs| && Eligible(g, origs, j, yTolerance, pageWindow)
      ensures Score(g, origs[j], ratio) <= cs[p].score
      ensures j < cs[p].index ==> Score(g, origs[j], ratio) < cs[p].score
    {
      var k := PositionOf(pool, j);
      assert cs[k].score == Score(g, origs[j], ratio);
      if j < cs[p].index {
        IncreasingOrder(pool, k, p);
      }
    }
  }

  /** Where an element of a list sits in it. */
  function PositionOf(s: seq<nat>, x: nat): (k: nat)
    requires x in s
    ensures k < |s| && s[k] == x
  {
    if s[0] == x then 0 else 1 + PositionOf(s[1..], x)
  }

  /** In an increasing list, a smaller element comes earlier. */
  lemma IncreasingOrder(s: seq<nat>, k: nat, p: nat)
    requires Increasing(s) && k < |s| && p < |s| && s[k] < s[p]
    ensures k < p
  {
  }
}
