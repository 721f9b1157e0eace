/** `normalize_text`: the canonical form both documents' lines are compared in. */
module Normalize {
  import opened Wrappers
  import opened PyText

  const NBSP: char := '\U{A0}'

  /** `t.replace("\u00A0", " ")`: every no-break space becomes a plain space. */
  function ReplaceNbsp(s: string): (r: string)
    ensures |r| == |s|
    ensures forall i :: 0 <= i < |s| ==> r[i] != NBSP
    ensures forall i :: 0 <= i < |s| && s[i] != NBSP ==> r[i] == s[i]
    ensures forall i :: 0 <= i < |s| && s[i] == NBSP ==> r[i] == ' '
  {
    seq(|s|, i requires 0 <= i < |s| => if s[i] == NBSP then ' ' else s[i])
  }

  /** The strings `normalize_text` can produce: single plain spaces between words,
      no whitespace at either end, and already lower-case. */
  predicate Normalized(s: string) {
    Spaced(s) && Lower(s) == s
  }

  /** `normalize_text(t)`: `None` gives the empty string; otherwise the text's words,
      lower-cased, joined by single spaces. */
  function NormalizeText(t: Option<string>): (r: string)
    ensures t.None? ==> r == []
    ensures Normalized(r)
    ensures forall i :: 0 <= i < |r| ==> r[i] != NBSP
    ensures r == [] || (!IsSpace(r[0]) && !IsSpace(r[|r| - 1]))
    ensures forall i :: 0 <= i < |r| - 1 ==> !(IsSpace(r[i]) && IsSpace(r[i + 1]))
    ensures t.Some? ==> Split(r) == LowerAll(Split(t.value))
    ensures t.Some? ==> r == Join(" ", LowerAll(Split(t.value)))
  {
    match t
    case None => []
    case Some(s) =>
      PipelineFacts(s);
      Pipeline(s)
  }

  /** The chain of string operations `normalize_text` applies to a present text. */
  function Pipeline(s: string): string {
    Lower(Strip(Join(" ", Split(ReplaceNbsp(s)))))
  }

  lemma PipelineFacts(s: string)
    ensures Pipeline(s) == Join(" ", LowerAll(Split(s)))
    ensures Normalized(Pipeline(s))
    ensures Split(Pipeline(s)) == LowerAll(Split(s))
  {
    var words := Split(ReplaceNbsp(s));
    var joined := Join(" ", words);
    SplitReplaceNbsp(s);
    JoinSpaced(words);
    SpacedTrimmed(joined);
    StripNoop(joined);
    LowerJoin(words);
    LowerAllWords(words);
    SplitJoin(LowerAll(words));
    LowerSpaced(joined);
    LowerIdempotent(joined);
  }

  /** A `Spaced` string has no whitespace at either end. */
  lemma SpacedTrimmed(s: string)
    requires Spaced(s)
    ensures Trimmed(s)
  {
    if s != [] {
      assert !IsSpace(s[0]);
      assert !IsSpace(s[|s| - 1]);
    }
  }

  /** Every normalised string is left alone by `normalize_text`. */
  lemma NormalizedFixed(s: string)
    requires Normalized(s)
    ensures NormalizeText(Some(s)) == s
  {
    SplitReplaceNbsp(s);
    JoinSplitSpaced(s);
    SpacedTrimmed(s);
    StripNoop(s);
  }

  /** `normalize_text(normalize_text(t)) == normalize_text(t)`. */
  lemma NormalizeIdempotent(t: Option<string>)
    ensures NormalizeText(Some(NormalizeText(t))) == NormalizeText(t)
  {
    NormalizedFixed(NormalizeText(t));
  }

  /** The no-break space is already whitespace for `split()`, so replacing it first
      leaves the words unchanged. */
  lemma SplitReplaceNbsp(s: string)
    ensures Split(ReplaceNbsp(s)) == Split(s)
  {
    SplitSameShape(ReplaceNbsp(s), s);
  }

  /** Two strings that differ only in which whitespace character sits where split alike. */
  lemma {:induction false} SplitSameShape(s: string, t: string)
    requires |s| == |t|
    requires forall i :: 0 <= i < |s| ==> s[i] == t[i] || (IsSpace(s[i]) && IsSpace(t[i]))
    ensures Split(s) == Split(t)
    decreases |s|
  {
    if s != [] {
      if IsSpace(s[0]) {
        SplitSameShape(s[1..], t[1..]);
      } else {
        var n := WordLenSame(s, t);
        assert s[..n] == t[..n];
        SplitSameShape(s[n..], t[n..]);
      }
    }
  }

  lemma {:induction false} WordLenSame(s: string, t: string) returns (n: nat)
    requires |s| == |t|
    requires forall i :: 0 <= i < |s| ==> s[i] == t[i] || (IsSpace(s[i]) && IsSpace(t[i]))
    ensures n == WordLen(s) == WordLen(t)
    decreases |s|
  {
    if s == [] || IsSpace(s[0]) {
      n := 0;
    } else {
      var m := WordLenSame(s[1..], t[1..]);
      n := m + 1;
    }
  }
}
