/**
  The parts of Python's `str` that the comparison engine relies on:
  `isspace`, `strip()`, `split()` with no separator, `sep.join(...)` and `lower()`.
  Strings are sequences of Unicode scalar values; a Python `str` may also hold lone
  surrogates, which this model does not cover.
 */
module PyText {

  /** Python's `str.isspace()`: the characters that `split()` and `strip()` treat as whitespace.
      Note that the no-break space U+00A0 is one of them. */
  predicate IsSpace(c: char) {
    || c == ' '
    || ('\t' <= c <= '\r')
    || ('\U{1C}' <= c <= '\U{1F}')
    || c == '\U{85}'
    || c == '\U{A0}'
    || c == '\U{1680}'
    || ('\U{2000}' <= c <= '\U{200A}')
    || c == '\U{2028}'
    || c == '\U{2029}'
    || c == '\U{202F}'
    || c == '\U{205F}'
    || c == '\U{3000}'
  }

  /** A token produced by `split()`: non-empty and free of whitespace. */
  predicate IsWord(w: string) {
    |w| > 0 && forall i :: 0 <= i < |w| ==> !IsSpace(w[i])
  }

  predicate AllWords(ws: seq<string>) {
    forall k :: 0 <= k < |ws| ==> IsWord(ws[k])
  }

  /** The shape of `" ".join(words)` for whitespace-free, non-empty words: the only whitespace
      is a plain space, each one standing between two non-whitespace characters. */
  predicate Spaced(s: string) {
    forall i :: 0 <= i < |s| && IsSpace(s[i]) ==>
      s[i] == ' ' && 0 < i < |s| - 1 && !IsSpace(s[i - 1]) && !IsSpace(s[i + 1])
  }

  // ---------------------------------------------------------------- strip()

  /** `s.lstrip()`: a suffix of `s` that does not start with whitespace. */
  function StripLeft(s: string): (r: string)
    ensures |r| <= |s| && r == s[|s| - |r|..]
    ensures r == [] || !IsSpace(r[0])
  {
    if s == [] || !IsSpace(s[0]) then s else StripLeft(s[1..])
  }

  /** `s.rstrip()`: a prefix of `s` that does not end with whitespace. */
  function StripRight(s: string): (r: string)
    ensures |r| <= |s| && r == s[..|r|]
    ensures r == [] || !IsSpace(r[|r| - 1])
  {
    if s == [] || !IsSpace(s[|s| - 1]) then s else StripRight(s[..|s| - 1])
  }

  /** A string made of whitespace only (the empty string included). */
  predicate AllSpace(s: string) {
    forall i :: 0 <= i < |s| ==> IsSpace(s[i])
  }

  /** `lstrip()` removes whitespace only. */
  lemma {:induction false} StripLeftSpace(s: string)
    ensures AllSpace(s[..|s| - |StripLeft(s)|])
    decreases |s|
  {
    if s != [] && IsSpace(s[0]) {
      var t := s[1..];
      StripLeftSpace(t);
      var k := |s| - |StripLeft(s)|;
      assert s[..k] == [s[0]] + t[..k - 1];
    } else {
      assert s[..0] == [];
    }
  }

  /** `rstrip()` removes whitespace only. */
  lemma {:induction false} StripRightSpace(s: string)
    ensures AllSpace(s[|StripRight(s)|..])
    decreases |s|
  {
    if s != [] && IsSpace(s[|s| - 1]) {
      var t := s[..|s| - 1];
      StripRightSpace(t);
      var k := |StripRight(s)|;
      assert s[k..] == t[k..] + [s[|s| - 1]];
    } else {
      assert s[|s|..] == [];
    }
  }

  /** Number of whitespace characters at the front of `s`. */
  function LeadingSpace(s: string): (k: nat)
    ensures k <= |s|
  {
    |s| - |StripLeft(s)|
  }

  /** A string with no whitespace at either end: what `strip()` returns. */
  predicate Trimmed(s: string) {
    s == [] || (!IsSpace(s[0]) && !IsSpace(s[|s| - 1]))
  }

  /** `s.strip()`: the leading and the trailing whitespace removed
      (`StripRemovesSpace` says what exactly is removed). */
  function Strip(s: string): (r: string)
    ensures Trimmed(r) && |r| <= |s|
  {
    StripRight(StripLeft(s))
  }

  /** `strip()` returns the infix of `s` that remains once the leading and the trailing
      whitespace are removed: `s` is whitespace, then `strip()`'s result, then whitespace. */
  lemma StripRemovesSpace(s: string)
    ensures LeadingSpace(s) + |Strip(s)| <= |s|
    ensures s == s[..LeadingSpace(s)] + Strip(s) + s[LeadingSpace(s) + |Strip(s)|..]
    ensures AllSpace(s[..LeadingSpace(s)]) && AllSpace(s[LeadingSpace(s) + |Strip(s)|..])
  {
    var l := StripLeft(s);
    var r := StripRight(l);
    var k := LeadingSpace(s);
    StripLeftSpace(s);
    StripRightSpace(l);
    assert l == s[k..];
    assert r == l[..|r|];
    assert l[|r|..] == s[k + |r|..];
    assert s == s[..k] + r + s[k + |r|..];
  }

  /** A string is its own `strip()` exactly when it is trimmed. */
  lemma StripFixedIff(s: string)
    ensures Strip(s) == s <==> Trimmed(s)
  {
    if Trimmed(s) {
      StripNoop(s);
    }
  }

  /** A string with no surrounding whitespace is its own `strip()`. */
  lemma StripNoop(s: string)
    requires Trimmed(s)
    ensures Strip(s) == s
  {
  }

  /** When `strip()` leaves nothing, `lstrip()` has already removed everything. */
  lemma StripEmptyAll(s: string)
    requires Strip(s) == []
    ensures LeadingSpace(s) == |s|
  {
    var l := StripLeft(s);
    if l != [] {
      StripRightKeepsFirst(l);
    }
  }

  /** `rstrip()` keeps a string that starts with a non-whitespace character non-empty. */
  lemma {:induction false} StripRightKeepsFirst(s: string)
    requires s != [] && !IsSpace(s[0])
    ensures StripRight(s) != []
    decreases |s|
  {
    if IsSpace(s[|s| - 1]) {
      StripRightKeepsFirst(s[..|s| - 1]);
    }
  }

  /** `strip()` leaves nothing when the string is all whitespace, and only then. */
  lemma StripEmptyIff(s: string)
    ensures Strip(s) == [] <==> AllSpace(s)
  {
    StripRemovesSpace(s);
    var k := LeadingSpace(s);
    if Strip(s) == [] {
      StripEmptyAll(s);
    } else {
      assert s[k] == Strip(s)[0];
    }
  }

  // ---------------------------------------------------------------- split()

  /** Length of the leading run of non-whitespace characters. */
  function WordLen(s: string): (n: nat)
    ensures n <= |s|
    ensures forall i :: 0 <= i < n ==> !IsSpace(s[i])
    ensures n == |s| || IsSpace(s[n])
  {
    if s == [] || IsSpace(s[0]) then 0 else 1 + WordLen(s[1..])
  }

  /** `s.split()`: the maximal whitespace-free runs of `s`, in order. */
  function Split(s: string): (ws: seq<string>)
    ensures AllWords(ws)
    decreases |s|
  {
    if s == [] then []
    else if IsSpace(s[0]) then Split(s[1..])
    else
      var n := WordLen(s);
      [s[..n]] + Split(s[n..])
  }

  // ---------------------------------------------------------------- join()

  /** `sep.join(parts)`. */
  function Join(sep: string, parts: seq<string>): string {
    if parts == [] then []
    else if |parts| == 1 then parts[0]
    else parts[0] + sep + Join(sep, parts[1..])
  }

  lemma {:induction false} JoinAppend(sep: string, xs: seq<string>, ys: seq<string>)
    requires xs != [] && ys != []
    ensures Join(sep, xs + ys) == Join(sep, xs) + sep + Join(sep, ys)
    decreases |xs|
  {
    if |xs| == 1 {
      assert xs + ys == [xs[0]] + ys;
    } else {
      assert (xs + ys)[1..] == xs[1..] + ys;
      JoinAppend(sep, xs[1..], ys);
    }
  }

  // ---------------------------------------------------------------- split/join round trips

  /** Splitting a word followed by nothing or by whitespace yields the word first. */
  lemma WordThenRest(w: string, rest: string)
    requires IsWord(w)
    requires rest == [] || IsSpace(rest[0])
    ensures Split(w + rest) == [w] + Split(rest)
  {
    var s := w + rest;
    WordLenOf(w, rest);
    assert s[..|w|] == w;
    assert s[|w|..] == rest;
  }

  /** `split()` on every input is fixed by three facts: a leading whitespace character is
      dropped, a word ending the string is one part, and a word ended by any whitespace
      character is one part followed by the split of what comes after that character.
      Together with `Split([]) == []` they determine the result by induction on the length,
      so runs of whitespace of any length and kind separate words exactly once. */
  lemma SplitLeadingSpace(c: char, s: string)
    requires IsSpace(c)
    ensures Split([c] + s) == Split(s)
  {
    assert ([c] + s)[1..] == s;
  }

  lemma SplitWord(w: string)
    requires IsWord(w)
    ensures Split(w) == [w]
  {
    WordThenRest(w, []);
    assert w + [] == w;
  }

  lemma SplitWordSpace(w: string, c: char, s: string)
    requires IsWord(w) && IsSpace(c)
    ensures Split(w + [c] + s) == [w] + Split(s)
  {
    assert w + [c] + s == w + ([c] + s);
    WordThenRest(w, [c] + s);
    SplitLeadingSpace(c, s);
  }

  /** Two adjacent whitespace characters separate words like one does. */
  lemma SplitDoubleSpace(c: char, d: char, s: string)
    requires IsSpace(c) && IsSpace(d)
    ensures Split([c, d] + s) == Split(s)
  {
    assert [c, d] + s == [c] + ([d] + s);
    SplitLeadingSpace(c, [d] + s);
    SplitLeadingSpace(d, s);
  }

  /** Two words separated by a run of two whitespace characters split into the two words. */
  lemma SplitTwoWordsRun(x: string, c: char, d: char, y: string)
    requires IsWord(x) && IsWord(y) && IsSpace(c) && IsSpace(d)
    ensures Split(x + [c, d] + y) == [x, y]
  {
    assert x + [c, d] + y == x + [c] + ([d] + y);
    SplitWordSpace(x, c, [d] + y);
    SplitLeadingSpace(d, y);
    SplitWord(y);
  }

  lemma {:induction false} WordLenOf(w: string, rest: string)
    requires forall i :: 0 <= i < |w| ==> !IsSpace(w[i])
    requires rest == [] || IsSpace(rest[0])
    ensures WordLen(w + rest) == |w|
    decreases |w|
  {
    if w != [] {
      assert (w + rest)[1..] == w[1..] + rest;
      WordLenOf(w[1..], rest);
    }
  }

  /** `" ".join(ws).split() == ws` for words without whitespace. */
  lemma {:induction false} SplitJoin(ws: seq<string>)
    requires AllWords(ws)
    ensures Split(Join(" ", ws)) == ws
    decreases |ws|
  {
    if ws == [] {
    } else if |ws| == 1 {
      WordThenRest(ws[0], []);
      assert ws[0] + [] == ws[0];
    } else {
      var tail := Join(" ", ws[1..]);
      SplitJoin(ws[1..]);
      assert Join(" ", ws) == ws[0] + (" " + tail);
      WordThenRest(ws[0], " " + tail);
      assert (" " + tail)[1..] == tail;
    }
  }

  /** `" ".join(ws)` of words has the `Spaced` shape. */
  lemma {:induction false} JoinSpaced(ws: seq<string>)
    requires AllWords(ws)
    ensures Spaced(Join(" ", ws))
    ensures ws != [] ==> Join(" ", ws) != []
    decreases |ws|
  {
    if |ws| > 1 {
      JoinSpaced(ws[1..]);
      var w := ws[0];
      var t := Join(" ", ws[1..]);
      var s := w + " " + t;
      assert s == Join(" ", ws);
      forall i | 0 <= i < |s| && IsSpace(s[i])
        ensures s[i] == ' ' && 0 < i < |s| - 1 && !IsSpace(s[i - 1]) && !IsSpace(s[i + 1])
      {
        if i == |w| {
          assert s[i - 1] == w[|w| - 1];
          assert s[i + 1] == t[0];
        } else if i > |w| {
          assert s[i] == t[i - |w| - 1];
          if i - 1 > |w| { assert s[i - 1] == t[i - 1 - |w| - 1]; }
        }
      }
    }
  }

  /** A `Spaced` string is the join of its own split. */
  lemma {:induction false} JoinSplitSpaced(s: string)
    requires Spaced(s)
    ensures Join(" ", Split(s)) == s
    decreases |s|
  {
    if s != [] {
      assert !IsSpace(s[0]);
      var n := WordLen(s);
      if n == |s| {
        assert s[n..] == [];
        assert Split(s) == [s[..n]];
      } else {
        var rest := s[n + 1..];
        SpacedRest(s, n);
        JoinSplitSpaced(rest);
        assert Split(rest) != [];
        assert s == s[..n] + " " + rest;
      }
    }
  }

  /** In a `Spaced` string, the first word is followed by one plain space and a `Spaced`
      remainder that starts a new word. */
  lemma SpacedRest(s: string, n: nat)
    requires Spaced(s) && s != [] && !IsSpace(s[0])
    requires n == WordLen(s) < |s|
    ensures n + 1 < |s| && s[n] == ' ' && !IsSpace(s[n + 1])
    ensures Spaced(s[n + 1..])
    ensures Split(s[n..]) == Split(s[n + 1..])
  {
    var rest := s[n + 1..];
    assert s[n..][1..] == rest;
    forall i | 0 <= i < |rest| && IsSpace(rest[i])
      ensures rest[i] == ' ' && 0 < i < |rest| - 1 && !IsSpace(rest[i - 1]) && !IsSpace(rest[i + 1])
    {
      assert rest[i] == s[n + 1 + i];
    }
  }

  // ---------------------------------------------------------------- lower()

  /** `str.lower()` on one character, for ASCII and Latin-1 capitals. */
  function LowerChar(c: char): (d: char)
    ensures IsSpace(d) == IsSpace(c)
  {
    if 'A' <= c <= 'Z' then (c as int + 32) as char
    else if '\U{C0}' <= c <= '\U{DE}' && c != '\U{D7}' then (c as int + 32) as char
    else c
  }

  lemma LowerCharIdempotent(c: char)
    ensures LowerChar(LowerChar(c)) == LowerChar(c)
  {
  }

  function Lower(s: string): (r: string)
    ensures |r| == |s|
    ensures forall i :: 0 <= i < |s| ==> r[i] == LowerChar(s[i])
  {
    seq(|s|, i requires 0 <= i < |s| => LowerChar(s[i]))
  }

  function LowerAll(ws: seq<string>): (vs: seq<string>)
    ensures |vs| == |ws|
    ensures forall k :: 0 <= k < |ws| ==> vs[k] == Lower(ws[k])
  {
    seq(|ws|, k requires 0 <= k < |ws| => Lower(ws[k]))
  }

  lemma LowerIdempotent(s: string)
    ensures Lower(Lower(s)) == Lower(s)
  {
    forall i | 0 <= i < |s| ensures Lower(Lower(s))[i] == Lower(s)[i] {
      LowerCharIdempotent(s[i]);
    }
  }

  /** Lowering keeps the `Spaced` shape, since it maps whitespace to whitespace
      and the plain space to itself. */
  lemma LowerSpaced(s: string)
    requires Spaced(s)
    ensures Spaced(Lower(s))
  {
  }

  lemma {:induction false} LowerJoin(ws: seq<string>)
    ensures Lower(Join(" ", ws)) == Join(" ", LowerAll(ws))
    decreases |ws|
  {
    if |ws| > 1 {
      LowerJoin(ws[1..]);
      assert LowerAll(ws)[1..] == LowerAll(ws[1..]);
      var a, b := ws[0], Join(" ", ws[1..]);
      assert Lower(a + " " + b) == Lower(a) + " " + Lower(b);
    }
  }

  lemma LowerAllWords(ws: seq<string>)
    requires AllWords(ws)
    ensures AllWords(LowerAll(ws))
  {
  }
}
