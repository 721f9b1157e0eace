/**
  The content-only comparison: `extract_pdf_words`, `pdf_content_accuracy` and
  `compare_pdfs_content_only`. Words are compared as a bag (a `Counter`) of lower-cased
  words for the accuracy, and as an ordered list for the equality test.
 */
module Content {
  import opened PyText

  // ---------------------------------------------------------------- extract_pdf_words

  /** The words of one page that survive the `w.strip()` filter, in page order; `w.strip()`
      is falsy exactly for the words that are all whitespace (`PyText.StripEmptyIff`). */
  function KeepWords(page: seq<string>): (ws: seq<string>)
    ensures forall k :: 0 <= k < |ws| ==> !AllSpace(ws[k])
    ensures forall w :: w in ws <==> w in page && !AllSpace(w)
    ensures |ws| <= |page|
    ensures |page| == 1 ==> ws == (if AllSpace(page[0]) then [] else page)
  {
    if page == [] then []
    else
      var rest := KeepWords(page[1..]);
      assert page == [page[0]] + page[1..];
      if !AllSpace(page[0]) then [page[0]] + rest else rest
  }

  /** The filter keeps the order: filtering a concatenation concatenates the filtered parts. */
  lemma {:induction false} KeepWordsAppend(xs: seq<string>, ys: seq<string>)
    ensures KeepWords(xs + ys) == KeepWords(xs) + KeepWords(ys)
    decreases |xs|
  {
    if xs == [] {
      assert xs + ys == ys;
    } else {
      assert (xs + ys)[1..] == xs[1..] + ys;
      KeepWordsAppend(xs[1..], ys);
    }
  }

  /** A blank word is dropped every time and any other word kept every time it occurs. */
  lemma {:induction false} KeepWordsCount(page: seq<string>, w: string)
    ensures multiset(KeepWords(page))[w] == if AllSpace(w) then 0 else multiset(page)[w]
    decreases |page|
  {
    if page != [] {
      KeepWordsCount(page[1..], w);
      assert page == [page[0]] + page[1..];
    }
  }

  /** All pages' words in one list, pages in order. */
  function Flat(pages: seq<seq<string>>): seq<string> {
    if pages == [] then [] else Flat(pages[..|pages| - 1]) + pages[|pages| - 1]
  }

  /** `extract_pdf_words`: the kept words of every page, pages in order; `pages[p]`
      is what `page.get_text("words")` yields as word texts for page `p`. */
  function ExtractWords(pages: seq<seq<string>>): (ws: seq<string>)
    ensures forall k :: 0 <= k < |ws| ==> !AllSpace(ws[k])
    ensures |pages| == 1 ==> ws == KeepWords(pages[0])
  {
    if pages == [] then [] else ExtractWords(pages[..|pages| - 1]) + KeepWords(pages[|pages| - 1])
  }

  /** Page boundaries do not matter: splitting a document's pages in two anywhere gives
      the concatenation of the two parts' words. */
  lemma ExtractWordsAppend(xs: seq<seq<string>>, ys: seq<seq<string>>)
    ensures ExtractWords(xs + ys) == ExtractWords(xs) + ExtractWords(ys)
  {
    ExtractWordsFlat(xs + ys);
    ExtractWordsFlat(xs);
    ExtractWordsFlat(ys);
    FlatAppend(xs, ys);
    KeepWordsAppend(Flat(xs), Flat(ys));
  }

  lemma {:induction false} FlatAppend(xs: seq<seq<string>>, ys: seq<seq<string>>)
    ensures Flat(xs + ys) == Flat(xs) + Flat(ys)
    decreases |ys|
  {
    if ys == [] {
      assert xs + ys == xs;
    } else {
      var init, last := ys[..|ys| - 1], ys[|ys| - 1];
      var all := xs + ys;
      assert all[..|all| - 1] == xs + init && all[|all| - 1] == last;
      FlatAppend(xs, init);
    }
  }

  /** The extracted words are the non-blank words of the whole document read page after
      page: each appears as often as it does on the pages, in the order it does there. */
  lemma {:induction false} ExtractWordsFlat(pages: seq<seq<string>>)
    ensures ExtractWords(pages) == KeepWords(Flat(pages))
    decreases |pages|
  {
    if pages != [] {
      var init := pages[..|pages| - 1];
      ExtractWordsFlat(init);
      KeepWordsAppend(Flat(init), pages[|pages| - 1]);
    }
  }

  /** A word is extracted exactly when some page holds it and it is not blank. */
  lemma {:induction false} ExtractWordsMember(pages: seq<seq<string>>, w: string)
    ensures w in ExtractWords(pages) <==> !AllSpace(w) && exists p :: 0 <= p < |pages| && w in pages[p]
    decreases |pages|
  {
    if pages != [] {
      var init := pages[..|pages| - 1];
      ExtractWordsMember(init, w);
      if w in pages[|pages| - 1] && !AllSpace(w) {
        assert w in KeepWords(pages[|pages| - 1]);
      }
      if exists p :: 0 <= p < |pages| && w in pages[p] {
        var p :| 0 <= p < |pages| && w in pages[p];
        if p < |pages| - 1 {
          assert init[p] == pages[p];
        }
      }
      if exists p :: 0 <= p < |init| && w in init[p] {
        var p :| 0 <= p < |init| && w in init[p];
        assert pages[p] == init[p];
      }
    }
  }

  // ---------------------------------------------------------------- pdf_content_accuracy

  /** `[word] * n`. */
  function Repeat(w: string, n: nat): (ws: seq<string>)
    ensures |ws| == n
    ensures multiset(ws) == multiset{}[w := n]
  {
    if n == 0 then [] else Repeat(w, n - 1) + [w]
  }

  function Min(x: nat, y: nat): nat { if x <= y then x else y }

  predicate NoDuplicates(s: seq<string>) {
    forall a, b :: 0 <= a < b < |s| ==> s[a] != s[b]
  }

  /** The keys of `Counter(ws)` in the order a `Counter` iterates them: first occurrence. */
  function Distinct(ws: seq<string>): (ks: seq<string>)
    ensures NoDuplicates(ks)
    ensures forall w :: w in ks <==> w in ws
  {
    if ws == [] then []
    else
      var ks := Distinct(ws[..|ws| - 1]);
      var w := ws[|ws| - 1];
      assert forall v :: v in ws <==> v in ws[..|ws| - 1] || v == w;
      if w in ks then ks else ks + [w]
  }

  /** The loop over `orig_counter.items()`: for each key, the `found` count is added to
      `match_count` and the `count - found` missing copies go to `not_found_words`. */
  function Tally(keys: seq<string>, orig: multiset<string>, gen: multiset<string>): (t: (nat, seq<string>))
  {
    if keys == [] then (0, [])
    else
      var prev := Tally(keys[..|keys| - 1], orig, gen);
      var k := keys[|keys| - 1];
      var found := Min(orig[k], gen[k]);
      (prev.0 + found, prev.1 + Repeat(k, orig[k] - found))
  }

  /** Over distinct keys, the tally matches the common part of the two bags and reports
      the rest of the original bag as not found, both restricted to the keys seen. */
  lemma {:induction false} TallyCounts(keys: seq<string>, orig: multiset<string>, gen: multiset<string>)
    requires NoDuplicates(keys)
    ensures forall x :: multiset(Tally(keys, orig, gen).1)[x] == if x in keys then orig[x] - Min(orig[x], gen[x]) else 0
    ensures Tally(keys, orig, gen).0 + |Tally(keys, orig, gen).1| == SumOver(keys, orig)
    ensures Tally(keys, orig, gen).0 == SumOver(keys, orig * gen)
    decreases |keys|
  {
    if keys != [] {
      var init := keys[..|keys| - 1];
      var k := keys[|keys| - 1];
      assert NoDuplicates(init);
      TallyCounts(init, orig, gen);
      assert k !in init;
      assert forall x :: x in keys <==> x in init || x == k;
      assert (orig * gen)[k] == Min(orig[k], gen[k]);
    }
  }

  /** The total count of `keys` in bag `m`, each key counted once. */
  function SumOver(keys: seq<string>, m: multiset<string>): nat {
    if keys == [] then 0 else SumOver(keys[..|keys| - 1], m) + m[keys[|keys| - 1]]
  }

  /** Summing a bag's counts over a duplicate-free list of keys that covers the bag gives
      the size of the bag. */
  lemma {:induction false} SumOverAll(keys: seq<string>, m: multiset<string>)
    requires NoDuplicates(keys)
    requires forall x :: x in m ==> x in keys
    ensures SumOver(keys, m) == |m|
    decreases |keys|
  {
    if keys != [] {
      var init := keys[..|keys| - 1];
      var k := keys[|keys| - 1];
      var rest := m[k := 0];
      assert NoDuplicates(init);
      assert forall x :: x in rest ==> x in init by {
        forall x | x in rest ensures x in init {
          assert x in m && x != k;
          var a :| 0 <= a < |keys| && keys[a] == x;
          assert init[a] == x;
        }
      }
      SumOverAll(init, rest);
      SumOverSame(init, m, rest, k);
      assert m == rest + multiset{}[k := m[k]];
    }
  }

  /** Changing the count of a key that is not listed does not change the sum. */
  lemma {:induction false} SumOverSame(keys: seq<string>, m: multiset<string>, n: multiset<string>, k: string)
    requires forall x :: x in keys ==> x != k && m[x] == n[x]
    ensures SumOver(keys, m) == SumOver(keys, n)
    decreases |keys|
  {
    if keys != [] {
      var init := keys[..|keys| - 1];
      assert keys[|keys| - 1] in keys;
      forall x | x in init ensures x in keys {
        var a :| 0 <= a < |init| && init[a] == x;
        assert keys[a] == x;
      }
      SumOverSame(init, m, n, k);
    }
  }

  /** The result of `pdf_content_accuracy`. */
  datatype Report = Report(accuracy: real, matchCount: nat, totalCount: nat, notFound: seq<string>)

  /** `pdf_content_accuracy` on the two documents' extracted words. With O and G the bags of
      lower-cased original and generated words: `match_count` is the size of their common
      part, `not_found_words` holds exactly the copies of O that G lacks, every original word
      is counted once as found or not found, and the accuracy is the found percentage. */
  function ContentAccuracy(origWords: seq<string>, genWords: seq<string>): (r: Report)
    ensures origWords == [] ==> r == Report(0.0, 0, 0, [])
    ensures origWords != [] ==>
      var o := multiset(LowerAll(origWords));
      var g := multiset(LowerAll(genWords));
      && r.matchCount == |o * g|
      && multiset(r.notFound) == o - g
      && r.totalCount == |origWords|
      && r.matchCount + |r.notFound| == r.totalCount
      && r.accuracy == (r.matchCount as real) / (r.totalCount as real) * 100.0
    ensures 0.0 <= r.accuracy <= 100.0
    ensures r.accuracy == 100.0 <==> origWords != [] && multiset(LowerAll(origWords)) <= multiset(LowerAll(genWords))
  {
    if origWords == [] then Report(0.0, 0, 0, [])
    else
      var lo := LowerAll(origWords);
      var o := multiset(lo);
      var g := multiset(LowerAll(genWords));
      var keys := Distinct(lo);
      var t := Tally(keys, o, g);
      TallyBags(keys, o, g);
      PercentOf(t.0, |o|);
      Report(Percentage(t.0, |o|), t.0, |o|, t.1)
  }

  function Percentage(part: nat, whole: nat): real
    requires whole > 0
  {
    (part as real) / (whole as real) * 100.0
  }

  /** A part of a whole is between none and all of it, and all of it only when equal. */
  lemma PercentOf(part: nat, whole: nat)
    requires 0 < whole && part <= whole
    ensures 0.0 <= Percentage(part, whole) <= 100.0
    ensures Percentage(part, whole) == 100.0 <==> part == whole
  {
    var q := (part as real) / (whole as real);
    assert q * (whole as real) == part as real;
    assert q <= 1.0;
    assert q == 1.0 <==> part == whole;
  }

  /** The tally over the keys of the original bag, in the form the report states it. */
  lemma TallyBags(keys: seq<string>, o: multiset<string>, g: multiset<string>)
    requires NoDuplicates(keys)
    requires forall x :: x in keys <==> x in o
    ensures Tally(keys, o, g).0 == |o * g|
    ensures multiset(Tally(keys, o, g).1) == o - g
    ensures Tally(keys, o, g).0 + |Tally(keys, o, g).1| == |o|
    ensures |o| > 0 ==> (Tally(keys, o, g).0 == |o| <==> o <= g)
  {
    var t := Tally(keys, o, g);
    TallyCounts(keys, o, g);
    SumOverAll(keys, o);
    assert forall x :: x in o * g ==> x in keys;
    SumOverAll(keys, o * g);
    forall x ensures multiset(t.1)[x] == (o - g)[x] {
      if x !in keys {
        assert o[x] == 0;
      }
    }
    assert multiset(t.1) == o - g;
    if t.0 == |o| {
      assert |t.1| == 0;
      forall x ensures o[x] <= g[x] {
        assert (o - g)[x] == 0;
      }
    }
    if o <= g {
      forall x ensures (o - g)[x] == 0 {
        assert o[x] <= g[x];
      }
      assert o - g == multiset{};
    }
  }

  /** A worked example: original `a a b` against generated `a b b`, for any
      two different lower-case words, finds two of three words and misses one `a`. */
  lemma RepeatedWordExample(a: string, b: string)
    requires a != b && Lower(a) == a && Lower(b) == b
    ensures ContentAccuracy([a, a, b], [a, b, b]).matchCount == 2
    ensures ContentAccuracy([a, a, b], [a, b, b]).totalCount == 3
    ensures ContentAccuracy([a, a, b], [a, b, b]).notFound == [a]
  {
    var lo := LowerAll([a, a, b]);
    var lg := LowerAll([a, b, b]);
    assert lo == [a, a, b] && lg == [a, b, b];
    KeysOfExample(a, b);
    TallyOfExample(a, b, multiset(lo), multiset(lg));
  }

  lemma KeysOfExample(a: string, b: string)
    requires a != b
    ensures Distinct([a, a, b]) == [a, b]
  {
    assert [a, a, b][..2] == [a, a] && [a, a][..1] == [a] && [a][..0] == [];
    assert Distinct([a]) == [a];
    assert Distinct([a, a]) == [a];
  }

  lemma TallyOfExample(a: string, b: string, o: multiset<string>, g: multiset<string>)
    requires a != b && o == multiset([a, a, b]) && g == multiset([a, b, b])
    ensures Tally([a, b], o, g) == (2, [a])
  {
    assert o[a] == 2 && o[b] == 1 && g[a] == 1 && g[b] == 2;
    assert [a, b][..1] == [a] && [a][..0] == [];
    assert Repeat(a, 1) == [a] && Repeat(b, 0) == [];
    assert Tally([a], o, g) == (1, [a]);
    assert [a] + [] == [a];
  }

  // ---------------------------------------------------------------- compare_pdfs_content_only

  /** `compare_pdfs_content_only`: the two documents' extracted word lists are equal,
      order included, case and page boundaries aside only as extraction drops them. */
  function ContentOnlyEqual(pages1: seq<seq<string>>, pages2: seq<seq<string>>): (same: bool)
    ensures same <==> KeepWords(Flat(pages1)) == KeepWords(Flat(pages2))
    ensures same ==> forall w :: multiset(ExtractWords(pages1))[w] == multiset(ExtractWords(pages2))[w]
  {
    ExtractWordsFlat(pages1);
    ExtractWordsFlat(pages2);
    ExtractWords(pages1) == ExtractWords(pages2)
  }

  /** Equal content gives full content accuracy, unless there are no words at all. */
  lemma EqualContentFullAccuracy(pages1: seq<seq<string>>, pages2: seq<seq<string>>)
    requires ContentOnlyEqual(pages1, pages2)
    ensures ExtractWords(pages1) != [] ==> ContentAccuracy(ExtractWords(pages1), ExtractWords(pages2)).accuracy == 100.0
  {
  }

  /** The converse fails: two different words in swapped order are fully accurate but
      not equal. */
  lemma ReorderedNotEqual(x: string, y: string)
    requires x != y && !AllSpace(x) && !AllSpace(y)
    ensures !ContentOnlyEqual([[x, y]], [[y, x]])
    ensures ContentAccuracy(ExtractWords([[x, y]]), ExtractWords([[y, x]])).accuracy == 100.0
  {
    OnePageOfTwo(x, y);
    OnePageOfTwo(y, x);
    SwappedFullAccuracy(x, y);
  }

  /** Swapping two words leaves the bag of words, and so full accuracy, unchanged. */
  lemma SwappedFullAccuracy(x: string, y: string)
    ensures ContentAccuracy([x, y], [y, x]).accuracy == 100.0
  {
    assert LowerAll([x, y]) == [Lower(x), Lower(y)] && LowerAll([y, x]) == [Lower(y), Lower(x)];
    assert multiset([Lower(x), Lower(y)]) == multiset([Lower(y), Lower(x)]);
  }

  lemma OnePageOfTwo(x: string, y: string)
    requires !AllSpace(x) && !AllSpace(y)
    ensures ExtractWords([[x, y]]) == [x, y]
  {
    assert [x, y][1..] == [y] && [y][1..] == [];
    assert KeepWords([x, y]) == [x, y];
    assert [[x, y]][..0] == [];
  }
}
