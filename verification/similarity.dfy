/** `similarity_score`: the guard around rapidfuzz's token-sort ratio. */
module Similarity {

  /** A score on rapidfuzz's 0..100 scale. */
  type Percent = r: real | 0.0 <= r <= 100.0

  /** `fuzz.token_sort_ratio`. Its internals are not part of this model: it is any
      function of two strings into 0..100, passed in by the caller. */
  type Ratio = (string, string) -> Percent

  /** Two empty lines are identical (100), an empty line against a non-empty one shares
      nothing (0), and only two non-empty lines are handed to the ratio. */
  function SimilarityScore(a: string, b: string, ratio: Ratio): (r: Percent)
    ensures a == [] && b == [] ==> r == 100.0
    ensures (a == []) != (b == []) ==> r == 0.0
    ensures a != [] && b != [] ==> r == ratio(a, b)
  {
    if a == [] && b == [] then 100.0
    else if a == [] || b == [] then 0.0
    else ratio(a, b)
  }

  /** A score of 0 means one side was empty or the ratio itself scored 0. */
  lemma ZeroScore(a: string, b: string, ratio: Ratio)
    requires SimilarityScore(a, b, ratio) == 0.0
    ensures (a == []) != (b == []) || (a != [] && b != [] && ratio(a, b) == 0.0)
  {
  }

  /** The guard keeps whatever symmetry the ratio has. */
  lemma ScoreSymmetric(a: string, b: string, ratio: Ratio)
    requires a != [] && b != [] ==> ratio(a, b) == ratio(b, a)
    ensures SimilarityScore(a, b, ratio) == SimilarityScore(b, a, ratio)
  {
  }

  /** A line compared with itself scores 100 when the ratio is reflexive on it. */
  lemma ScoreReflexive(a: string, ratio: Ratio)
    requires a != [] ==> ratio(a, a) == 100.0
    ensures SimilarityScore(a, a, ratio) == 100.0
  {
  }
}
