/**
  Levenshtein distance, as `rapidfuzz.distance.Levenshtein.distance` computes it with its
  default weights: the fewest single-character insertions, deletions and substitutions
  turning one string into the other.
 */
module Levenshtein {

  function Min3(x: nat, y: nat, z: nat): (m: nat)
    ensures m <= x && m <= y && m <= z
    ensures m == x || m == y || m == z
  {
    if x <= y && x <= z then x else if y <= z then y else z
  }

  function Max(x: int, y: int): int { if x >= y then x else y }

  /** The edit distance. It never exceeds the longer length: substitute along the shorter
      string and insert or delete the rest. */
  function Distance(a: string, b: string): (d: nat)
    ensures d <= Max(|a|, |b|)
    decreases |a| + |b|
  {
    if a == [] then |b|
    else if b == [] then |a|
    else Min3(Distance(a[1..], b) + 1,
              Distance(a, b[1..]) + 1,
              Distance(a[1..], b[1..]) + (if a[0] == b[0] then 0 else 1))
  }

  /** The distance is at least the difference in length. */
  lemma {:induction false} DistanceAtLeastLengthGap(a: string, b: string)
    ensures Distance(a, b) >= |a| - |b| && Distance(a, b) >= |b| - |a|
    decreases |a| + |b|
  {
    if a != [] && b != [] {
      DistanceAtLeastLengthGap(a[1..], b);
      DistanceAtLeastLengthGap(a, b[1..]);
      DistanceAtLeastLengthGap(a[1..], b[1..]);
    }
  }

  /** The distance is zero exactly for equal strings. */
  lemma {:induction false} DistanceZeroIff(a: string, b: string)
    ensures Distance(a, b) == 0 <==> a == b
    decreases |a| + |b|
  {
    if a != [] && b != [] {
      DistanceZeroIff(a[1..], b[1..]);
      if a == b {
        assert a[1..] == b[1..];
      } else if Distance(a, b) == 0 {
        DistanceAtLeastLengthGap(a[1..], b);
        DistanceAtLeastLengthGap(a, b[1..]);
      }
    }
  }

  /** The distance does not depend on which string is transformed into which. */
  lemma {:induction false} DistanceSymmetric(a: string, b: string)
    ensures Distance(a, b) == Distance(b, a)
    decreases |a| + |b|
  {
    if a != [] && b != [] {
      DistanceSymmetric(a[1..], b);
      DistanceSymmetric(a, b[1..]);
      DistanceSymmetric(a[1..], b[1..]);
    }
  }
}
