/**
 * `similarity` of script.js: both strings are lower-cased, equal strings score
 * exactly 1, and otherwise the score is `1 - distance / maxLength`. The score
 * is an exact rational here, not a double.
 */
module Scoring {
  import opened EditDistance

  /** ASCII lower-casing of one character; other characters are unchanged. */
  function Lower(c: char): char {
    if 'A' <= c <= 'Z' then (c as int + 32) as char else c
  }

  /** `toLowerCase`, character by character. */
  function ToLower(s: string): (r: string)
    ensures |r| == |s|
    ensures forall i :: 0 <= i < |s| ==> r[i] == Lower(s[i])
  {
    seq(|s|, i requires 0 <= i < |s| => Lower(s[i]))
  }

  /** Lower-casing twice is lower-casing once. */
  lemma ToLowerIdempotent(s: string)
    ensures ToLower(ToLower(s)) == ToLower(s)
  {
  }

  /** The score of `str1` against `str2`. */
  function Similarity(str1: string, str2: string): real {
    var s1 := ToLower(str1);
    var s2 := ToLower(str2);
    if s1 == s2 then 1.0
    else
      var maxLength := Max(|s1|, |s2|);
      1.0 - (Dist(s1, s2) as real) / (maxLength as real)
  }

  lemma RatioBounds(d: nat, m: nat)
    requires 0 < m && d <= m
    ensures 0.0 <= (d as real) / (m as real) <= 1.0
    ensures (d as real) / (m as real) == 0.0 <==> d == 0
  {
    var q := (d as real) / (m as real);
    assert q * (m as real) == d as real;
  }

  /** The score lies in [0, 1]: the distance never exceeds the longer length. */
  lemma SimilarityBounds(str1: string, str2: string)
    ensures 0.0 <= Similarity(str1, str2) <= 1.0
  {
    var s1, s2 := ToLower(str1), ToLower(str2);
    if s1 != s2 {
      DistAtMostLonger(s1, s2);
      RatioBounds(Dist(s1, s2), Max(|s1|, |s2|));
    }
  }

  /** The score is exactly 1 when, and only when, the strings agree up to case. */
  lemma SimilarityOneIff(str1: string, str2: string)
    ensures Similarity(str1, str2) == 1.0 <==> ToLower(str1) == ToLower(str2)
  {
    var s1, s2 := ToLower(str1), ToLower(str2);
    if s1 != s2 {
      DistZeroIff(s1, s2);
      DistAtMostLonger(s1, s2);
      RatioBounds(Dist(s1, s2), Max(|s1|, |s2|));
    }
  }

  /** The score does not depend on the order of the arguments. */
  lemma SimilaritySymmetric(str1: string, str2: string)
    ensures Similarity(str1, str2) == Similarity(str2, str1)
  {
    DistSymmetric(ToLower(str1), ToLower(str2));
  }

  /** Lower-casing either argument first does not change the score. */
  lemma SimilarityIgnoresCase(str1: string, str2: string)
    ensures Similarity(ToLower(str1), str2) == Similarity(str1, str2)
    ensures Similarity(str1, ToLower(str2)) == Similarity(str1, str2)
  {
    ToLowerIdempotent(str1);
    ToLowerIdempotent(str2);
  }

  /**
   * The script's `similarity`, which calls the table-filling
   * `levenshteinDistance` on the lower-cased strings.
   */
  method ComputeSimilarity(str1: string, str2: string) returns (score: real)
    ensures score == Similarity(str1, str2)
    ensures 0.0 <= score <= 1.0
  {
    SimilarityBounds(str1, str2);
    var s1 := ToLower(str1);
    var s2 := ToLower(str2);
    if s1 == s2 {
      return 1.0;
    }
    var maxLength := Max(|s1|, |s2|);
    var distance := LevenshteinDistance(s1, s2);
    score := 1.0 - (distance as real) / (maxLength as real);
  }
}
