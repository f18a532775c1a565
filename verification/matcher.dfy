/**
 * Turning free text into a choice: `findBestMatch` (the option most similar
 * to the extracted answer, first one on ties) and the yes/no decision that
 * ends `verifyAnswer`.
 */
module Matcher {
  import opened Wrappers
  import opened Scoring

  /** The score `findBestMatch` gives option `k`: the option comes first. */
  function Score(options: seq<string>, answer: string, k: nat): real
    requires k < |options|
  {
    Similarity(options[k], answer)
  }

  /**
   * `i` is what a strict-`>` arg-max scan picks: no option scores higher, and
   * every earlier option scores strictly lower.
   */
  predicate IsBestMatch(options: seq<string>, answer: string, i: nat) {
    && i < |options|
    && (forall k :: 0 <= k < |options| ==> Score(options, answer, k) <= Score(options, answer, i))
    && (forall k :: 0 <= k < i ==> Score(options, answer, k) < Score(options, answer, i))
  }

  /**
   * The scan as a function: the index among the first `n` options that a
   * strict-`>` scan over them keeps.
   */
  function FirstBest(options: seq<string>, answer: string, n: nat): (b: nat)
    requires 0 < n <= |options|
    ensures b < n
    ensures forall k :: 0 <= k < n ==> Score(options, answer, k) <= Score(options, answer, b)
    ensures forall k :: 0 <= k < b ==> Score(options, answer, k) < Score(options, answer, b)
    decreases n
  {
    if n == 1 then 0
    else
      var b := FirstBest(options, answer, n - 1);
      if Score(options, answer, n - 1) > Score(options, answer, b) then n - 1 else b
  }

  /**
   * `findBestMatch`: `None` (the script's `null`) only for an empty option
   * list, otherwise the index of the first highest-scoring option.
   */
  method FindBestMatch(options: seq<string>, extractedAnswer: string) returns (bestMatch: Option<nat>)
    ensures bestMatch.None? <==> |options| == 0
    ensures bestMatch.Some? ==> IsBestMatch(options, extractedAnswer, bestMatch.value)
    ensures |options| > 0 ==> bestMatch == Some(FirstBest(options, extractedAnswer, |options|))
  {
    bestMatch := None;
    var highestScore: real := -1.0;
    for index := 0 to |options|
      invariant bestMatch.None? <==> index == 0
      invariant bestMatch.None? ==> highestScore == -1.0
      invariant bestMatch.Some? ==> bestMatch.value < index && highestScore == Score(options, extractedAnswer, bestMatch.value)
      invariant forall k :: 0 <= k < index ==> Score(options, extractedAnswer, k) <= highestScore
      invariant bestMatch.Some? ==> forall k :: 0 <= k < bestMatch.value ==> Score(options, extractedAnswer, k) < highestScore
    {
      var score := ComputeSimilarity(options[index], extractedAnswer);
      if score > highestScore {
        highestScore := score;
        bestMatch := Some(index);
      }
    }
    if |options| > 0 {
      BestMatchUnique(options, extractedAnswer, bestMatch.value, FirstBest(options, extractedAnswer, |options|));
    }
  }

  /** At most one index meets the arg-max description, so it fixes the result. */
  lemma BestMatchUnique(options: seq<string>, answer: string, i: nat, j: nat)
    requires IsBestMatch(options, answer, i) && IsBestMatch(options, answer, j)
    ensures i == j
  {
    assert Score(options, answer, i) <= Score(options, answer, j);
    assert Score(options, answer, j) <= Score(options, answer, i);
  }

  /**
   * The first option equal to the answer up to case is the one picked, however
   * many later options match as well.
   */
  lemma FirstExactMatchWins(options: seq<string>, answer: string, i: nat, j: nat)
    requires IsBestMatch(options, answer, i)
    requires j < |options| && ToLower(options[j]) == ToLower(answer)
    requires forall k :: 0 <= k < j ==> ToLower(options[k]) != ToLower(answer)
    ensures i == j
  {
    SimilarityOneIff(options[j], answer);
    SimilarityBounds(options[i], answer);
    SimilarityOneIff(options[i], answer);
    assert Score(options, answer, j) <= Score(options, answer, i);
  }

  /**
   * The tail of `verifyAnswer`: no reply means not verified; otherwise the
   * reply is rejected only when it is strictly closer to "no" than to "yes".
   */
  function DecideYesNo(verified: Option<string>): (accepted: bool)
    ensures accepted ==> verified.Some?
  {
    match verified
    case None => false
    case Some(text) => !(Similarity(text, "no") > Similarity(text, "yes"))
  }

  /** The decision depends on the reply only up to case. */
  lemma DecideYesNoIgnoresCase(text: string)
    ensures DecideYesNo(Some(text)) == DecideYesNo(Some(ToLower(text)))
  {
    SimilarityIgnoresCase(text, "no");
    SimilarityIgnoresCase(text, "yes");
  }

  /**
   * No reply is a rejection; a reply reading "yes" in any case is accepted,
   * one reading "no" rejected; and a tie between the two scores is accepted.
   */
  lemma DecideYesNoOnLiterals(text: string)
    ensures !DecideYesNo(None)
    ensures ToLower(text) == "yes" ==> DecideYesNo(Some(text))
    ensures ToLower(text) == "no" ==> !DecideYesNo(Some(text))
    ensures Similarity(text, "no") == Similarity(text, "yes") ==> DecideYesNo(Some(text))
  {
    assert ToLower("yes") == "yes";
    assert ToLower("no") == "no";
    SimilarityOneIff(text, "yes");
    SimilarityOneIff(text, "no");
    SimilarityBounds(text, "yes");
    SimilarityBounds(text, "no");
  }
}
