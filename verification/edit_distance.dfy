/**
 * Unit-cost Levenshtein distance: `levenshteinDistance` of script.js.
 *
 * `Dist` is the recurrence the script's memo table follows, written over
 * prefixes: `Dist(a[..i], b[..j])` is what `memo[i][j]` holds. It is shown to
 * be the true edit distance (the least cost of an edit script turning `a` into
 * `b`), and `LevenshteinDistance` fills a two-dimensional table with nested
 * loops, exactly as the script does, and returns `Dist(a, b)`.
 */
module EditDistance {

  function Min3(x: nat, y: nat, z: nat): nat {
    if x <= y && x <= z then x else if y <= z then y else z
  }

  /** All of `s` but its last character. */
  function Init(s: string): string
    requires |s| > 0
  {
    s[..|s| - 1]
  }

  function Last(s: string): char
    requires |s| > 0
  {
    s[|s| - 1]
  }

  /**
   * The memo-table recurrence: an empty side costs the other side's length;
   * equal last characters cost nothing more than the two prefixes; otherwise
   * one plus the cheapest of deletion, insertion and substitution.
   */
  function Dist(a: string, b: string): nat
    decreases |a| + |b|
  {
    if |a| == 0 then |b|
    else if |b| == 0 then |a|
    else if Last(a) == Last(b) then Dist(Init(a), Init(b))
    else 1 + Min3(Dist(Init(a), b), Dist(a, Init(b)), Dist(Init(a), Init(b)))
  }

  // ---------------------------------------------------------------------
  // Edit scripts: the independent meaning of "edit distance"
  // ---------------------------------------------------------------------

  /** One step of an alignment of two strings, read left to right. */
  datatype Edit = Keep | Substitute(c: char) | Insert(c: char) | Delete

  /**
   * `s` turns `a` into `b`: its last step accounts for the last character of
   * `a` (Keep, Substitute, Delete) and/or of `b` (Keep, Substitute, Insert),
   * and the steps before it turn the remaining prefixes into each other.
   */
  predicate Transforms(s: seq<Edit>, a: string, b: string)
    decreases |s|
  {
    if |s| == 0 then a == [] && b == []
    else
      var rest := s[..|s| - 1];
      match s[|s| - 1]
      case Keep =>
        |a| > 0 && |b| > 0 && Last(a) == Last(b) && Transforms(rest, Init(a), Init(b))
      case Substitute(c) =>
        |a| > 0 && |b| > 0 && Last(b) == c && Transforms(rest, Init(a), Init(b))
      case Insert(c) =>
        |b| > 0 && Last(b) == c && Transforms(rest, a, Init(b))
      case Delete =>
        |a| > 0 && Transforms(rest, Init(a), b)
  }

  /** Every step but Keep costs one. */
  function Cost(s: seq<Edit>): nat
    decreases |s|
  {
    if |s| == 0 then 0
    else Cost(s[..|s| - 1]) + (if s[|s| - 1] == Keep then 0 else 1)
  }

  lemma AppendStep(s: seq<Edit>, e: Edit)
    ensures (s + [e])[..|s|] == s && (s + [e])[|s|] == e
    ensures Cost(s + [e]) == Cost(s) + (if e == Keep then 0 else 1)
  {
    assert (s + [e])[..|s|] == s;
  }

  /** A script that follows the recurrence and so costs exactly `Dist(a, b)`. */
  function OptimalScript(a: string, b: string): (s: seq<Edit>)
    ensures Transforms(s, a, b)
    ensures Cost(s) == Dist(a, b)
    decreases |a| + |b|
  {
    if |a| == 0 && |b| == 0 then []
    else if |a| == 0 then
      var r := OptimalScript(a, Init(b));
      AppendStep(r, Insert(Last(b)));
      r + [Insert(Last(b))]
    else if |b| == 0 then
      var r := OptimalScript(Init(a), b);
      AppendStep(r, Delete);
      r + [Delete]
    else if Last(a) == Last(b) then
      var r := OptimalScript(Init(a), Init(b));
      AppendStep(r, Keep);
      r + [Keep]
    else if Dist(Init(a), b) <= Dist(a, Init(b)) && Dist(Init(a), b) <= Dist(Init(a), Init(b)) then
      var r := OptimalScript(Init(a), b);
      AppendStep(r, Delete);
      r + [Delete]
    else if Dist(a, Init(b)) <= Dist(Init(a), Init(b)) then
      var r := OptimalScript(a, Init(b));
      AppendStep(r, Insert(Last(b)));
      r + [Insert(Last(b))]
    else
      var r := OptimalScript(Init(a), Init(b));
      AppendStep(r, Substitute(Last(b)));
      r + [Substitute(Last(b))]
  }

  /** Dropping the last character of the source costs at most one more step. */
  lemma {:induction false} DropLastOfSource(s: seq<Edit>, a: string, b: string) returns (t: seq<Edit>)
    requires Transforms(s, a, b) && |a| > 0
    ensures Transforms(t, Init(a), b)
    ensures Cost(t) <= Cost(s) + 1
    decreases |s|
  {
    var rest, e := s[..|s| - 1], s[|s| - 1];
    AppendStep(rest, e);
    assert s == rest + [e];
    if e.Keep? || e.Substitute? {
      assert |b| > 0 && Transforms(rest, Init(a), Init(b));
      t := rest + [Insert(Last(b))];
      AppendStep(rest, Insert(Last(b)));
    } else if e.Insert? {
      assert |b| > 0 && Last(b) == e.c && Transforms(rest, a, Init(b));
      var t' := DropLastOfSource(rest, a, Init(b));
      t := t' + [e];
      AppendStep(t', e);
    } else {
      assert Transforms(rest, Init(a), b);
      t := rest;
    }
  }

  /** Dropping the last character of the target costs at most one more step. */
  lemma {:induction false} DropLastOfTarget(s: seq<Edit>, a: string, b: string) returns (t: seq<Edit>)
    requires Transforms(s, a, b) && |b| > 0
    ensures Transforms(t, a, Init(b))
    ensures Cost(t) <= Cost(s) + 1
    decreases |s|
  {
    var rest, e := s[..|s| - 1], s[|s| - 1];
    AppendStep(rest, e);
    assert s == rest + [e];
    if e.Keep? || e.Substitute? {
      assert |a| > 0 && Transforms(rest, Init(a), Init(b));
      t := rest + [Delete];
      AppendStep(rest, Delete);
    } else if e.Insert? {
      assert Transforms(rest, a, Init(b));
      t := rest;
    } else {
      assert |a| > 0 && Transforms(rest, Init(a), b);
      var t' := DropLastOfTarget(rest, Init(a), b);
      t := t' + [Delete];
      AppendStep(t', Delete);
    }
  }

  /** No edit script is cheaper than `Dist`: with `OptimalScript`, `Dist` is the edit distance. */
  lemma {:induction false} DistLowerBound(s: seq<Edit>, a: string, b: string)
    requires Transforms(s, a, b)
    ensures Dist(a, b) <= Cost(s)
    decreases |a| + |b|
  {
    if |s| == 0 {
      return;
    }
    var rest := s[..|s| - 1];
    var e := s[|s| - 1];
    AppendStep(rest, e);
    assert rest + [e] == s;
    match e
    case Keep =>
      DistLowerBound(rest, Init(a), Init(b));
    case Substitute(c) =>
      DistLowerBound(rest, Init(a), Init(b));
    case Insert(c) =>
      DistLowerBound(rest, a, Init(b));
      if |a| > 0 && Last(a) == Last(b) {
        var t := DropLastOfSource(rest, a, Init(b));
        DistLowerBound(t, Init(a), Init(b));
      }
    case Delete =>
      DistLowerBound(rest, Init(a), b);
      if |b| > 0 && Last(a) == Last(b) {
        var t := DropLastOfTarget(rest, Init(a), b);
        DistLowerBound(t, Init(a), Init(b));
      }
  }

  // ---------------------------------------------------------------------
  // Properties of the distance
  // ---------------------------------------------------------------------

  function Max(x: nat, y: nat): nat {
    if x >= y then x else y
  }

  /** The distance never exceeds the longer length. */
  lemma {:induction false} DistAtMostLonger(a: string, b: string)
    ensures Dist(a, b) <= Max(|a|, |b|)
    decreases |a| + |b|
  {
    if |a| > 0 && |b| > 0 {
      DistAtMostLonger(Init(a), Init(b));
    }
  }

  /** The distance is at least the difference of the lengths. */
  lemma {:induction false} DistAtLeastLengthGap(a: string, b: string)
    ensures Dist(a, b) >= |a| - |b| && Dist(a, b) >= |b| - |a|
    decreases |a| + |b|
  {
    if |a| > 0 && |b| > 0 {
      DistAtLeastLengthGap(Init(a), b);
      DistAtLeastLengthGap(a, Init(b));
      DistAtLeastLengthGap(Init(a), Init(b));
    }
  }

  /** The distance is zero exactly for equal strings. */
  lemma {:induction false} DistZeroIff(a: string, b: string)
    ensures Dist(a, b) == 0 <==> a == b
    decreases |a| + |b|
  {
    if |a| > 0 && |b| > 0 {
      DistZeroIff(Init(a), Init(b));
      assert a == Init(a) + [Last(a)];
      assert b == Init(b) + [Last(b)];
    }
  }

  /** The distance does not depend on the order of its arguments. */
  lemma {:induction false} DistSymmetric(a: string, b: string)
    ensures Dist(a, b) == Dist(b, a)
    decreases |a| + |b|
  {
    if |a| > 0 && |b| > 0 {
      DistSymmetric(Init(a), b);
      DistSymmetric(a, Init(b));
      DistSymmetric(Init(a), Init(b));
    }
  }

  // ---------------------------------------------------------------------
  // The script's table-filling algorithm
  // ---------------------------------------------------------------------

  /**
   * What cell `memo[i][j]` of the script's table holds: the same recurrence
   * as `Dist`, stated on the prefix lengths.
   */
  function TableEntry(a: string, b: string, i: nat, j: nat): nat
    requires i <= |a| && j <= |b|
    decreases i + j
  {
    if i == 0 then j
    else if j == 0 then i
    else if a[i - 1] == b[j - 1] then TableEntry(a, b, i - 1, j - 1)
    else 1 + Min3(TableEntry(a, b, i - 1, j), TableEntry(a, b, i, j - 1), TableEntry(a, b, i - 1, j - 1))
  }

  /** Each table cell is the distance of the two prefixes. */
  lemma {:induction false} TableEntryIsDist(a: string, b: string, i: nat, j: nat)
    requires i <= |a| && j <= |b|
    ensures TableEntry(a, b, i, j) == Dist(a[..i], b[..j])
    decreases i + j
  {
    if i > 0 && j > 0 {
      assert Init(a[..i]) == a[..i - 1] && Last(a[..i]) == a[i - 1];
      assert Init(b[..j]) == b[..j - 1] && Last(b[..j]) == b[j - 1];
      TableEntryIsDist(a, b, i - 1, j - 1);
      TableEntryIsDist(a, b, i - 1, j);
      TableEntryIsDist(a, b, i, j - 1);
    }
  }

  /**
   * The inner `for` loop of the script: fills row `i` of the table from the
   * rows above it; the first column of the rows below keeps its initial values.
   */
  method FillRow(a: string, b: string, memo: array2<nat>, i: nat)
    requires memo.Length0 == |a| + 1 && memo.Length1 == |b| + 1 && 0 < i <= |a|
    requires forall p, q {:trigger memo[p, q]} :: 0 <= p < i && 0 <= q <= |b| ==> memo[p, q] == TableEntry(a, b, p, q)
    requires forall p :: i <= p <= |a| ==> memo[p, 0] == p
    modifies memo
    ensures forall p, q {:trigger memo[p, q]} :: 0 <= p <= i && 0 <= q <= |b| ==> memo[p, q] == TableEntry(a, b, p, q)
    ensures forall p :: i < p <= |a| ==> memo[p, 0] == p
  {
    for j := 1 to |b| + 1
      invariant forall p, q {:trigger memo[p, q]} :: 0 <= p < i && 0 <= q <= |b| ==> memo[p, q] == TableEntry(a, b, p, q)
      invariant forall q {:trigger memo[i, q]} :: 0 <= q < j ==> memo[i, q] == TableEntry(a, b, i, q)
      invariant forall p :: i < p <= |a| ==> memo[p, 0] == p
    {
      if a[i - 1] == b[j - 1] {
        memo[i, j] := memo[i - 1, j - 1];
      } else {
        memo[i, j] := Min3(memo[i - 1, j] + 1, memo[i, j - 1] + 1, memo[i - 1, j - 1] + 1);
      }
    }
  }

  /**
   * `levenshteinDistance`: the empty cases return the other length; otherwise
   * the table is filled row by row and its last cell is returned.
   */
  method LevenshteinDistance(a: string, b: string) returns (d: nat)
    ensures d == Dist(a, b)
    ensures |a| == 0 ==> d == |b|
    ensures |b| == 0 ==> d == |a|
  {
    if |a| == 0 {
      return |b|;
    }
    if |b| == 0 {
      return |a|;
    }
    var memo := new nat[|a| + 1, |b| + 1];
    for i := 0 to |a| + 1
      invariant forall p :: 0 <= p < i ==> memo[p, 0] == p
    {
      memo[i, 0] := i;
    }
    for j := 0 to |b| + 1
      invariant forall p :: 0 <= p <= |a| ==> memo[p, 0] == p
      invariant forall q :: 0 <= q < j ==> memo[0, q] == q
    {
      memo[0, j] := j;
    }
    for i := 1 to |a| + 1
      invariant forall p, q {:trigger memo[p, q]} :: 0 <= p < i && 0 <= q <= |b| ==> memo[p, q] == TableEntry(a, b, p, q)
      invariant forall p :: i <= p <= |a| ==> memo[p, 0] == p
    {
      FillRow(a, b, memo, i);
    }
    d := memo[|a|, |b|];
    TableEntryIsDist(a, b, |a|, |b|);
    assert a[..|a|] == a && b[..|b|] == b;
  }
}
