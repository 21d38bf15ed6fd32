/**
 * Specification of the suggestion machinery of the node validator:
 * the Levenshtein edit distance, the case-insensitive similarity score
 * built on it, and the best-match search over registry keys.
 */
module Suggestion {
  import opened Wrappers
  import opened Text

  /** Minimum of three, as `Math.min` with three arguments. */
  function Min3(x: nat, y: nat, z: nat): nat {
    if x <= y && x <= z then x else if y <= z then y else z
  }

  function Max(x: nat, y: nat): nat {
    if x >= y then x else y
  }

  /**
   * The recursive Levenshtein distance: the fewest single-character
   * deletions, insertions and substitutions turning `a` into `b`,
   * defined on the last characters of both strings.
   */
  function Lev(a: string, b: string): nat
    decreases |a| + |b|
  {
    if |a| == 0 then |b|
    else if |b| == 0 then |a|
    else
      Min3(Lev(a[..|a| - 1], b) + 1,
           Lev(a, b[..|b| - 1]) + 1,
           Lev(a[..|a| - 1], b[..|b| - 1]) + (if a[|a| - 1] == b[|b| - 1] then 0 else 1))
  }

  /**
   * Each cell of the DP table, read as prefixes of the inputs, obeys the
   * recurrence: given its three neighbours' distances plus their edit costs,
   * the smallest is the cell's own distance.
   */
  lemma LevStep(a: string, b: string, i: nat, j: nat, deletion: nat, insertion: nat, substitution: nat)
    requires 1 <= i <= |a| && 1 <= j <= |b|
    requires deletion == Lev(a[..i - 1], b[..j]) + 1 && insertion == Lev(a[..i], b[..j - 1]) + 1
    requires substitution == Lev(a[..i - 1], b[..j - 1]) + (if a[i - 1] == b[j - 1] then 0 else 1)
    ensures Min3(deletion, insertion, substitution) == Lev(a[..i], b[..j])
  {
    assert a[..i][..i - 1] == a[..i - 1];
    assert b[..j][..j - 1] == b[..j - 1];
  }

  /** Distance to or from the empty string is the other string's length. */
  lemma LevEmpty(s: string)
    ensures Lev(s, "") == |s| && Lev("", s) == |s|
  {
  }

  lemma {:induction false} LevSelf(s: string)
    ensures Lev(s, s) == 0
  {
    if s != [] {
      LevSelf(s[..|s| - 1]);
    }
  }

  /** The distance is never more than the longer length. */
  lemma {:induction false} LevUpperBound(a: string, b: string)
    ensures Lev(a, b) <= Max(|a|, |b|)
    decreases |a| + |b|
  {
    if |a| > 0 && |b| > 0 {
      LevUpperBound(a[..|a| - 1], b[..|b| - 1]);
    }
  }

  /** The distance is at least the difference of the lengths. */
  lemma {:induction false} LevLowerBound(a: string, b: string)
    ensures Lev(a, b) >= |a| - |b| && Lev(a, b) >= |b| - |a|
    decreases |a| + |b|
  {
    if |a| > 0 && |b| > 0 {
      LevLowerBound(a[..|a| - 1], b);
      LevLowerBound(a, b[..|b| - 1]);
      LevLowerBound(a[..|a| - 1], b[..|b| - 1]);
    }
  }

  /** Distance zero exactly for equal strings. */
  lemma {:induction false} LevZeroIffEqual(a: string, b: string)
    ensures Lev(a, b) == 0 <==> a == b
    decreases |a| + |b|
  {
    if |a| > 0 && |b| > 0 {
      var a', b' := a[..|a| - 1], b[..|b| - 1];
      LevZeroIffEqual(a', b');
      assert a == a' + [a[|a| - 1]] && b == b' + [b[|b| - 1]];
    }
  }

  lemma {:induction false} LevSymmetric(a: string, b: string)
    ensures Lev(a, b) == Lev(b, a)
    decreases |a| + |b|
  {
    if |a| > 0 && |b| > 0 {
      LevSymmetric(a[..|a| - 1], b);
      LevSymmetric(a, b[..|b| - 1]);
      LevSymmetric(a[..|a| - 1], b[..|b| - 1]);
    }
  }

  /** Dropping one character from the end costs exactly one edit. */
  lemma LevDropLast(s: string)
    requires s != []
    ensures Lev(s, s[..|s| - 1]) == 1
  {
    var p := s[..|s| - 1];
    LevLowerBound(s, p);
    if p == [] {
    } else {
      LevSelf(p);
      assert Lev(s, p) <= Lev(p, p) + 1;
    }
  }

  /** A JavaScript number as far as the score needs one: NaN or a real value. */
  datatype Number = NaN | Num(value: real)

  /** `x > y` on a JavaScript number: never true of NaN. */
  predicate Above(x: Number, y: real) {
    x.Num? && x.value > y
  }

  /** `x >= y` on a JavaScript number: never true of NaN. */
  predicate AtLeast(x: Number, y: real) {
    x.Num? && x.value >= y
  }

  /** The suggestion threshold of the validator. */
  const Threshold: real := 0.6

  /** `1 - distance / max_length`, NaN when `max_length` is zero. */
  function Score(distance: nat, maxLength: nat): Number {
    if maxLength == 0 then NaN else Num(1.0 - (distance as real) / (maxLength as real))
  }

  lemma ScoreBounds(distance: nat, maxLength: nat)
    requires 0 < maxLength && distance <= maxLength
    ensures Score(distance, maxLength).Num?
    ensures 0.0 <= Score(distance, maxLength).value <= 1.0
    ensures Score(distance, maxLength).value == 1.0 <==> distance == 0
  {
    var q := (distance as real) / (maxLength as real);
    assert q * (maxLength as real) == distance as real;
  }

  /**
   * `calculate_similarity`: one minus the edit distance of the lower-cased
   * strings divided by the longer length. Two empty strings divide zero by
   * zero, which JavaScript evaluates to NaN.
   */
  function Similarity(a: string, b: string): Number {
    var s1 := Lower(a);
    var s2 := Lower(b);
    Score(Lev(s1, s2), Max(|s1|, |s2|))
  }

  /** The score is NaN only for two empty strings, and lies in [0, 1] otherwise. */
  lemma SimilarityInUnitInterval(a: string, b: string)
    ensures Similarity(a, b).NaN? <==> a == "" && b == ""
    ensures Similarity(a, b).Num? ==> 0.0 <= Similarity(a, b).value <= 1.0
  {
    var s1, s2 := Lower(a), Lower(b);
    LevUpperBound(s1, s2);
    if a != "" || b != "" {
      ScoreBounds(Lev(s1, s2), Max(|s1|, |s2|));
    }
  }

  /** A perfect score is exactly equality ignoring (ASCII) case. */
  lemma SimilarityOneIffEqualIgnoringCase(a: string, b: string)
    requires a != "" || b != ""
    ensures Similarity(a, b) == Num(1.0) <==> Lower(a) == Lower(b)
  {
    var s1, s2 := Lower(a), Lower(b);
    LevZeroIffEqual(s1, s2);
    LevUpperBound(s1, s2);
    ScoreBounds(Lev(s1, s2), Max(|s1|, |s2|));
  }

  /** The score does not change when either argument is lower-cased first. */
  lemma SimilarityCaseInsensitive(a: string, b: string)
    ensures Similarity(a, b) == Similarity(Lower(a), Lower(b))
  {
    LowerIdempotent(a);
    LowerIdempotent(b);
  }

  /** `"HttpRequest"` and `"httprequest"` score 1. */
  lemma SimilarityExampleCase()
    ensures Similarity("HttpRequest", "httprequest") == Num(1.0)
  {
    assert Lower("HttpRequest") == "httprequest";
    assert Lower("httprequest") == "httprequest";
    SimilarityOneIffEqualIgnoringCase("HttpRequest", "httprequest");
  }

  /** One deletion: `"Merge"` against `"Merg"` scores 0.8, above the threshold. */
  lemma SimilarityExampleTypo()
    ensures Similarity("Merge", "Merg") == Num(0.8)
    ensures Above(Similarity("Merge", "Merg"), Threshold)
  {
    var s1, s2 := Lower("Merge"), Lower("Merg");
    assert s1 == "merge" && s2 == "merg";
    assert s1[..4] == s2;
    LevDropLast(s1);
    ScoreOfOneInFive();
  }

  lemma ScoreOfOneInFive()
    ensures Score(1, 5) == Num(0.8)
  {
  }

  /** An unrelated name stays below the threshold. */
  lemma SimilarityExampleUnrelated()
    ensures !Above(Similarity("Foo", "CompletelyUnrelatedName"), Threshold)
  {
    var s1, s2 := Lower("Foo"), Lower("CompletelyUnrelatedName");
    assert |s1| == 3 && |s2| == 23;
    LevLowerBound(s1, s2);
    var q := (Lev(s1, s2) as real) / 23.0;
    assert q * 23.0 == Lev(s1, s2) as real;
  }

  /**
   * The loop of `find_similar_node_type` as a left fold: the index of the
   * current best key (if any) and the best score so far (starting at 0).
   * A key replaces the best one when its score beats both the best score
   * and the threshold.
   */
  function Scan(q: string, keys: seq<string>): (Option<nat>, real)
  {
    if keys == [] then (None, 0.0)
    else
      var (best, bestScore) := Scan(q, keys[..|keys| - 1]);
      var score := Similarity(q, keys[|keys| - 1]);
      if Above(score, bestScore) && Above(score, Threshold)
      then (Some(|keys| - 1), score.value)
      else (best, bestScore)
  }

  /** Index in `keys` of the suggestion for `q`, if any. */
  function BestIndex(q: string, keys: seq<string>): Option<nat> {
    Scan(q, keys).0
  }

  /** The key `find_similar_node_type` returns (`null` as None). */
  function FindSimilar(q: string, keys: seq<string>): (r: Option<string>)
  {
    match BestIndex(q, keys)
    case None => None
    case Some(i) => if i < |keys| then Some(keys[i]) else None
  }

  /**
   * Reference definition of the suggestion rule: key `i` scores above the
   * threshold, strictly above every earlier key, and no key scores above it.
   */
  predicate IsFirstBest(q: string, keys: seq<string>, i: nat) {
    && i < |keys|
    && Above(Similarity(q, keys[i]), Threshold)
    && (forall j :: 0 <= j < i ==> !AtLeast(Similarity(q, keys[j]), Similarity(q, keys[i]).value))
    && (forall j :: 0 <= j < |keys| ==> !Above(Similarity(q, keys[j]), Similarity(q, keys[i]).value))
  }

  predicate NoneAbove(q: string, keys: seq<string>) {
    forall j :: 0 <= j < |keys| ==> !Above(Similarity(q, keys[j]), Threshold)
  }

  lemma {:induction false} ScanInvariant(q: string, keys: seq<string>)
    ensures Scan(q, keys).0.None? ==> Scan(q, keys).1 == 0.0 && NoneAbove(q, keys)
    ensures Scan(q, keys).0.Some? ==>
              IsFirstBest(q, keys, Scan(q, keys).0.value)
              && Scan(q, keys).1 == Similarity(q, keys[Scan(q, keys).0.value]).value
  {
    if keys != [] {
      var n := |keys| - 1;
      var p := keys[..n];
      ScanInvariant(q, p);
      forall j | 0 <= j < n ensures keys[j] == p[j] { }
    }
  }

  /**
   * The suggestion rule of `find_similar_node_type`: there is none exactly
   * when no key scores above the threshold; otherwise it is the first key
   * (in key order) with the highest score.
   */
  lemma BestIndexIsFirstBest(q: string, keys: seq<string>)
    ensures BestIndex(q, keys).None? <==> NoneAbove(q, keys)
    ensures BestIndex(q, keys).Some? ==> IsFirstBest(q, keys, BestIndex(q, keys).value)
  {
    ScanInvariant(q, keys);
    if BestIndex(q, keys).Some? {
      var i := BestIndex(q, keys).value;
      assert Above(Similarity(q, keys[i]), Threshold);
    }
  }

  /** The reference rule picks at most one key. */
  lemma FirstBestUnique(q: string, keys: seq<string>, i: nat, k: nat)
    requires IsFirstBest(q, keys, i) && IsFirstBest(q, keys, k)
    ensures i == k
  {
  }

  /** Any suggestion is one of the keys and scores above the threshold. */
  lemma FindSimilarIsAKey(q: string, keys: seq<string>)
    ensures FindSimilar(q, keys).Some? ==>
              FindSimilar(q, keys).value in keys
              && Above(Similarity(q, FindSimilar(q, keys).value), Threshold)
    ensures FindSimilar(q, keys).None? <==> NoneAbove(q, keys)
  {
    BestIndexIsFirstBest(q, keys);
  }
}
