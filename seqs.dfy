/**
 * Facts about sequences shared by the registry (insertion-ordered keys)
 * and the node catalogue (first-appearance order of categories).
 */
module Seqs {

  /** No element occurs twice. */
  predicate Distinct<T(==)>(s: seq<T>) {
    forall i, j :: 0 <= i < j < |s| ==> s[i] != s[j]
  }

  /** Index of the first occurrence of `x` in `s`. */
  function FirstIndex<T(==)>(s: seq<T>, x: T): (k: nat)
    requires x in s
    ensures k < |s| && s[k] == x
    ensures forall j :: 0 <= j < k ==> s[j] != x
  {
    if s[0] == x then 0 else 1 + FirstIndex(s[1..], x)
  }

  /**
   * The distinct elements of `s`, each kept at its first appearance:
   * the order in which an insertion-ordered map or record keeps keys
   * that are inserted (and possibly re-inserted) in the order of `s`.
   */
  function Dedup<T(==)>(s: seq<T>): seq<T>
  {
    if s == [] then []
    else
      var d := Dedup(s[..|s| - 1]);
      if s[|s| - 1] in d then d else d + [s[|s| - 1]]
  }

  lemma {:induction false} DedupElements<T>(s: seq<T>)
    ensures forall x :: x in Dedup(s) <==> x in s
  {
    if s != [] {
      var p := s[..|s| - 1];
      DedupElements(p);
      assert s == p + [s[|s| - 1]];
    }
  }

  lemma {:induction false} DedupDistinct<T>(s: seq<T>)
    ensures Distinct(Dedup(s))
  {
    if s != [] {
      DedupDistinct(s[..|s| - 1]);
    }
  }

  /** An element of a prefix first occurs where it first occurs in the prefix. */
  lemma FirstIndexOfPrefix<T>(s: seq<T>, x: T, n: nat)
    requires n <= |s| && x in s[..n]
    ensures x in s && FirstIndex(s, x) == FirstIndex(s[..n], x)
  {
    var k := FirstIndex(s[..n], x);
    assert s[k] == x;
    forall j | 0 <= j < k ensures s[j] != x { assert s[j] == s[..n][j]; }
  }

  /**
   * Dedup keeps first-appearance order: earlier elements of the result
   * first occur earlier in the input.
   */
  lemma {:induction false} DedupFirstAppearanceOrder<T>(s: seq<T>)
    ensures forall x :: x in Dedup(s) ==> x in s
    ensures forall i, j :: 0 <= i < j < |Dedup(s)| ==>
              FirstIndex(s, Dedup(s)[i]) < FirstIndex(s, Dedup(s)[j])
  {
    DedupElements(s);
    if s != [] {
      var n := |s| - 1;
      var p := s[..n];
      var d := Dedup(p);
      var e := Dedup(s);
      DedupFirstAppearanceOrder(p);
      DedupElements(p);
      forall i | 0 <= i < |d| ensures d[i] in s && FirstIndex(s, d[i]) == FirstIndex(p, d[i]) < n {
        FirstIndexOfPrefix(s, d[i], n);
      }
      if s[n] in d {
        assert e == d;
      } else {
        assert e == d + [s[n]];
        assert s[n] !in p;
        assert FirstIndex(s, s[n]) == n by {
          forall j | 0 <= j < n ensures s[j] != s[n] { assert s[j] == p[j]; }
        }
        forall i, j | 0 <= i < j < |e| ensures FirstIndex(s, e[i]) < FirstIndex(s, e[j]) {
          if j < |d| {
            assert e[i] == d[i] && e[j] == d[j];
          } else {
            assert e[i] == d[i] && e[j] == s[n];
          }
        }
      }
    }
  }
}
