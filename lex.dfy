/** Lexicographic order on vertex sequences, sortedness, and the sort that the
    unranking step applies to its pool of candidates. */
module Lex {

  /** Element-wise comparison: a precedes b when, at the first position where
      they differ, a holds the smaller element. */
  ghost predicate LexLess(a: seq<nat>, b: seq<nat>)
  {
    |a| == |b| && exists k :: 0 <= k < |a| && a[..k] == b[..k] && a[k] < b[k]
  }

  /** Strictly increasing. */
  ghost predicate Ascending(s: seq<nat>)
  {
    forall i, j :: 0 <= i < j < |s| ==> s[i] < s[j]
  }

  /** Strictly decreasing; every sequence of length at most one is. */
  ghost predicate Descending(s: seq<nat>)
  {
    forall i, j :: 0 <= i < j < |s| ==> s[i] > s[j]
  }

  ghost predicate NonDecreasing(s: seq<nat>)
  {
    forall i, j :: 0 <= i < j < |s| ==> s[i] <= s[j]
  }

  ghost predicate Distinct(s: seq<nat>)
  {
    forall i, j :: 0 <= i < j < |s| ==> s[i] != s[j]
  }

  /** q is a rearrangement of p. */
  ghost predicate IsPermutation(q: seq<nat>, p: seq<nat>)
  {
    multiset(q) == multiset(p)
  }

  /** s read back to front. */
  function Reverse(s: seq<nat>): (r: seq<nat>)
    ensures |r| == |s|
  {
    seq(|s|, k requires 0 <= k < |s| => s[|s| - 1 - k])
  }

  /** Inserts x before the first element not below it. */
  function Insert(x: nat, s: seq<nat>): (r: seq<nat>)
    ensures |r| == |s| + 1
  {
    if s == [] || x <= s[0] then [x] + s else [s[0]] + Insert(x, s[1..])
  }

  lemma {:induction false} InsertPermutation(x: nat, s: seq<nat>)
    ensures multiset(Insert(x, s)) == multiset(s) + multiset{x}
  {
    if s != [] && x > s[0] {
      InsertPermutation(x, s[1..]);
      assert s == [s[0]] + s[1..];
    }
  }

  /** A lower bound of x and of s bounds Insert(x, s). */
  lemma {:induction false} InsertLower(x: nat, s: seq<nat>, y: nat)
    requires y <= x && forall i :: 0 <= i < |s| ==> y <= s[i]
    ensures forall i :: 0 <= i < |Insert(x, s)| ==> y <= Insert(x, s)[i]
  {
    if s != [] && x > s[0] {
      InsertLower(x, s[1..], y);
    }
  }

  lemma {:induction false} InsertSorted(x: nat, s: seq<nat>)
    requires NonDecreasing(s)
    ensures NonDecreasing(Insert(x, s))
  {
    if s != [] && x > s[0] {
      InsertSorted(x, s[1..]);
      InsertLower(x, s[1..], s[0]);
    }
  }

  /** The sort applied to the candidate pool (`indices.sort()`): a
      rearrangement of s (SortAscPermutation) in non-decreasing order
      (SortAscOrdered). */
  function SortAsc(s: seq<nat>): (r: seq<nat>)
    ensures |r| == |s|
  {
    if s == [] then [] else Insert(s[0], SortAsc(s[1..]))
  }

  lemma {:induction false} SortAscPermutation(s: seq<nat>)
    ensures IsPermutation(SortAsc(s), s)
  {
    if s != [] {
      SortAscPermutation(s[1..]);
      InsertPermutation(s[0], SortAsc(s[1..]));
      assert s == [s[0]] + s[1..];
    }
  }

  lemma {:induction false} SortAscOrdered(s: seq<nat>)
    ensures NonDecreasing(SortAsc(s))
  {
    if s != [] {
      SortAscOrdered(s[1..]);
      InsertSorted(s[0], SortAsc(s[1..]));
    }
  }

  // ---------------------------------------------------------------------
  // Order facts

  lemma LexLessAt(a: seq<nat>, b: seq<nat>, k: nat)
    requires |a| == |b| && k < |a| && a[..k] == b[..k] && a[k] < b[k]
    ensures LexLess(a, b)
  {
  }

  lemma LexIrreflexive(a: seq<nat>)
    ensures !LexLess(a, a)
  {
  }

  lemma LexTransitive(a: seq<nat>, b: seq<nat>, c: seq<nat>)
    requires LexLess(a, b) && LexLess(b, c)
    ensures LexLess(a, c)
  {
    var k1 :| 0 <= k1 < |a| && a[..k1] == b[..k1] && a[k1] < b[k1];
    var k2 :| 0 <= k2 < |b| && b[..k2] == c[..k2] && b[k2] < c[k2];
    var k := if k1 < k2 then k1 else k2;
    assert a[..k] == a[..k1][..k] && b[..k] == b[..k1][..k];
    assert b[..k] == b[..k2][..k] && c[..k] == c[..k2][..k];
    if k1 < k2 {
      assert b[k1] == c[k1] by { assert b[..k2][k1] == c[..k2][k1]; }
    } else if k2 < k1 {
      assert a[k2] == b[k2] by { assert a[..k1][k2] == b[..k1][k2]; }
    }
    LexLessAt(a, c, k);
  }

  lemma LexAsymmetric(a: seq<nat>, b: seq<nat>)
    requires LexLess(a, b)
    ensures !LexLess(b, a)
  {
    if LexLess(b, a) {
      LexTransitive(a, b, a);
      LexIrreflexive(a);
    }
  }

  /** The first position where two sequences of equal length differ. */
  lemma {:induction false} FirstDifference(a: seq<nat>, b: seq<nat>) returns (k: nat)
    requires |a| == |b| && a != b
    ensures k < |a| && a[..k] == b[..k] && a[k] != b[k]
  {
    if a[0] != b[0] {
      k := 0;
    } else {
      var k' := FirstDifference(a[1..], b[1..]);
      k := k' + 1;
      assert a[..k] == [a[0]] + a[1..][..k'];
      assert b[..k] == [b[0]] + b[1..][..k'];
    }
  }

  /** Lexicographic order is total on sequences of equal length. */
  lemma LexTotal(a: seq<nat>, b: seq<nat>)
    requires |a| == |b|
    ensures a == b || LexLess(a, b) || LexLess(b, a)
  {
    if a != b {
      var k := FirstDifference(a, b);
      if a[k] < b[k] {
        LexLessAt(a, b, k);
      } else {
        LexLessAt(b, a, k);
      }
    }
  }

  /** A common prefix does not change the order. */
  lemma LexLessPrefix(p: seq<nat>, a: seq<nat>, b: seq<nat>)
    requires LexLess(a, b)
    ensures LexLess(p + a, p + b)
  {
    var k :| 0 <= k < |a| && a[..k] == b[..k] && a[k] < b[k];
    assert (p + a)[..|p| + k] == p + a[..k];
    assert (p + b)[..|p| + k] == p + b[..k];
    LexLessAt(p + a, p + b, |p| + k);
  }

  /** A sequence is ordered after another with the same head exactly when
      its tail is. */
  lemma LexLessCons(x: nat, a: seq<nat>, b: seq<nat>)
    requires LexLess([x] + a, [x] + b)
    ensures LexLess(a, b)
  {
    var k :| 0 <= k < |a| + 1 && ([x] + a)[..k] == ([x] + b)[..k] && ([x] + a)[k] < ([x] + b)[k];
    assert k >= 1;
    assert a[..k - 1] == ([x] + a)[..k][1..];
    assert b[..k - 1] == ([x] + b)[..k][1..];
    LexLessAt(a, b, k - 1);
  }

  /** A common prefix can be dropped without changing the order. */
  lemma LexLessSuffix(a: seq<nat>, b: seq<nat>, n: nat)
    requires LexLess(a, b) && n <= |a| && a[..n] == b[..n]
    ensures LexLess(a[n..], b[n..])
  {
    var k :| 0 <= k < |a| && a[..k] == b[..k] && a[k] < b[k];
    assert forall i :: 0 <= i < n ==> a[..n][i] == b[..n][i];
    assert k >= n;
    assert a[n..][..k - n] == b[n..][..k - n] by {
      assert a[n..][..k - n] == a[..k][n..];
      assert b[n..][..k - n] == b[..k][n..];
    }
    LexLessAt(a[n..], b[n..], k - n);
  }

  /** The order decided at the head, or by the tails when the heads agree. */
  lemma LexLessHead(a: seq<nat>, b: seq<nat>)
    requires LexLess(a, b)
    ensures a[0] < b[0] || (a[0] == b[0] && LexLess(a[1..], b[1..]))
  {
    var k :| 0 <= k < |a| && a[..k] == b[..k] && a[k] < b[k];
    if k > 0 {
      assert a[0] == a[..k][0] && b[0] == b[..k][0];
      assert a == [a[0]] + a[1..] && b == [a[0]] + b[1..];
      LexLessCons(a[0], a[1..], b[1..]);
    }
  }

  // ---------------------------------------------------------------------
  // Permutations, sortedness and the extreme arrangements

  lemma AscendingDistinct(s: seq<nat>)
    requires Ascending(s)
    ensures Distinct(s) && NonDecreasing(s)
  {
  }

  lemma PermutationLength(q: seq<nat>, p: seq<nat>)
    requires IsPermutation(q, p)
    ensures |q| == |p|
  {
    assert |multiset(q)| == |q| && |multiset(p)| == |p|;
  }

  lemma PermutationMembers(q: seq<nat>, p: seq<nat>, x: nat)
    requires IsPermutation(q, p)
    ensures x in q <==> x in p
  {
    assert x in q <==> x in multiset(q);
    assert x in p <==> x in multiset(p);
  }

  /** Two rearrangements of one multiset that agree on a prefix agree, as
      multisets, on what follows it. */
  lemma SuffixPermutation(a: seq<nat>, b: seq<nat>, k: nat)
    requires IsPermutation(a, b) && k <= |a| && k <= |b| && a[..k] == b[..k]
    ensures IsPermutation(a[k..], b[k..])
  {
    assert a == a[..k] + a[k..];
    assert b == b[..k] + b[k..];
    assert multiset(a) == multiset(a[..k]) + multiset(a[k..]);
    assert multiset(b) == multiset(b[..k]) + multiset(b[k..]);
    assert multiset(a[k..]) == multiset(a) - multiset(a[..k]);
    assert multiset(b[k..]) == multiset(b) - multiset(b[..k]);
  }

  /** A head above a decreasing tail's first element makes the whole
      sequence decreasing. */
  lemma DescendingFromHead(s: seq<nat>)
    requires |s| >= 2 && s[0] > s[1] && Descending(s[1..])
    ensures Descending(s)
  {
    forall a, b | 0 <= a < b < |s| ensures s[a] > s[b] {
      if a > 0 {
        assert s[a] == s[1..][a - 1] && s[b] == s[1..][b - 1];
      } else if b > 1 {
        assert s[1..][0] > s[1..][b - 1];
      }
    }
  }

  /** The increasing arrangement of a multiset is its least arrangement. */
  lemma AscendingIsLeast(t: seq<nat>, u: seq<nat>)
    requires Ascending(t) && IsPermutation(u, t) && u != t
    ensures LexLess(t, u)
  {
    PermutationLength(u, t);
    var k := FirstDifference(t, u);
    SuffixPermutation(u, t, k);
    assert u[k] in u[k..];
    PermutationMembers(u[k..], t[k..], u[k]);
    assert u[k] in t[k..];
    assert t[k] < u[k];
    LexLessAt(t, u, k);
  }

  /** No arrangement of a multiset is ordered after its decreasing one. */
  lemma DescendingIsGreatest(t: seq<nat>, u: seq<nat>)
    requires Descending(t) && IsPermutation(u, t)
    ensures !LexLess(t, u)
  {
    if LexLess(t, u) {
      var k :| 0 <= k < |t| && t[..k] == u[..k] && t[k] < u[k];
      PermutationLength(u, t);
      SuffixPermutation(u, t, k);
      assert u[k] in u[k..];
      PermutationMembers(u[k..], t[k..], u[k]);
    }
  }

  lemma ReverseDescending(s: seq<nat>)
    requires Descending(s)
    ensures Ascending(Reverse(s))
  {
  }

  lemma ReverseAscending(s: seq<nat>)
    requires Ascending(s)
    ensures Descending(Reverse(s))
  {
  }

  /** Reversal read from the back: the last element first. */
  lemma ReverseLast(s: seq<nat>)
    requires s != []
    ensures Reverse(s) == [s[|s| - 1]] + Reverse(s[..|s| - 1])
  {
  }

  lemma {:induction false} ReversePermutation(s: seq<nat>)
    ensures IsPermutation(Reverse(s), s)
  {
    if s != [] {
      ReversePermutation(s[..|s| - 1]);
      ReverseLast(s);
      assert s == s[..|s| - 1] + [s[|s| - 1]];
    }
  }

  /** Sorting a sequence that is already in order leaves it unchanged. */
  lemma {:induction false} SortAscSorted(s: seq<nat>)
    requires NonDecreasing(s)
    ensures SortAsc(s) == s
  {
    if s != [] {
      SortAscSorted(s[1..]);
      assert s == [s[0]] + s[1..];
    }
  }
}
