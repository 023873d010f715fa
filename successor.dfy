/** proxima_ordem_lexicografica: rearranges a tour into the next one in
    lexicographic order, in place, and reports whether there was one.

    The two scans of the routine are specified by the recursive functions
    ScanPivot and ScanSwap, the whole step by Advances and Successor; the
    lemmas below show that Successor is the lexicographically next
    arrangement (for tours without repeated vertices) and that it agrees with
    the unranking of the next rank. */
module Successor {
  import opened Factorial
  import opened Lex
  import opened Unranking

  /** The first scan: starting at i, move left past every position whose
      element is above its right neighbour; position 0 stops the scan. */
  function ScanPivot(s: seq<nat>, i: nat): (p: nat)
    requires i + 1 < |s|
    ensures p <= i
    decreases i
  {
    if i > 0 && s[i] > s[i + 1] then ScanPivot(s, i - 1) else i
  }

  /** The second scan: starting at j, move left past every element below
      s[i]; it cannot pass i itself. */
  function ScanSwap(s: seq<nat>, i: nat, j: nat): (q: nat)
    requires i <= j < |s|
    ensures i <= q <= j
    decreases j
  {
    if j > 0 && s[j] < s[i] then ScanSwap(s, i, j - 1) else j
  }

  /** Where the first scan stops when started at len - 2. */
  function Pivot(s: seq<nat>): (p: nat)
    requires |s| >= 2
    ensures p + 1 < |s|
  {
    ScanPivot(s, |s| - 2)
  }

  /** Where the second scan stops when started at len - 1. */
  function SwapIndex(s: seq<nat>): (q: nat)
    requires |s| >= 2
    ensures Pivot(s) <= q < |s|
  {
    ScanSwap(s, Pivot(s), |s| - 1)
  }

  /** The routine returns true, and changes the tour, exactly when the two
      scans stop at different positions. */
  predicate Advances(s: seq<nat>)
  {
    |s| >= 2 && Pivot(s) != SwapIndex(s)
  }

  /** s with the elements at i and j exchanged (`Vec::swap`). */
  function Swapped(s: seq<nat>, i: nat, j: nat): (w: seq<nat>)
    requires i < |s| && j < |s|
    ensures |w| == |s|
  {
    s[i := s[j]][j := s[i]]
  }

  /** The tour after an advancing step: pivot and swap position exchanged,
      then everything after the pivot reversed. */
  function Successor(s: seq<nat>): (t: seq<nat>)
    requires Advances(s)
    ensures |t| == |s|
  {
    var w := Swapped(s, Pivot(s), SwapIndex(s));
    w[..Pivot(s) + 1] + Reverse(w[Pivot(s) + 1..])
  }

  // ---------------------------------------------------------------------
  // What the scans find

  /** The first scan leaves a strictly decreasing run after its stop. */
  lemma {:induction false} ScanPivotRun(s: seq<nat>, i: nat)
    requires i + 1 < |s| && Descending(s[i + 1..])
    ensures Descending(s[ScanPivot(s, i) + 1..])
    ensures ScanPivot(s, i) == 0 || s[ScanPivot(s, i)] <= s[ScanPivot(s, i) + 1]
    decreases i
  {
    if i > 0 && s[i] > s[i + 1] {
      assert s[i..][1..] == s[i + 1..];
      DescendingFromHead(s[i..]);
      ScanPivotRun(s, i - 1);
    }
  }

  /** Every element the second scan passed is below s[i]; where it stops the
      element is not below s[i], unless it ran down to position 0. */
  lemma {:induction false} ScanSwapPassed(s: seq<nat>, i: nat, j: nat)
    requires i <= j < |s|
    ensures forall r :: ScanSwap(s, i, j) < r <= j ==> s[r] < s[i]
    ensures ScanSwap(s, i, j) == 0 || s[ScanSwap(s, i, j)] >= s[i]
    decreases j
  {
    if j > 0 && s[j] < s[i] {
      ScanSwapPassed(s, i, j - 1);
    }
  }

  /** The facts about both scans in one place: after the pivot the tour
      decreases, and past the swap position every element is below the
      pivot's. */
  lemma ScanFacts(s: seq<nat>)
    requires |s| >= 2
    ensures Descending(s[Pivot(s) + 1..])
    ensures Pivot(s) == 0 || s[Pivot(s)] <= s[Pivot(s) + 1]
    ensures forall r :: SwapIndex(s) < r < |s| ==> s[r] < s[Pivot(s)]
    ensures SwapIndex(s) == 0 || s[SwapIndex(s)] >= s[Pivot(s)]
  {
    ScanPivotRun(s, |s| - 2);
    ScanSwapPassed(s, Pivot(s), |s| - 1);
  }

  /** The routine reports progress exactly when the tour is not already the
      strictly decreasing (last) arrangement; this holds for every input,
      repeated elements included. */
  lemma AdvancesIffNotDescending(s: seq<nat>)
    ensures Advances(s) <==> !Descending(s)
  {
    if |s| >= 2 {
      var p, q := Pivot(s), SwapIndex(s);
      ScanFacts(s);
      if p == q {
        assert s[p + 1] < s[p];
        assert p == 0;
        DescendingFromHead(s);
      } else if Descending(s) {
        DescendingPivot(s);
      }
    }
  }

  /** On a strictly decreasing tour both scans run down to position 0. */
  lemma DescendingPivot(s: seq<nat>)
    requires |s| >= 2 && Descending(s)
    ensures Pivot(s) == 0 && SwapIndex(s) == 0
  {
    DescendingScanPivot(s, |s| - 2);
    DescendingScanSwap(s, |s| - 1);
  }

  lemma {:induction false} DescendingScanPivot(s: seq<nat>, i: nat)
    requires i + 1 < |s| && Descending(s)
    ensures ScanPivot(s, i) == 0
    decreases i
  {
    if i > 0 {
      DescendingScanPivot(s, i - 1);
    }
  }

  lemma {:induction false} DescendingScanSwap(s: seq<nat>, j: nat)
    requires j < |s| && Descending(s)
    ensures ScanSwap(s, 0, j) == 0
    decreases j
  {
    if j > 0 {
      DescendingScanSwap(s, j - 1);
    }
  }

  // ---------------------------------------------------------------------
  // The advancing step on a tour without repeated vertices

  /** With distinct elements, an advancing step has a genuine ascent at the
      pivot, a larger element at the swap position, and only smaller ones
      after it. */
  lemma StepFacts(s: seq<nat>)
    requires Distinct(s) && Advances(s)
    ensures Pivot(s) < SwapIndex(s)
    ensures s[Pivot(s)] < s[Pivot(s) + 1] && s[Pivot(s)] < s[SwapIndex(s)]
    ensures Descending(s[Pivot(s) + 1..])
    ensures forall r :: SwapIndex(s) < r < |s| ==> s[r] < s[Pivot(s)]
  {
    var p, q := Pivot(s), SwapIndex(s);
    ScanFacts(s);
    if p == 0 && s[0] > s[1] {
      DescendingFromHead(s);
      AdvancesIffNotDescending(s);
      assert false;
    }
  }

  /** The part after the pivot once the swap is done: still decreasing, since
      the pivot's element lands between the larger elements before the swap
      position and the smaller ones after it. */
  lemma SwappedRun(s: seq<nat>)
    requires Distinct(s) && Advances(s)
    ensures Descending(Swapped(s, Pivot(s), SwapIndex(s))[Pivot(s) + 1..])
  {
    var p, q := Pivot(s), SwapIndex(s);
    StepFacts(s);
    var w := Swapped(s, p, q);
    var run, tail := s[p + 1..], w[p + 1..];
    forall a, b | 0 <= a < b < |tail| ensures tail[a] > tail[b] {
      assert run[a] > run[b];
      if p + 1 + a == q {
        assert tail[a] == s[p] && tail[b] == run[b];
      } else if p + 1 + b == q {
        assert tail[a] == run[a] && tail[b] == s[p];
        assert run[a] > run[b] == s[q];
      } else {
        assert tail[a] == run[a] && tail[b] == run[b];
      }
    }
  }

  lemma SwappedPermutation(s: seq<nat>, i: nat, j: nat)
    requires i < |s| && j < |s|
    ensures IsPermutation(Swapped(s, i, j), s)
  {
    var w := s[i := s[j]];
    assert multiset(w) == multiset(s) - multiset{s[i]} + multiset{s[j]};
    assert multiset(w[j := s[i]]) == multiset(w) - multiset{w[j]} + multiset{s[i]};
  }

  /** Successor rearranges the tour. */
  lemma SuccessorPermutation(s: seq<nat>)
    requires Advances(s)
    ensures IsPermutation(Successor(s), s)
  {
    var p, q := Pivot(s), SwapIndex(s);
    var w := Swapped(s, p, q);
    SwappedPermutation(s, p, q);
    ReversePermutation(w[p + 1..]);
    assert w == w[..p + 1] + w[p + 1..];
    assert multiset(w) == multiset(w[..p + 1]) + multiset(w[p + 1..]);
  }

  /** Successor keeps what precedes the pivot, puts the swapped element at
      the pivot, and ends in increasing order. */
  lemma SuccessorShape(s: seq<nat>)
    requires Distinct(s) && Advances(s)
    ensures Successor(s)[..Pivot(s)] == s[..Pivot(s)]
    ensures Successor(s)[Pivot(s)] == s[SwapIndex(s)]
    ensures Ascending(Successor(s)[Pivot(s) + 1..])
  {
    var p, q := Pivot(s), SwapIndex(s);
    var w := Swapped(s, p, q);
    var t := Successor(s);
    StepFacts(s);
    SwappedRun(s);
    ReverseDescending(w[p + 1..]);
    assert t[p + 1..] == Reverse(w[p + 1..]);
    assert t[..p] == w[..p];
  }

  /** Successor comes after the tour in lexicographic order. */
  lemma SuccessorGreater(s: seq<nat>)
    requires Distinct(s) && Advances(s)
    ensures LexLess(s, Successor(s))
  {
    var p := Pivot(s);
    StepFacts(s);
    SuccessorShape(s);
    LexLessAt(s, Successor(s), p);
  }

  /** A rearrangement that first departs from the tour before the pivot, by
      going up, is beyond the successor, which keeps that part. */
  lemma BeyondBeforePivot(s: seq<nat>, u: seq<nat>, k: nat)
    requires Distinct(s) && Advances(s) && |u| == |s|
    requires k < Pivot(s) && s[..k] == u[..k] && s[k] < u[k]
    ensures LexLess(Successor(s), u)
  {
    var p, t := Pivot(s), Successor(s);
    SuccessorShape(s);
    assert t[..k] == s[..k] by { assert t[..k] == t[..p][..k] && s[..k] == s[..p][..k]; }
    assert t[k] == s[k] by { assert t[..p][k] == s[..p][k]; }
    LexLessAt(t, u, k);
  }

  /** No rearrangement first departs from the tour after the pivot by going
      up: that part is decreasing, so nothing larger is left to put there. */
  lemma NoRiseAfterPivot(s: seq<nat>, u: seq<nat>, k: nat)
    requires Distinct(s) && Advances(s) && IsPermutation(u, s)
    requires |u| == |s| && Pivot(s) < k < |s| && s[..k] == u[..k]
    ensures u[k] <= s[k]
  {
    var p := Pivot(s);
    StepFacts(s);
    PermutationLength(u, s);
    SuffixPermutation(u, s, k);
    assert u[k] in u[k..];
    PermutationMembers(u[k..], s[k..], u[k]);
    var r :| k <= r < |s| && s[r] == u[k];
    if r > k {
      assert s[p + 1..][k - p - 1] > s[p + 1..][r - p - 1];
    }
  }

  /** A rearrangement that keeps the part before the pivot and puts a larger
      element at the pivot puts there at least the element the successor
      puts there: the least element after the pivot that is larger. */
  lemma LeastLargerAtPivot(s: seq<nat>, u: seq<nat>)
    requires Distinct(s) && Advances(s) && IsPermutation(u, s) && |u| == |s|
    requires s[..Pivot(s)] == u[..Pivot(s)] && s[Pivot(s)] < u[Pivot(s)]
    ensures u[Pivot(s)] >= s[SwapIndex(s)]
  {
    var p, q := Pivot(s), SwapIndex(s);
    StepFacts(s);
    SuffixPermutation(u, s, p);
    assert u[p] in u[p..];
    PermutationMembers(u[p..], s[p..], u[p]);
    var r :| p <= r < |s| && s[r] == u[p];
    assert p < r <= q;
    if r < q {
      assert s[p + 1..][r - p - 1] > s[p + 1..][q - p - 1];
    }
  }

  /** Past a common prefix through the pivot, the successor continues in
      increasing order, the least way to continue. */
  lemma NotBelowPastPivot(s: seq<nat>, u: seq<nat>)
    requires Distinct(s) && Advances(s) && IsPermutation(u, s) && |u| == |s|
    requires u[..Pivot(s) + 1] == Successor(s)[..Pivot(s) + 1]
    ensures !LexLess(u, Successor(s))
  {
    var p, t := Pivot(s), Successor(s);
    if LexLess(u, t) {
      SuccessorShape(s);
      SuccessorPermutation(s);
      SuffixPermutation(u, t, p + 1);
      LexLessSuffix(u, t, p + 1);
      LexIrreflexive(t[p + 1..]);
      AscendingIsLeast(t[p + 1..], u[p + 1..]);
      LexAsymmetric(u[p + 1..], t[p + 1..]);
    }
  }

  /** A rearrangement that keeps the part before the pivot and puts a larger
      element at the pivot is not below the successor. */
  lemma NotBelowAtPivot(s: seq<nat>, u: seq<nat>)
    requires Distinct(s) && Advances(s) && IsPermutation(u, s) && |u| == |s|
    requires s[..Pivot(s)] == u[..Pivot(s)] && s[Pivot(s)] < u[Pivot(s)]
    ensures !LexLess(u, Successor(s))
  {
    var p, t := Pivot(s), Successor(s);
    SuccessorShape(s);
    LeastLargerAtPivot(s, u);
    assert t[..p] == u[..p];
    if u[p] > t[p] {
      LexLessAt(t, u, p);
      LexAsymmetric(t, u);
    } else {
      assert u[..p + 1] == t[..p + 1];
      NotBelowPastPivot(s, u);
    }
  }

  /** Successor is the next arrangement: no rearrangement of the tour lies
      strictly between the tour and its successor. */
  lemma SuccessorImmediate(s: seq<nat>, u: seq<nat>)
    requires Distinct(s) && Advances(s) && IsPermutation(u, s) && LexLess(s, u)
    ensures !LexLess(u, Successor(s))
  {
    var p := Pivot(s);
    PermutationLength(u, s);
    var k :| 0 <= k < |s| && s[..k] == u[..k] && s[k] < u[k];
    if k < p {
      BeyondBeforePivot(s, u, k);
      LexAsymmetric(Successor(s), u);
    } else if k > p {
      NoRiseAfterPivot(s, u, k);
      assert false;
    } else {
      NotBelowAtPivot(s, u);
    }
  }

  // ---------------------------------------------------------------------
  // The routine

  /** Reverses a[lo..] in place (`<[T]>::reverse`). */
  method ReverseFrom(a: array<nat>, lo: nat)
    requires lo <= a.Length
    modifies a
    ensures a[..] == old(a[..lo]) + Reverse(old(a[lo..]))
  {
    ghost var s := a[..];
    var l, h := lo, a.Length - 1;
    while l < h
      invariant lo <= l <= h + 1 && l + h == lo + a.Length - 1 && h < a.Length
      invariant forall k :: 0 <= k < lo ==> a[k] == s[k]
      invariant forall k :: lo <= k < l ==> a[k] == s[lo + a.Length - 1 - k]
      invariant forall k :: h < k < a.Length ==> a[k] == s[lo + a.Length - 1 - k]
      invariant forall k :: l <= k <= h ==> a[k] == s[k]
      decreases h - l
    {
      a[l], a[h] := a[h], a[l];
      l, h := l + 1, h - 1;
    }
    assert a[..] == s[..lo] + Reverse(s[lo..]);
  }

  /** proxima_ordem_lexicografica: returns whether the tour advanced, and if
      so leaves the successor in place; otherwise the tour is untouched. */
  method NextLexOrder(a: array<nat>) returns (advanced: bool)
    modifies a
    ensures advanced == Advances(old(a[..]))
    ensures advanced ==> a[..] == Successor(old(a[..]))
    ensures !advanced ==> a[..] == old(a[..])
  {
    if a.Length <= 1 {
      return false;
    }
    ghost var s := a[..];
    var i: nat := a.Length - 2;
    var j: nat := a.Length - 1;
    while i > 0 && a[i] > a[i + 1]
      invariant i + 1 < a.Length && ScanPivot(s, i) == Pivot(s)
      decreases i
    {
      i := i - 1;
    }
    while j > 0 && a[j] < a[i]
      invariant i <= j < a.Length && ScanSwap(s, i, j) == SwapIndex(s)
      decreases j
    {
      j := j - 1;
    }
    if i != j {
      a[i], a[j] := a[j], a[i];
      assert a[..] == Swapped(s, i, j);
      ReverseFrom(a, i + 1);
      return true;
    }
    return false;
  }

  // ---------------------------------------------------------------------
  // Agreement with unranking

  /** Advancing from the arrangement of rank k gives the arrangement of rank
      k + 1; at the last rank the routine reports that there is no next one. */
  lemma SuccessorOfUnrank(pool: seq<nat>, k: nat)
    requires Ascending(pool) && k + 1 < Fact(|pool|)
    ensures Advances(Unrank(pool, k)) && Successor(Unrank(pool, k)) == Unrank(pool, k + 1)
  {
    var s := Unrank(pool, k);
    AscendingDistinct(pool);
    UnrankDistinct(pool, k);
    UnrankMonotone(pool, k, k + 1);
    UnrankPermutation(pool, k);
    UnrankPermutation(pool, k + 1);
    if Descending(s) {
      DescendingIsGreatest(s, Unrank(pool, k + 1));
    }
    AdvancesIffNotDescending(s);
    var t := Successor(s);
    SuccessorPermutation(s);
    SuccessorGreater(s);
    var r := Rank(pool, t);
    UnrankRank(pool, t);
    UnrankOrder(pool, k, r);
    if r > k + 1 {
      UnrankOrder(pool, k + 1, r);
      SuccessorImmediate(s, Unrank(pool, k + 1));
    }
  }

  /** The last rank is a dead end: the routine does not advance from it. */
  lemma LastDoesNotAdvance(pool: seq<nat>)
    requires Ascending(pool)
    ensures !Advances(Unrank(pool, Fact(|pool|) - 1))
  {
    UnrankLast(pool);
    ReverseAscending(pool);
    AdvancesIffNotDescending(Reverse(pool));
  }

  /** The routine advances from the arrangement of rank k exactly when k is
      not the last rank. */
  lemma AdvancesUnlessLast(pool: seq<nat>, k: nat)
    requires Ascending(pool) && k < Fact(|pool|)
    ensures Advances(Unrank(pool, k)) <==> k + 1 < Fact(|pool|)
  {
    if k + 1 < Fact(|pool|) {
      SuccessorOfUnrank(pool, k);
    } else {
      assert k == Fact(|pool|) - 1;
      LastDoesNotAdvance(pool);
    }
  }
}
