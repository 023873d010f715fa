/** The permutation codec: rank k in [0, m!) <-> the k-th arrangement, in
    lexicographic order, of a sorted pool of m candidates, through the
    factorial number system (Lehmer code). */
module Unranking {
  import opened Factorial
  import opened Lex
  import opened Lehmer

  /** The pool with the element at position i taken out (`Vec::remove`). */
  function RemoveAt(s: seq<nat>, i: nat): (r: seq<nat>)
    requires i < |s|
    ensures |r| == |s| - 1
  {
    s[..i] + s[i + 1..]
  }

  /** Removing takes exactly one copy of the element out. */
  lemma RemoveAtMultiset(s: seq<nat>, i: nat)
    requires i < |s|
    ensures multiset(RemoveAt(s, i)) + multiset{s[i]} == multiset(s)
  {
    assert s == s[..i] + [s[i]] + s[i + 1..];
  }

  /** The vertex list 0, 1, ..., n-1 (`(0..n).collect()`). */
  function Identity(n: nat): (s: seq<nat>)
    ensures |s| == n && forall i :: 0 <= i < n ==> s[i] == i
  {
    seq(n, i requires 0 <= i => i)
  }

  /** The arrangement a Lehmer code selects from pool: its leading digit
      picks an element among those left, the other digits arrange the rest. */
  function Place(pool: seq<nat>, c: seq<nat>): (p: seq<nat>)
    requires |c| == |pool| && IsCode(c)
    ensures |p| == |pool|
    decreases |pool|
  {
    if pool == [] then []
    else
      CodeTail(c);
      [pool[c[0]]] + Place(RemoveAt(pool, c[0]), c[1..])
  }

  /** Whatever the code, placing rearranges the pool. */
  lemma {:induction false} PlacePermutation(pool: seq<nat>, c: seq<nat>)
    requires |c| == |pool| && IsCode(c)
    ensures IsPermutation(Place(pool, c), pool)
    decreases |pool|
  {
    if pool != [] {
      CodeTail(c);
      var rest := RemoveAt(pool, c[0]);
      PlacePermutation(rest, c[1..]);
      RemoveAtMultiset(pool, c[0]);
      assert Place(pool, c) == [pool[c[0]]] + Place(rest, c[1..]);
    }
  }

  /** Position of the first occurrence of x in s. */
  function IndexOf(s: seq<nat>, x: nat): (i: nat)
    requires x in s
    ensures i < |s| && s[i] == x
  {
    if s[0] == x then 0 else 1 + IndexOf(s[1..], x)
  }

  /** In a sequence without repeats, an element is found where it stands. */
  lemma {:induction false} IndexOfDistinct(s: seq<nat>, i: nat)
    requires Distinct(s) && i < |s|
    ensures IndexOf(s, s[i]) == i
  {
    if i > 0 {
      IndexOfDistinct(s[1..], i - 1);
    }
  }

  /** Taking the head of an arrangement and the same element out of the
      pool leaves arrangements of one another. */
  lemma TailPermutation(p: seq<nat>, pool: seq<nat>, d: nat)
    requires IsPermutation(p, pool) && p != [] && d < |pool| && pool[d] == p[0]
    ensures IsPermutation(p[1..], RemoveAt(pool, d))
  {
    assert p == [p[0]] + p[1..];
    assert multiset(p) == multiset{p[0]} + multiset(p[1..]);
    assert multiset(p[1..]) == multiset(pool) - multiset{p[0]};
    RemoveAtMultiset(pool, d);
    assert multiset(RemoveAt(pool, d)) == multiset(pool) - multiset{p[0]};
  }

  /** The Lehmer code of an arrangement p of pool: where each element stood
      among those not yet used. */
  function CodeOf(pool: seq<nat>, p: seq<nat>): (c: seq<nat>)
    requires IsPermutation(p, pool)
    ensures |c| == |pool| && IsCode(c)
    decreases |pool|
  {
    PermutationLength(p, pool);
    if p == [] then []
    else
      PermutationMembers(p, pool, p[0]);
      var d := IndexOf(pool, p[0]);
      TailPermutation(p, pool, d);
      var tail := CodeOf(RemoveAt(pool, d), p[1..]);
      ConsCode(d, tail);
      [d] + tail
  }

  /** The k-th arrangement of pool in lexicographic order (when the pool is
      sorted and its elements distinct). */
  function Unrank(pool: seq<nat>, k: nat): (p: seq<nat>)
    requires k < Fact(|pool|)
    ensures |p| == |pool|
  {
    Place(pool, Code(k, |pool|))
  }

  /** Every rank unranks to a rearrangement of the pool. */
  lemma UnrankPermutation(pool: seq<nat>, k: nat)
    requires k < Fact(|pool|)
    ensures IsPermutation(Unrank(pool, k), pool)
  {
    PlacePermutation(pool, Code(k, |pool|));
  }

  /** The inverse of Unrank: the rank of an arrangement p of pool. */
  function Rank(pool: seq<nat>, p: seq<nat>): (k: nat)
    requires IsPermutation(p, pool)
    ensures k < Fact(|pool|)
  {
    Value(CodeOf(pool, p))
  }

  // ---------------------------------------------------------------------
  // Codes and arrangements

  /** Placing the code of an arrangement gives the arrangement back. */
  lemma {:induction false} PlaceCodeOf(pool: seq<nat>, p: seq<nat>)
    requires IsPermutation(p, pool)
    ensures Place(pool, CodeOf(pool, p)) == p
    decreases |pool|
  {
    PermutationLength(p, pool);
    if p != [] {
      PermutationMembers(p, pool, p[0]);
      var d := IndexOf(pool, p[0]);
      TailPermutation(p, pool, d);
      var c := CodeOf(pool, p);
      assert c[0] == d && c[1..] == CodeOf(RemoveAt(pool, d), p[1..]);
      PlaceCodeOf(RemoveAt(pool, d), p[1..]);
      assert p == [p[0]] + p[1..];
    }
  }

  lemma RemoveAtDistinct(s: seq<nat>, i: nat)
    requires Distinct(s) && i < |s|
    ensures Distinct(RemoveAt(s, i)) && s[i] !in RemoveAt(s, i)
  {
    var r := RemoveAt(s, i);
    forall j | 0 <= j < |r| ensures r[j] == (if j < i then s[j] else s[j + 1]) {
    }
  }

  lemma RemoveAtAscending(s: seq<nat>, i: nat)
    requires Ascending(s) && i < |s|
    ensures Ascending(RemoveAt(s, i))
  {
    var r := RemoveAt(s, i);
    forall j | 0 <= j < |r| ensures r[j] == (if j < i then s[j] else s[j + 1]) {
    }
  }

  /** With distinct candidates, the code of a placed code is that code. */
  lemma {:induction false} CodeOfPlace(pool: seq<nat>, c: seq<nat>)
    requires Distinct(pool) && |c| == |pool| && IsCode(c)
    ensures IsPermutation(Place(pool, c), pool) && CodeOf(pool, Place(pool, c)) == c
    decreases |pool|
  {
    PlacePermutation(pool, c);
    if pool != [] {
      CodeTail(c);
      var rest := RemoveAt(pool, c[0]);
      var t := Place(rest, c[1..]);
      var p := Place(pool, c);
      assert p == [pool[c[0]]] + t;
      assert p[0] == pool[c[0]] && p[1..] == t;
      IndexOfDistinct(pool, c[0]);
      RemoveAtDistinct(pool, c[0]);
      CodeOfPlace(rest, c[1..]);
      assert c == [c[0]] + c[1..];
    }
  }

  /** Placing keeps the candidates distinct. */
  lemma {:induction false} PlaceDistinct(pool: seq<nat>, c: seq<nat>)
    requires Distinct(pool) && |c| == |pool| && IsCode(c)
    ensures Distinct(Place(pool, c))
    decreases |pool|
  {
    if pool != [] {
      CodeTail(c);
      var rest := RemoveAt(pool, c[0]);
      var t := Place(rest, c[1..]);
      assert Place(pool, c) == [pool[c[0]]] + t;
      RemoveAtDistinct(pool, c[0]);
      PlaceDistinct(rest, c[1..]);
      PlacePermutation(rest, c[1..]);
      PermutationMembers(t, rest, pool[c[0]]);
    }
  }

  /** From a sorted pool, lexicographically smaller codes place
      lexicographically smaller arrangements. */
  lemma {:induction false} PlaceMonotone(pool: seq<nat>, c1: seq<nat>, c2: seq<nat>)
    requires Ascending(pool) && |c1| == |pool| && |c2| == |pool| && IsCode(c1) && IsCode(c2)
    requires LexLess(c1, c2)
    ensures LexLess(Place(pool, c1), Place(pool, c2))
    decreases |pool|
  {
    CodeTail(c1);
    CodeTail(c2);
    var t1 := Place(RemoveAt(pool, c1[0]), c1[1..]);
    var t2 := Place(RemoveAt(pool, c2[0]), c2[1..]);
    assert Place(pool, c1) == [pool[c1[0]]] + t1;
    assert Place(pool, c2) == [pool[c2[0]]] + t2;
    LexLessHead(c1, c2);
    if c1[0] < c2[0] {
      LexLessAt(Place(pool, c1), Place(pool, c2), 0);
    } else {
      RemoveAtAscending(pool, c1[0]);
      PlaceMonotone(RemoveAt(pool, c1[0]), c1[1..], c2[1..]);
      LexLessPrefix([pool[c1[0]]], t1, t2);
    }
  }

  /** The all-zero code places the pool as it stands. */
  lemma {:induction false} PlaceZeros(pool: seq<nat>, c: seq<nat>)
    requires |c| == |pool| && forall i :: 0 <= i < |c| ==> c[i] == 0
    ensures IsCode(c) && Place(pool, c) == pool
    decreases |pool|
  {
    if pool != [] {
      assert RemoveAt(pool, 0) == pool[1..];
      PlaceZeros(pool[1..], c[1..]);
      ConsCode(0, c[1..]);
      assert c == [0] + c[1..];
    }
  }

  lemma RemoveLast(s: seq<nat>)
    requires s != []
    ensures RemoveAt(s, |s| - 1) == s[..|s| - 1]
  {
  }

  lemma AppendAssoc(prefix: seq<nat>, x: nat, tail: seq<nat>)
    ensures (prefix + [x]) + tail == prefix + ([x] + tail)
  {
  }

  // ---------------------------------------------------------------------
  // Unrank and Rank are inverse bijections between [0, m!) and the
  // arrangements of the pool, and rank order is lexicographic order.

  /** One step of unranking: the leading digit k / (m-1)! picks the first
      element, k % (m-1)! ranks the arrangement of the others. */
  lemma UnrankStep(pool: seq<nat>, k: nat)
    requires pool != [] && k < Fact(|pool|)
    ensures Quot(k, Fact(|pool| - 1)) < |pool|
    ensures Unrank(pool, k) == [pool[Quot(k, Fact(|pool| - 1))]]
      + Unrank(RemoveAt(pool, Quot(k, Fact(|pool| - 1))), Rem(k, Fact(|pool| - 1)))
  {
    var f := Fact(|pool| - 1);
    LeadingDigitBelow(k, |pool|);
    var c := Code(k, |pool|);
    assert c[0] == Quot(k, f) && c[1..] == Code(Rem(k, f), |pool| - 1);
  }

  /** Every arrangement of the pool is reached, at its rank. */
  lemma UnrankRank(pool: seq<nat>, p: seq<nat>)
    requires IsPermutation(p, pool)
    ensures Unrank(pool, Rank(pool, p)) == p
  {
    CodeValue(CodeOf(pool, p));
    PlaceCodeOf(pool, p);
  }

  /** Each rank below m! is the rank of the arrangement it unranks to. */
  lemma RankUnrank(pool: seq<nat>, k: nat)
    requires Distinct(pool) && k < Fact(|pool|)
    ensures IsPermutation(Unrank(pool, k), pool) && Rank(pool, Unrank(pool, k)) == k
  {
    CodeOfPlace(pool, Code(k, |pool|));
    ValueCode(k, |pool|);
  }

  /** Arrangements of distinct candidates stay distinct. */
  lemma UnrankDistinct(pool: seq<nat>, k: nat)
    requires Distinct(pool) && k < Fact(|pool|)
    ensures Distinct(Unrank(pool, k))
  {
    PlaceDistinct(pool, Code(k, |pool|));
  }

  /** Higher ranks give lexicographically later arrangements. */
  lemma UnrankMonotone(pool: seq<nat>, k1: nat, k2: nat)
    requires Ascending(pool) && k1 < k2 < Fact(|pool|)
    ensures LexLess(Unrank(pool, k1), Unrank(pool, k2))
  {
    CodeMonotone(k1, k2, |pool|);
    PlaceMonotone(pool, Code(k1, |pool|), Code(k2, |pool|));
  }

  /** Rank order and lexicographic order coincide. */
  lemma UnrankOrder(pool: seq<nat>, k1: nat, k2: nat)
    requires Ascending(pool) && k1 < Fact(|pool|) && k2 < Fact(|pool|)
    ensures LexLess(Unrank(pool, k1), Unrank(pool, k2)) <==> k1 < k2
  {
    if k1 < k2 {
      UnrankMonotone(pool, k1, k2);
    } else if k2 < k1 {
      UnrankMonotone(pool, k2, k1);
      LexAsymmetric(Unrank(pool, k2), Unrank(pool, k1));
    } else {
      LexIrreflexive(Unrank(pool, k1));
    }
  }

  /** Exactly the arrangements of rank below k precede the k-th one: Unrank
      yields the k-th arrangement in lexicographic order. */
  lemma UnrankIsKth(pool: seq<nat>, k: nat, q: seq<nat>)
    requires Ascending(pool) && k < Fact(|pool|) && IsPermutation(q, pool)
    ensures LexLess(q, Unrank(pool, k)) <==> Rank(pool, q) < k
  {
    UnrankRank(pool, q);
    UnrankOrder(pool, Rank(pool, q), k);
  }

  /** Rank 0 is the pool itself. */
  lemma UnrankFirst(pool: seq<nat>)
    ensures Unrank(pool, 0) == pool
  {
    CodeZero(|pool|);
    PlaceZeros(pool, Code(0, |pool|));
  }

  /** The last rank, m! - 1, is the pool in reverse: for a sorted pool,
      its decreasing arrangement (ReverseAscending). */
  lemma {:induction false} UnrankLast(pool: seq<nat>)
    ensures Unrank(pool, Fact(|pool|) - 1) == Reverse(pool)
    decreases |pool|
  {
    if pool != [] {
      var m, front := |pool|, pool[..|pool| - 1];
      var k, f := Fact(m) - 1, Fact(m - 1);
      LastRankDigits(m);
      UnrankStep(pool, k);
      RemoveLast(pool);
      assert Unrank(pool, k) == [pool[m - 1]] + Unrank(front, f - 1);
      UnrankLast(front);
      ReverseLast(pool);
    }
  }

  /** With the vertices 0..n-1, ranks below (n-1)! keep vertex 0 first: they
      are exactly the tours that start at vertex 0. */
  lemma UnrankLeadingZero(n: nat, k: nat)
    requires n >= 1 && k < Fact(n - 1)
    ensures k < Fact(n) && Unrank(Identity(n), k)[0] == 0
  {
    FactStep(n);
    LeadingZero(k, n);
    var c := Code(k, n);
    CodeTail(c);
    assert Unrank(Identity(n), k) == [Identity(n)[c[0]]] + Place(RemoveAt(Identity(n), c[0]), c[1..]);
  }

  lemma IdentityAscending(n: nat)
    ensures Ascending(Identity(n)) && Distinct(Identity(n)) && NonDecreasing(Identity(n))
  {
  }

  // ---------------------------------------------------------------------
  // The in-place routine

  /** `Vec::push` on a vector whose first len slots are filled. */
  method Push(a: array<nat>, len: nat, x: nat)
    requires len < a.Length
    modifies a
    ensures a[..len + 1] == old(a[..len]) + [x]
  {
    a[len] := x;
  }

  /** One pass of the unranking loop: the digit rest / factorial selects the
      element taken out of the pool, rest keeps the remainder, and the place
      value drops from (m-1)! to (m-2)! (to 1 once the pool is down to one
      element). The element and the arrangement of what is left make up the
      arrangement the pool and rank stood for. */
  method TakeLeading(indices: seq<nat>, rest: nat, factorial: nat)
    returns (x: nat, indices': seq<nat>, rest': nat, factorial': nat)
    requires indices != [] && factorial == Fact(|indices| - 1) && rest < Fact(|indices|)
    ensures |indices'| == |indices| - 1 && rest' < Fact(|indices'|)
    ensures factorial' > 0 && (indices' != [] ==> factorial' == Fact(|indices'| - 1))
    ensures [x] + Unrank(indices', rest') == Unrank(indices, rest)
  {
    var m := |indices|;
    UnrankStep(indices, rest);
    var next := Divide(rest, factorial);
    rest' := Modulo(rest, factorial);
    if m - 1 > 0 {
      FactDiv(m - 1);
      factorial' := Divide(factorial, m - 1);
    } else {
      factorial' := 1;
    }
    x := indices[next];
    indices' := RemoveAt(indices, next);
  }

  /** n_esima_ordem_lexicografica: rewrites the vector as the n-th
      lexicographic arrangement of its own elements; an empty vector or a rank
      at or beyond len! leaves it as it was. The vector is emptied and then
      refilled one element at a time: `len` counts the elements pushed so far. */
  method NthLexOrder(a: array<nat>, n: nat)
    modifies a
    ensures a.Length == 0 || n >= Fact(a.Length) ==> a[..] == old(a[..])
    ensures 0 < a.Length && n < Fact(a.Length) ==> a[..] == Unrank(SortAsc(old(a[..])), n)
  {
    if a.Length < 1 {
      return;
    }
    var factorial: nat := CalculateFactorial(a.Length - 1);
    var total := Multiply(a.Length, factorial);
    if n >= total {
      return;
    }
    var indices: seq<nat> := SortAsc(a[..]);
    ghost var sorted := indices;
    var rest: nat := n;
    var len: nat := 0;
    while |indices| > 0 && factorial > 0
      invariant len + |indices| == a.Length
      invariant factorial > 0 && rest < Fact(|indices|)
      invariant |indices| > 0 ==> factorial == Fact(|indices| - 1)
      invariant a[..len] + Unrank(indices, rest) == Unrank(sorted, n)
      decreases |indices|
    {
      ghost var prefix := a[..len];
      var x;
      x, indices, rest, factorial := TakeLeading(indices, rest, factorial);
      Push(a, len, x);
      AppendAssoc(prefix, x, Unrank(indices, rest));
      len := len + 1;
    }
    assert a[..] == a[..len];
  }

  /** imprime_ordem_lexicografica_n without the printing: the tour of a rank
      over the vertices 0..count-1. */
  method TourOfRank(n: nat, count: nat) returns (tour: seq<nat>)
    ensures n < Fact(count) ==> tour == Unrank(Identity(count), n)
    ensures n >= Fact(count) ==> tour == Identity(count)
  {
    var v := new nat[count](i requires 0 <= i => i);
    assert v[..] == Identity(count);
    IdentityAscending(count);
    SortAscSorted(v[..]);
    NthLexOrder(v, n);
    tour := v[..];
  }
}
