/** The weight of a closed tour over the adjacency matrix, as the worker loop
    of tsp_forca_bruta sums it, and the symmetry that lets the solver look at
    tours starting at vertex 0 only. */
module Tour {
  import opened Factorial
  import opened Lex
  import opened Lehmer
  import opened Unranking

  /** The matrix read from the file is square: one row per vertex, one entry
      per vertex in each row. Indexing outside it would panic. */
  predicate Square(g: seq<seq<nat>>)
  {
    forall i :: 0 <= i < |g| ==> |g[i]| == |g|
  }

  /** p visits vertices of g only. */
  predicate InRange(p: seq<nat>, n: nat)
  {
    forall i :: 0 <= i < |p| ==> p[i] < n
  }

  /** The position after i in a tour of length n, going round to 0 after
      the last one. */
  function Next(i: nat, n: nat): (j: nat)
    requires i < n
    ensures j < n
  {
    if i + 1 < n then i + 1 else 0
  }

  /** The weight of the edge leaving the i-th vertex of the tour, back to the
      start after the last one. */
  function Edge(g: seq<seq<nat>>, p: seq<nat>, i: nat): nat
    requires Square(g) && InRange(p, |g|) && i < |p|
  {
    g[p[i]][p[Next(i, |p|)]]
  }

  /** The first k edges of the tour. */
  function PathWeight(g: seq<seq<nat>>, p: seq<nat>, k: nat): nat
    requires Square(g) && InRange(p, |g|) && k <= |p|
  {
    if k == 0 then 0 else PathWeight(g, p, k - 1) + Edge(g, p, k - 1)
  }

  /** The weight of the closed tour: all of its edges. */
  function CycleWeight(g: seq<seq<nat>>, p: seq<nat>): nat
    requires Square(g) && InRange(p, |g|)
  {
    PathWeight(g, p, |p|)
  }

  /** The source's (i + 1) % len is the position after i. */
  lemma NextIndex(i: nat, n: nat)
    requires i < n
    ensures (i + 1) % n == Next(i, n)
  {
  }

  /** The weight the worker computes for each tour: the sum of
      g[p[i]][p[(i + 1) % len]] for i in 0..len. */
  method TourWeight(g: seq<seq<nat>>, path: array<nat>) returns (w: nat)
    requires Square(g) && InRange(path[..], |g|)
    ensures w == CycleWeight(g, path[..])
  {
    w := 0;
    var i := 0;
    while i < path.Length
      invariant i <= path.Length && w == PathWeight(g, path[..], i)
    {
      NextIndex(i, path.Length);
      w := w + g[path[i]][path[(i + 1) % path.Length]];
      i := i + 1;
    }
  }

  // ---------------------------------------------------------------------
  // Rotation does not change the weight

  /** The tour started one vertex later. */
  function Rotate(p: seq<nat>): (r: seq<nat>)
    ensures |r| == |p|
  {
    if p == [] then [] else p[1..] + [p[0]]
  }

  lemma RotateInRange(p: seq<nat>, n: nat)
    requires InRange(p, n)
    ensures InRange(Rotate(p), n) && IsPermutation(Rotate(p), p)
  {
    if p != [] {
      assert p == [p[0]] + p[1..];
    }
  }

  /** Position i of the rotated tour holds the vertex after position i. */
  lemma RotateAt(p: seq<nat>, i: nat)
    requires i < |p|
    ensures Rotate(p)[i] == p[Next(i, |p|)]
  {
  }

  /** Edge i of the rotated tour is the edge after it in the tour. */
  lemma RotateEdge(g: seq<seq<nat>>, p: seq<nat>, i: nat)
    requires Square(g) && InRange(p, |g|) && i < |p|
    ensures InRange(Rotate(p), |g|)
    ensures Edge(g, Rotate(p), i) == Edge(g, p, Next(i, |p|))
  {
    RotateInRange(p, |g|);
    RotateAt(p, i);
    RotateAt(p, Next(i, |p|));
  }

  /** The first k edges of the rotated tour are edges 1..k of the tour. */
  lemma {:induction false} RotatePathWeight(g: seq<seq<nat>>, p: seq<nat>, k: nat)
    requires Square(g) && InRange(p, |g|) && 0 < |p| && k < |p|
    ensures InRange(Rotate(p), |g|)
    ensures PathWeight(g, Rotate(p), k) + Edge(g, p, 0) == PathWeight(g, p, k + 1)
  {
    RotateInRange(p, |g|);
    if k > 0 {
      RotatePathWeight(g, p, k - 1);
      RotateEdge(g, p, k - 1);
    }
  }

  /** A closed tour weighs the same from whichever vertex it starts. */
  lemma RotateWeight(g: seq<seq<nat>>, p: seq<nat>)
    requires Square(g) && InRange(p, |g|)
    ensures InRange(Rotate(p), |g|) && CycleWeight(g, Rotate(p)) == CycleWeight(g, p)
  {
    RotateInRange(p, |g|);
    if p != [] {
      var n := |p|;
      RotatePathWeight(g, p, n - 1);
      RotateEdge(g, p, n - 1);
    }
  }

  /** Rotating d times. */
  function RotateBy(p: seq<nat>, d: nat): (r: seq<nat>)
    ensures |r| == |p|
  {
    if d == 0 then p else Rotate(RotateBy(p, d - 1))
  }

  /** After d < len rotations the tour starts at its d-th vertex. */
  lemma {:induction false} RotateByShape(p: seq<nat>, d: nat)
    requires d <= |p|
    ensures RotateBy(p, d) == p[d..] + p[..d]
  {
    if d > 0 {
      RotateByShape(p, d - 1);
      var q := p[d - 1..] + p[..d - 1];
      assert q[0] == p[d - 1];
      assert q[1..] == p[d..] + p[..d - 1];
      assert p[..d] == p[..d - 1] + [p[d - 1]];
    }
  }

  lemma {:induction false} RotateByWeight(g: seq<seq<nat>>, p: seq<nat>, d: nat)
    requires Square(g) && InRange(p, |g|)
    ensures InRange(RotateBy(p, d), |g|) && IsPermutation(RotateBy(p, d), p)
    ensures CycleWeight(g, RotateBy(p, d)) == CycleWeight(g, p)
  {
    if d > 0 {
      RotateByWeight(g, p, d - 1);
      RotateWeight(g, RotateBy(p, d - 1));
      RotateInRange(RotateBy(p, d - 1), |g|);
    }
  }

  // ---------------------------------------------------------------------
  // Tours over the vertices 0..n-1

  /** The arrangements of 0..n-1 visit vertices of g only. */
  lemma TourInRange(g: seq<seq<nat>>, k: nat)
    requires k < Fact(|g|)
    ensures InRange(Unrank(Identity(|g|), k), |g|)
  {
    var p := Unrank(Identity(|g|), k);
    UnrankPermutation(Identity(|g|), k);
    forall i | 0 <= i < |p| ensures p[i] < |g| {
      assert p[i] in p;
      PermutationMembers(p, Identity(|g|), p[i]);
    }
  }

  /** The weight of the tour of rank k. */
  function RankWeight(g: seq<seq<nat>>, k: nat): nat
    requires Square(g) && k < Fact(|g|)
  {
    TourInRange(g, k);
    CycleWeight(g, Unrank(Identity(|g|), k))
  }

  /** An arrangement of 0..n-1 starting with vertex 0 has rank below (n-1)!:
      the converse of UnrankLeadingZero. */
  lemma RankLeadingZero(n: nat, q: seq<nat>)
    requires n >= 1 && IsPermutation(q, Identity(n)) && q[0] == 0
    ensures Rank(Identity(n), q) < Fact(n - 1)
  {
    PermutationLength(q, Identity(n));
    PermutationMembers(q, Identity(n), q[0]);
    var c := CodeOf(Identity(n), q);
    assert c[0] == IndexOf(Identity(n), 0) == 0;
    CodeTail(c);
    assert Rank(Identity(n), q) == PlaceValue(0, Value(c[1..]), n);
  }

  /** Looking at the ranks below (n-1)! loses nothing: every tour of the n
      vertices weighs the same as one of them (its rotation that starts at
      vertex 0). */
  lemma StartAtZero(g: seq<seq<nat>>, p: seq<nat>)
    requires Square(g) && |g| >= 1 && IsPermutation(p, Identity(|g|))
    ensures InRange(p, |g|)
    ensures exists k: nat :: k < Fact(|g| - 1) && k < Fact(|g|) && RankWeight(g, k) == CycleWeight(g, p)
  {
    var n := |g|;
    PermutationLength(p, Identity(n));
    forall i | 0 <= i < |p| ensures p[i] < n {
      assert p[i] in p;
      PermutationMembers(p, Identity(n), p[i]);
    }
    assert Identity(n)[0] == 0;
    PermutationMembers(p, Identity(n), 0);
    var d := IndexOf(p, 0);
    var q := RotateBy(p, d);
    RotateByWeight(g, p, d);
    RotateByShape(p, d);
    assert q[0] == 0;
    var k := Rank(Identity(n), q);
    RankLeadingZero(n, q);
    UnrankRank(Identity(n), q);
    FactStep(n);
    assert RankWeight(g, k) == CycleWeight(g, p);
  }
}
