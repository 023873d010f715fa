/** Factorial arithmetic: the size of the permutation space and the place
    values of the factorial number system.

    Products, quotients and remainders are defined by repeated addition and
    subtraction, so that unfolding them never hands the solver a nonlinear
    term; the lemmas below connect them to `*`, `/` and `%` where the
    routines use those operators. */
module Factorial {

  /** a * b by repeated addition. */
  function Mul(a: nat, b: nat): nat
  {
    if a == 0 then 0 else b + Mul(a - 1, b)
  }

  /** n! as a recursive definition: 0! = 1, n! = n * (n-1)!. */
  function Fact(n: nat): (r: nat)
    ensures r >= 1
  {
    if n == 0 then 1 else Mul(n, Fact(n - 1))
  }

  /** k / f by repeated subtraction. */
  function Quot(k: nat, f: nat): nat
    requires f > 0
    decreases k
  {
    if k < f then 0 else 1 + Quot(k - f, f)
  }

  /** k % f by repeated subtraction. */
  function Rem(k: nat, f: nat): (r: nat)
    requires f > 0
    ensures r < f
    decreases k
  {
    if k < f then k else Rem(k - f, f)
  }

  // ---------------------------------------------------------------------
  // The routine

  /** calcula_fatorial: a loop multiplying the running result by n, n-1, ..., 1,
      entered only when n > 1, so 0 and 1 both give 1. */
  method CalculateFactorial(number: nat) returns (result: nat)
    ensures result == Fact(number)
  {
    result := 1;
    var n := number;
    if n > 1 {
      while n > 0
        invariant result * Fact(n) == Fact(number)
      {
        RunningProduct(result, n, number);
        result := result * n;
        n := n - 1;
      }
    }
  }

  /** The built-in `*`, `/` and `%` of the unranking routine, each kept in a
      method of its own so that the routine reasons only about Mul, Quot and
      Rem. */
  method Multiply(a: nat, b: nat) returns (p: nat)
    ensures p == Mul(a, b)
  {
    MulIsProduct(a, b);
    p := a * b;
  }

  method Divide(k: nat, f: nat) returns (q: nat)
    requires f > 0
    ensures q == Quot(k, f)
  {
    QuotRemAreDivMod(k, f);
    q := k / f;
  }

  method Modulo(k: nat, f: nat) returns (r: nat)
    requires f > 0
    ensures r == Rem(k, f)
  {
    QuotRemAreDivMod(k, f);
    r := k % f;
  }

  // ---------------------------------------------------------------------
  // Connections to the built-in operators

  lemma {:induction false} MulIsProduct(a: nat, b: nat)
    ensures Mul(a, b) == a * b
  {
    if a > 0 {
      MulIsProduct(a - 1, b);
      assert a * b == b + (a - 1) * b;
    }
  }

  /** n! = n * (n-1)! with the built-in product. */
  lemma FactStep(n: nat)
    requires n >= 1
    ensures Fact(n) == n * Fact(n - 1)
  {
    MulIsProduct(n, Fact(n - 1));
  }

  /** Multiplying the running result by n moves n from the factorial still
      owed into the result. */
  lemma RunningProduct(result: nat, n: nat, number: nat)
    requires n >= 1 && result * Fact(n) == Fact(number)
    ensures (result * n) * Fact(n - 1) == Fact(number)
  {
    FactStep(n);
    ProductAssociates(result, n, Fact(n - 1));
  }

  lemma ProductAssociates(a: nat, b: nat, c: nat)
    ensures a * (b * c) == (a * b) * c
  {
  }

  lemma {:induction false} QuotRemAreDivMod(k: nat, f: nat)
    requires f > 0
    ensures Quot(k, f) == k / f && Rem(k, f) == k % f
  {
    Decompose(k, f);
    MulIsProduct(Quot(k, f), f);
    EuclideanUnique(k, f, Quot(k, f), Rem(k, f));
  }

  lemma EuclideanUnique(k: nat, f: nat, q: nat, r: nat)
    requires f > 0 && r < f && k == q * f + r
    ensures q == k / f && r == k % f
  {
    var q', r' := k / f, k % f;
    if q < q' {
      ProductMonotone(q + 1, q', f);
    } else if q' < q {
      ProductMonotone(q' + 1, q, f);
    }
  }

  lemma ProductMonotone(a: nat, b: nat, f: nat)
    requires a <= b
    ensures a * f <= b * f
  {
    MulMonotone(a, b, f);
    MulIsProduct(a, f);
    MulIsProduct(b, f);
  }

  /** (m!) / m is (m-1)!, the place-value update of the unranking loop. */
  lemma FactDiv(m: nat)
    requires m >= 1
    ensures Quot(Fact(m), m) == Fact(m - 1)
  {
    FactStep(m);
    EuclideanUnique(Fact(m), m, Fact(m - 1), 0);
    QuotRemAreDivMod(Fact(m), m);
  }

  // ---------------------------------------------------------------------
  // Linear facts about Mul, Quot and Rem

  lemma {:induction false} MulMonotone(a: nat, b: nat, f: nat)
    requires a <= b
    ensures Mul(a, f) <= Mul(b, f)
    decreases b
  {
    if a < b {
      MulMonotone(a, b - 1, f);
    }
  }

  /** Division with remainder: k = Quot(k, f) * f + Rem(k, f). */
  lemma {:induction false} Decompose(k: nat, f: nat)
    requires f > 0
    ensures k == Mul(Quot(k, f), f) + Rem(k, f)
    decreases k
  {
    if k >= f {
      Decompose(k - f, f);
    }
  }

  /** Quotient and remainder of d * f + r, for r < f, are d and r. */
  lemma {:induction false} QuotOfPlace(d: nat, r: nat, f: nat)
    requires r < f
    ensures Quot(Mul(d, f) + r, f) == d && Rem(Mul(d, f) + r, f) == r
    decreases d
  {
    if d > 0 {
      QuotOfPlace(d - 1, r, f);
    }
  }

  /** If k < m * f then the quotient k / f is below m. */
  lemma {:induction false} QuotBelow(k: nat, f: nat, m: nat)
    requires f > 0 && k < Mul(m, f)
    ensures Quot(k, f) < m
    decreases k
  {
    if k >= f {
      QuotBelow(k - f, f, m - 1);
    }
  }

  // ---------------------------------------------------------------------
  // The factorial number system

  /** The leading digit k / (m-1)! of a rank k below m! is below m. */
  lemma LeadingDigitBelow(k: nat, m: nat)
    requires m >= 1 && k < Fact(m)
    ensures Quot(k, Fact(m - 1)) < m
  {
    QuotBelow(k, Fact(m - 1), m);
  }

  /** The number with leading digit d (place value (m-1)!) and lower-order
      part r: it stays below m! and splits back into d and r. */
  function PlaceValue(d: nat, r: nat, m: nat): (k: nat)
    requires d < m && r < Fact(m - 1)
    ensures k < Fact(m)
    ensures Quot(k, Fact(m - 1)) == d && Rem(k, Fact(m - 1)) == r
  {
    MulMonotone(d + 1, m, Fact(m - 1));
    QuotOfPlace(d, r, Fact(m - 1));
    Mul(d, Fact(m - 1)) + r
  }

  /** Every rank below m! is the place value of its own digits. */
  lemma PlaceValueSplit(k: nat, m: nat)
    requires m >= 1 && k < Fact(m)
    ensures Quot(k, Fact(m - 1)) < m
    ensures PlaceValue(Quot(k, Fact(m - 1)), Rem(k, Fact(m - 1)), m) == k
  {
    LeadingDigitBelow(k, m);
    Decompose(k, Fact(m - 1));
  }

  /** The last rank m! - 1 has the largest digits: m - 1 and (m-1)! - 1. */
  lemma LastRankDigits(m: nat)
    requires m >= 1
    ensures Quot(Fact(m) - 1, Fact(m - 1)) == m - 1
    ensures Rem(Fact(m) - 1, Fact(m - 1)) == Fact(m - 1) - 1
  {
    QuotOfPlace(m - 1, Fact(m - 1) - 1, Fact(m - 1));
  }

  /** Place values order numbers by their leading digit first. */
  lemma PlaceValueOrder(d1: nat, r1: nat, d2: nat, r2: nat, m: nat)
    requires d1 < m && d2 < m && r1 < Fact(m - 1) && r2 < Fact(m - 1)
    requires d1 < d2 || (d1 == d2 && r1 < r2)
    ensures PlaceValue(d1, r1, m) < PlaceValue(d2, r2, m)
  {
    if d1 < d2 {
      MulMonotone(d1 + 1, d2, Fact(m - 1));
    }
  }
}
