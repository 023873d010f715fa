/** The factorial number system as digit sequences: a rank k below m! is
    written as m digits, the i-th of them below m - i (a Lehmer code). The
    unranking step reads these digits one at a time, most significant first. */
module Lehmer {
  import opened Factorial
  import opened Lex

  /** c is a Lehmer code: its i-th digit is below |c| - i, that is, each
      digit is below the number of digits from it to the end. */
  ghost predicate IsCode(c: seq<nat>)
  {
    c == [] || (c[0] < |c| && IsCode(c[1..]))
  }

  /** The digits of rank k in base (m-1)!, (m-2)!, ..., 0!: the leading one is
      k / (m-1)!, the others are those of k % (m-1)!. */
  function Code(k: nat, m: nat): (c: seq<nat>)
    requires k < Fact(m)
    ensures |c| == m && IsCode(c)
    decreases m
  {
    if m == 0 then []
    else
      LeadingDigitBelow(k, m);
      var tail := Code(Rem(k, Fact(m - 1)), m - 1);
      ConsCode(Quot(k, Fact(m - 1)), tail);
      [Quot(k, Fact(m - 1))] + tail
  }

  /** A digit below |tail| + 1 in front of a code makes a code. */
  lemma ConsCode(d: nat, tail: seq<nat>)
    requires IsCode(tail) && d <= |tail|
    ensures IsCode([d] + tail)
  {
    assert ([d] + tail)[1..] == tail;
  }

  /** What follows the leading digit of a code is a code. */
  lemma CodeTail(c: seq<nat>)
    requires IsCode(c) && c != []
    ensures c[0] < |c| && IsCode(c[1..])
  {
  }

  /** The number a Lehmer code denotes. */
  function Value(c: seq<nat>): (k: nat)
    requires IsCode(c)
    ensures k < Fact(|c|)
    decreases |c|
  {
    if c == [] then 0
    else
      CodeTail(c);
      PlaceValue(c[0], Value(c[1..]), |c|)
  }

  /** The code of k denotes k. */
  lemma {:induction false} ValueCode(k: nat, m: nat)
    requires k < Fact(m)
    ensures Value(Code(k, m)) == k
    decreases m
  {
    if m > 0 {
      var f := Fact(m - 1);
      var c := Code(k, m);
      LeadingDigitBelow(k, m);
      assert c[0] == Quot(k, f) && c[1..] == Code(Rem(k, f), m - 1);
      ValueCode(Rem(k, f), m - 1);
      PlaceValueSplit(k, m);
    }
  }

  /** Every code is the code of its value. */
  lemma {:induction false} CodeValue(c: seq<nat>)
    requires IsCode(c)
    ensures Code(Value(c), |c|) == c
    decreases |c|
  {
    if c != [] {
      var m := |c|;
      var k := Value(c);
      CodeTail(c);
      assert k == PlaceValue(c[0], Value(c[1..]), m);
      CodeValue(c[1..]);
      assert Code(k, m) == [c[0]] + c[1..];
    }
  }

  /** Lexicographically smaller codes denote smaller numbers. */
  lemma {:induction false} ValueMonotone(c1: seq<nat>, c2: seq<nat>)
    requires IsCode(c1) && IsCode(c2) && LexLess(c1, c2)
    ensures Value(c1) < Value(c2)
    decreases |c1|
  {
    var m := |c1|;
    CodeTail(c1);
    CodeTail(c2);
    var r1, r2 := Value(c1[1..]), Value(c2[1..]);
    LexLessHead(c1, c2);
    if c1[0] == c2[0] {
      ValueMonotone(c1[1..], c2[1..]);
    }
    PlaceValueOrder(c1[0], r1, c2[0], r2, m);
  }

  /** Smaller numbers have lexicographically smaller codes. */
  lemma CodeMonotone(k1: nat, k2: nat, m: nat)
    requires k1 < k2 < Fact(m)
    ensures LexLess(Code(k1, m), Code(k2, m))
  {
    var c1, c2 := Code(k1, m), Code(k2, m);
    ValueCode(k1, m);
    ValueCode(k2, m);
    LexTotal(c1, c2);
    if LexLess(c2, c1) {
      ValueMonotone(c2, c1);
    }
  }

  /** Rank 0 has every digit zero. */
  lemma {:induction false} CodeZero(m: nat)
    ensures forall i :: 0 <= i < m ==> Code(0, m)[i] == 0
  {
    if m > 0 {
      CodeZero(m - 1);
      assert Code(0, m) == [0] + Code(0, m - 1);
    }
  }

  /** Ranks below (m-1)! lead with the digit 0. */
  lemma LeadingZero(k: nat, m: nat)
    requires m >= 1 && k < Fact(m - 1)
    ensures Code(k, m)[0] == 0
  {
    assert Fact(m - 1) <= Fact(m) by { FactStep(m); }
  }
}
