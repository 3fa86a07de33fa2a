/**
 Division with a remainder for divisors that are not constants, and induction along two sequences.
 */
module Arith {

  /** Quotient and remainder are determined by their equation. */
  lemma ModUnique(x: nat, A: nat, q: int, r: nat)
    requires A > 0 && x == q * A + r && r < A
    ensures x % A == r && x / A == q
  {
    var q' := x / A;
    var r' := x % A;
    assert (q - q') * A == r' - r;
    MulSign(q - q', A);
  }

  lemma MulSign(d: int, A: nat)
    ensures d >= 1 ==> d * A >= A
    ensures d <= -1 ==> d * A <= 0 - A
  {
    assert d >= 1 ==> (d - 1) * A >= 0;
    assert d <= -1 ==> (d + 1) * A <= 0;
  }

  lemma SmallMod(x: nat, m: nat)
    requires x < m
    ensures x % m == x
  {
    ModUnique(x, m, 0, x);
  }

  ghost predicate StaysEqual<T>(a: seq<T>, b: seq<T>, i: nat)
    requires i + 1 < |a| == |b|
  {
    a[i] == b[i] ==> a[i + 1] == b[i + 1]
  }

  lemma {:induction false} EqualOn<T>(a: seq<T>, b: seq<T>, n: nat)
    requires n < |a| == |b| && a[0] == b[0]
    requires forall i: nat {:trigger StaysEqual(a, b, i)} :: i + 1 < |a| ==> StaysEqual(a, b, i)
    ensures a[n] == b[n]
  {
    if n > 0 {
      EqualOn(a, b, n - 1);
      assert StaysEqual(a, b, n - 1);
    }
  }
}
