/**
 Powers of two and bit masks on numbers.
 */
module Bits {
  import opened Arith

  function Pow2(n: nat): (p: nat)
    ensures p > 0
  {
    if n == 0 then 1 else 2 * Pow2(n - 1)
  }

  lemma {:induction false} Pow2Add(a: nat, b: nat)
    ensures Pow2(a + b) == Pow2(a) * Pow2(b)
  {
    if a > 0 {
      Pow2Add(a - 1, b);
      Associate(Pow2(a - 1), Pow2(b));
    }
  }

  lemma Associate(x: nat, y: nat)
    ensures 2 * (x * y) == (2 * x) * y
  {
  }

  lemma {:induction false} Pow2Grows(a: nat, b: nat)
    requires a <= b
    ensures Pow2(a) <= Pow2(b) && (a < b ==> 2 * Pow2(a) <= Pow2(b))
  {
    if a < b {
      Pow2Grows(a, b - 1);
    }
  }

  lemma Less(x: nat, y: nat, p: nat)
    requires x < y && p > 0
    ensures x * p < y * p && (x + 1) * p <= y * p
  {
    Scale(x + 1, y, p);
  }

  lemma Scale(x: nat, y: nat, p: nat)
    requires x <= y
    ensures x * p <= y * p
  {
  }

  // ----------------------------------------------------------------- bit masks

  /** The bitwise and of two numbers. */
  function And(x: nat, y: nat): nat
    decreases x
  {
    if x == 0 then 0 else 2 * And(x / 2, y / 2) + (x % 2) * (y % 2)
  }

  /** None of the bits from n to w - 1 is set iff the number is below 2^n. */
  lemma {:induction false} AndTop(x: nat, n: nat, w: nat)
    requires n <= w && x < Pow2(w)
    ensures Pow2(n) <= Pow2(w) && (And(x, Pow2(w) - Pow2(n)) == 0 <==> x < Pow2(n))
    decreases n
  {
    Pow2Grows(n, w);
    if n == 0 {
      AndAll(x, w);
    } else {
      HalfMask(n, w);
      AndTop(x / 2, n - 1, w - 1);
    }
  }

  lemma HalfMask(n: nat, w: nat)
    requires 0 < n <= w && Pow2(n) <= Pow2(w)
    ensures Pow2(n - 1) <= Pow2(w - 1) && (Pow2(w) - Pow2(n)) / 2 == Pow2(w - 1) - Pow2(n - 1) &&
            (Pow2(w) - Pow2(n)) % 2 == 0
  {
    Pow2Grows(n - 1, w - 1);
  }

  /** Masking with ones is the remainder. */
  lemma {:induction false} AndMod(q: nat, m: nat)
    ensures And(q, Pow2(m) - 1) == q % Pow2(m)
    decreases m
  {
    if m == 0 {
      AndNothing(q);
    } else {
      AndMod(q / 2, m - 1);
      HalfMod(q, Pow2(m - 1));
      AndOdd(q, Pow2(m - 1) - 1);
    }
  }

  lemma AndAll(x: nat, w: nat)
    requires x < Pow2(w)
    ensures And(x, Pow2(w) - 1) == x
  {
    AndMod(x, w);
    SmallMod(x, Pow2(w));
  }

  lemma AndOdd(q: nat, b: nat)
    ensures And(q, 2 * b + 1) == 2 * And(q / 2, b) + q % 2
  {
    if q == 0 {
    } else {
      assert (2 * b + 1) / 2 == b && (2 * b + 1) % 2 == 1;
    }
  }

  lemma {:induction false} AndNothing(q: nat)
    ensures And(q, 0) == 0
  {
    if q > 0 {
      AndNothing(q / 2);
    }
  }

  lemma HalfMod(q: nat, p: nat)
    requires p > 0
    ensures q % (2 * p) == 2 * (q / 2 % p) + q % 2
  {
    var t, r := q / 2 / p, q / 2 % p;
    assert q == 2 * (t * p + r) + q % 2;
    Associate2(t, p);
    ModUnique(q, 2 * p, t, 2 * r + q % 2);
  }

  lemma {:induction false} AndShifted(q: nat, r: nat, n: nat, m: nat)
    requires r < Pow2(n)
    ensures And(q * Pow2(n) + r, m * Pow2(n)) == 0 <==> And(q, m) == 0
    decreases n
  {
    if n > 0 {
      AndShifted(q, r / 2, n - 1, m);
      var a, b, x := q * Pow2(n - 1), m * Pow2(n - 1), q * Pow2(n) + r;
      Associate2(q, Pow2(n - 1));
      Associate2(m, Pow2(n - 1));
      HalfSum(x, a, r);
      HalfEven(x, a + r / 2, b);
    } else {
      Unshifted(q);
      Unshifted(m);
    }
  }

  lemma HalfSum(x: nat, a: nat, r: nat)
    requires x == 2 * a + r
    ensures x / 2 == a + r / 2
  {
  }

  lemma HalfEven(x: nat, half: nat, b: nat)
    requires x / 2 == half
    ensures And(x, 2 * b) == 0 <==> And(half, b) == 0
  {
    if x == 0 {
    } else {
      assert 2 * b / 2 == b && 2 * b % 2 == 0;
      assert And(x, 2 * b) == 2 * And(half, b) + (x % 2) * 0;
    }
  }

  lemma Associate2(x: nat, p: nat)
    ensures x * (2 * p) == 2 * (x * p)
  {
  }

  lemma Unshifted(v: nat)
    ensures v * Pow2(0) == v
  {
  }
}
