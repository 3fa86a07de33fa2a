/**
 os/lib/trickle-timer.c: the bounds on Imin and Imax for a clock of W bits, and the search for the largest Imax.
 */
module TrickleConfig {
  import opened Arith
  import opened Bits

  // ----------------------------------------------------------------- max_imax

  lemma ShiftOut(mask: nat, m: nat, p: nat, q: nat, r: nat)
    requires mask + q == m && p > 0 && q * p == r && 0 < r <= m
    ensures mask * p % m == m - r
  {
    assert mask * p + q * p == m * p by {
      Distribute(mask, q, p);
    }
    ModUnique(mask * p, m, p - 1, m - r);
  }

  lemma Distribute(x: nat, y: nat, p: nat)
    ensures x * p + y * p == (x + y) * p
  {
  }

  /** Shifting the mask of the top 2i bits by i gives the mask of the top i bits. */
  lemma ShiftMask(w: nat, i: nat, n: nat, mask: nat)
    requires i <= n < w && mask + Pow2(n - i) == Pow2(w)
    ensures mask * Pow2(i) % Pow2(w) == Pow2(w) - Pow2(n)
  {
    Pow2Grows(n, w);
    Pow2Add(n - i, i);
    ShiftOut(mask, Pow2(w), Pow2(i), Pow2(n - i), Pow2(n));
  }

  /** The largest number of doublings that keeps Imin within 2^(w-1). */
  ghost predicate LargestImax(w: nat, iMin: nat, k: nat)
    requires w > 0
  {
    iMin * Pow2(k) <= Pow2(w - 1) < iMin * Pow2(k + 1)
  }

  /** The search has found that the top `zeros` bits of v are zero and that there is a one among the next 2i bits. */
  ghost predicate Halving(w: nat, v: nat, zeros: nat, value: nat, i: nat)
  {
    && zeros + 2 * i <= w && value == v * Pow2(zeros) && value < Pow2(w) && Pow2(w - 2 * i) <= value
  }

  lemma HalvingShift(w: nat, v: nat, zeros: nat, value: nat, i: nat, j: nat)
    requires i > 0 && 2 * i <= w && Halving(w, v, zeros, value, i) && value < Pow2(w - i) && i == 2 * j + i % 2
    ensures value * Pow2(i) < Pow2(w) && value * Pow2(i) == v * Pow2(zeros + i) && Pow2(w - i) <= value * Pow2(i)
  {
    Pow2Add(w - i, i);
    Pow2Add(w - 2 * i, i);
    Pow2Add(zeros, i);
    Less(value, Pow2(w - i), Pow2(i));
    Scale(Pow2(w - 2 * i), value, Pow2(i));
    Regroup(v, Pow2(zeros), Pow2(i));
  }

  lemma Regroup(x: nat, y: nat, z: nat)
    ensures (x * y) * z == x * (y * z)
  {
  }

  /** The masked test tells whether the top i bits are zero. */
  ghost predicate MaskTells(w: nat, i: nat, mask: nat, value: nat)
    requires i <= w
  {
    And(value, mask) == 0 <==> value < Pow2(w - i)
  }

  /** One halving step of max_imax. */
  method HalvingStep(w: nat, i: nat, mask: nat, zeros: nat, value: nat, ghost v: nat) returns (zeros': nat, value': nat)
    requires i > 0 && 2 * i <= w
    ensures zeros' == if And(value, mask) == 0 then zeros + i else zeros
    ensures Halving(w, v, zeros, value, i) && MaskTells(w, i, mask, value) ==> Halved(w, v, zeros', value', i)
  {
    zeros', value' := zeros, value;
    if And(value, mask) == 0 {
      zeros' := zeros + i;
      value' := value * Pow2(i) % Pow2(w);
      HalvedByShift(w, v, zeros, value, i, mask);
    }
  }

  /** After the step, there is a one among the top i bits. */
  ghost predicate Halved(w: nat, v: nat, zeros: nat, value: nat, i: nat)
    requires i <= w
  {
    value == v * Pow2(zeros) && Pow2(w - i) <= value < Pow2(w)
  }

  lemma HalvedByShift(w: nat, v: nat, zeros: nat, value: nat, i: nat, mask: nat)
    requires i > 0 && 2 * i <= w && And(value, mask) == 0
    ensures Halving(w, v, zeros, value, i) && MaskTells(w, i, mask, value) ==>
              Halved(w, v, zeros + i, value * Pow2(i) % Pow2(w), i)
  {
    if Halving(w, v, zeros, value, i) && MaskTells(w, i, mask, value) {
      HalvingShift(w, v, zeros, value, i, i / 2);
      SmallMod(value * Pow2(i), Pow2(w));
    }
  }

  /** The numbers of bits that are halved: powers of two. */
  ghost predicate PowerOfTwo(i: nat)
  {
    i == 1 || (i > 1 && i % 2 == 0 && PowerOfTwo(i / 2))
  }

  /** With a clock of 64 bits, the first mask covers bits 32 to 47 only: the number has a bit above and none there. */
  predicate Overlooked(w: nat, x: nat)
  {
    w == 64 && x >= 0x1_0000_0000_0000 && x / 0x1_0000_0000 % 0x1_0000 == 0
  }

  /** The state of the search before bits are halved i at a time, or at its end for i = 0. */
  ghost predicate Searching(w: nat, v: nat, zeros: nat, value: nat, i: nat)
  {
    && zeros + 2 * i <= w
    && (!Overlooked(w, v) && i > 0 ==> Halving(w, v, zeros, value, i))
    && (!Overlooked(w, v) && i == 0 ==> zeros < w && value == v * Pow2(zeros) && Pow2(w - 1) <= value < Pow2(w))
    && (Overlooked(w, v) ==> if 2 * i == w then value == v else zeros >= 32)
    && (i == 0 ==> zeros < w)
  }

  lemma SearchBegins(w: nat, v: nat, i: nat)
    requires w == 2 * i && (i == 8 || i == 16 || i == 32) && 1 <= v < Pow2(w - 1)
    ensures PowerOfTwo(i) && Searching(w, v, 0, v, i)
  {
    assert PowerOfTwo(i / 4);
    assert PowerOfTwo(i / 2);
    Pow2Grows(w - 1, w);
    Unshifted(v);
  }

  /** max_imax, generic flavour: it finds the largest Imax iff the first mask overlooks nothing. */
  method MaxImax(w: nat, iMin: nat) returns (k: nat)
    requires (w == 16 || w == 32 || w == 64) && 2 <= iMin < Pow2(w - 1)
    ensures k + 1 < w
    ensures LargestImax(w, iMin, k) <==> !Overlooked(w, iMin - 1)
    ensures Overlooked(w, iMin - 1) ==> iMin * Pow2(k) > Pow2(w - 1)
  {
    var zeros: nat := 0;
    var mask: nat := 0xFFFF;
    var value: nat := iMin - 1;
    var i: nat := w / 2;
    ghost var v := value;
    SearchBegins(w, v, i);
    while i > 0
      invariant i == 0 || PowerOfTwo(i)
      invariant 2 * i <= w && Searching(w, v, zeros, value, i)
      invariant i > 0 ==> MaskIs(w, i, mask)
    {
      mask, zeros, value := SearchStep(w, i, mask, zeros, value, v);
      i := i / 2;
    }
    ImaxFound(w, iMin, zeros, value);
    k := zeros - 1;
  }

  /** The mask before the step for i. */
  ghost predicate MaskIs(w: nat, i: nat, mask: nat)
    requires 2 * i <= w
  {
    if 2 * i == w then mask == 0xFFFF
    else if w == 64 && i == 16 then mask == 0xFFFF_0000_0000
    else mask == Pow2(w) - Pow2(w - 2 * i)
  }

  /** The body of the loop of max_imax. */
  method SearchStep(w: nat, i: nat, mask: nat, zeros: nat, value: nat, ghost v: nat)
    returns (mask': nat, zeros': nat, value': nat)
    requires (w == 16 || w == 32 || w == 64) && PowerOfTwo(i) && 2 * i <= w && MaskIs(w, i, mask)
    requires Searching(w, v, zeros, value, i)
    ensures i > 1 ==> MaskIs(w, i / 2, mask')
    ensures Searching(w, v, zeros', value', i / 2)
  {
    mask' := mask * Pow2(i) % Pow2(w);
    MaskShifted(w, i, mask);
    if i > 1 {
      MaskKept(w, i, mask');
    }
    MaskWorks(w, i, mask', v, zeros, value);
    zeros', value' := HalvingStep(w, i, mask', zeros, value, v);
  }

  /** The mask for the step for i. */
  ghost predicate StepMask(w: nat, i: nat, mask: nat)
    requires 2 * i <= w
  {
    if w == 64 && i == 32 then mask == 0xFFFF_0000_0000 else mask == Pow2(w) - Pow2(w - i)
  }

  lemma MaskShifted(w: nat, i: nat, mask: nat)
    requires (w == 16 || w == 32 || w == 64) && PowerOfTwo(i) && 2 * i <= w && MaskIs(w, i, mask)
    ensures StepMask(w, i, mask * Pow2(i) % Pow2(w))
  {
    if w == 64 && i >= 16 {
      SixteenOrThirtyTwo(w, i);
      ConstantMask(w, i, mask);
    } else if 2 * i == w {
      ConstantMask(w, i, mask);
    } else {
      TopMask(w, i, mask);
    }
  }

  lemma TopMask(w: nat, i: nat, mask: nat)
    requires 0 < i && 2 * i < w && (w != 64 || i < 16) && MaskIs(w, i, mask)
    ensures StepMask(w, i, mask * Pow2(i) % Pow2(w))
  {
    Pow2Grows(w - 2 * i, w);
    ShiftMask(w, i, w - i, mask);
  }

  /** The shifts of masks that are not yet masks of the top bits. */
  lemma ConstantMask(w: nat, i: nat, mask: nat)
    requires (w == 16 && i == 8) || (w == 32 && i == 16) || (w == 64 && (i == 16 || i == 32))
    requires MaskIs(w, i, mask)
    ensures StepMask(w, i, mask * Pow2(i) % Pow2(w))
  {
    Powers(w);
    Powers(i);
    Powers(w - i);
    ConstantShift(mask, Pow2(i), Pow2(w));
  }

  lemma ConstantShift(mask: nat, p: nat, m: nat)
    requires m > 0 && mask > 0
    ensures mask == 0xFFFF && p == 0x100 && m == 0x1_0000 ==> mask * p % m == 0xFF00
    ensures mask == 0xFFFF && p == 0x1_0000 && m == 0x1_0000_0000 ==> mask * p % m == 0xFFFF_0000
    ensures mask == 0xFFFF && p == 0x1_0000_0000 && m == 0x1_0000_0000_0000_0000 ==> mask * p % m == 0xFFFF_0000_0000
    ensures mask == 0xFFFF_0000_0000 && p == 0x1_0000 && m == 0x1_0000_0000_0000_0000 ==>
              mask * p % m == 0xFFFF_0000_0000_0000
  {
  }

  /** The mask of one step is the one before the next. */
  lemma MaskKept(w: nat, i: nat, mask: nat)
    requires PowerOfTwo(i) && 1 < i && 2 * i <= w && StepMask(w, i, mask)
    ensures MaskIs(w, i / 2, mask)
  {
    Halves(i);
  }

  lemma SixteenOrThirtyTwo(w: nat, i: nat)
    requires w == 64 && 16 <= i <= 32 && PowerOfTwo(i)
    ensures i == 16 || i == 32
  {
    Halves(i);
    Halves(i / 2);
    Halves(i / 2 / 2);
    Halves(i / 2 / 2 / 2);
  }

  lemma Halves(i: nat)
    requires PowerOfTwo(i) && i > 1
    ensures i % 2 == 0 && PowerOfTwo(i / 2)
  {
  }

  /** The test with this mask tells what it should, or, if the number is overlooked, comes out zero. */
  lemma MaskWorks(w: nat, i: nat, mask: nat, v: nat, zeros: nat, value: nat)
    requires 0 < i && 2 * i <= w && StepMask(w, i, mask) && Searching(w, v, zeros, value, i)
    ensures !Overlooked(w, v) ==> MaskTells(w, i, mask, value)
    ensures Overlooked(w, v) && 2 * i == w ==> And(value, mask) == 0
  {
    if w == 64 && i == 32 {
      if !Overlooked(w, v) {
        Unshifted(v);
      }
      Powers(w - i);
      MiddleMask(w, i, 16, value);
    } else if !Overlooked(w, v) {
      AndTop(value, w - i, w);
    }
  }

  /** The powers that the code writes as constants. */
  lemma Powers(n: nat)
    ensures n == 8 ==> Pow2(n) == 0x100
    ensures n == 15 ==> Pow2(n) == 0x8000
    ensures n == 16 ==> Pow2(n) == 0x1_0000
    ensures n == 31 ==> Pow2(n) == 0x8000_0000
    ensures n == 32 ==> Pow2(n) == 0x1_0000_0000
    ensures n == 47 ==> Pow2(n) == 0x8000_0000_0000
    ensures n == 48 ==> Pow2(n) == 0x1_0000_0000_0000
    ensures n == 63 ==> Pow2(n) == 0x8000_0000_0000_0000
    ensures n == 64 ==> Pow2(n) == 0x1_0000_0000_0000_0000
  {
    if n == 8 || n == 15 {
      FirstPowers(n);
    } else if n >= 16 {
      var k := 16;
      FirstPowers(k);
      Pow2Add(n - k, k);
      Powers(n - k);
    }
  }

  lemma FirstPowers(n: nat)
    requires n == 8 || n == 15 || n == 16
    ensures Pow2(n) == if n == 8 then 0x100 else if n == 15 then 0x8000 else 0x1_0000
  {
    assert Pow2(8) == 0x100 && Pow2(15) == 0x8000 && Pow2(16) == 2 * Pow2(15);
  }

  // -------------------------------------------- the first mask of a 64-bit clock

  /** The first test of a 64-bit clock tells what it should, or the number is overlooked. */
  lemma MiddleMask(w: nat, n: nat, m: nat, x: nat)
    requires w == 64 && n == 32 && m == 16
    ensures And(x, 0xFFFF_0000_0000) == 0 <==> x / 0x1_0000_0000 % 0x1_0000 == 0
    ensures !Overlooked(w, x) ==> (And(x, 0xFFFF_0000_0000) == 0 <==> x < 0x1_0000_0000)
  {
    var q, r := Split(x);
    AndMiddle(n, m, q, r);
  }

  /** The bits from 32 on, and those below. */
  lemma Split(x: nat) returns (q: nat, r: nat)
    ensures x == q * 0x1_0000_0000 + r && r < 0x1_0000_0000 && q == x / 0x1_0000_0000
    ensures x < 0x1_0000_0000_0000 <==> q < 0x1_0000
    ensures q < 0x1_0000 ==> (q % 0x1_0000 == 0 <==> x < 0x1_0000_0000)
    ensures x < 0x1_0000_0000 ==> q == 0
  {
    q, r := x / 0x1_0000_0000, x % 0x1_0000_0000;
  }

  lemma AndMiddle(n: nat, m: nat, q: nat, r: nat)
    requires n == 32 && m == 16 && r < 0x1_0000_0000
    ensures And(q * 0x1_0000_0000 + r, 0xFFFF_0000_0000) == 0 <==> q % 0x1_0000 == 0
  {
    Powers(n);
    Powers(m);
    AndShifted(q, r, n, Pow2(m) - 1);
    AndMod(q, m);
  }

  /** The search is over. */
  lemma ImaxFound(w: nat, iMin: nat, zeros: nat, value: nat)
    requires (w == 16 || w == 32 || w == 64) && 2 <= iMin < Pow2(w - 1) && Searching(w, iMin - 1, zeros, value, 0)
    ensures 0 < zeros < w && (LargestImax(w, iMin, zeros - 1) <==> !Overlooked(w, iMin - 1))
    ensures Overlooked(w, iMin - 1) ==> iMin * Pow2(zeros - 1) > Pow2(w - 1)
  {
    if Overlooked(w, iMin - 1) {
      TooLarge(w, iMin, zeros - 1, 31);
      Pow2Grows(zeros - 1, zeros);
    } else {
      ZerosGiveImax(w, iMin, zeros);
    }
  }

  lemma TooLarge(w: nat, iMin: nat, k: nat, n: nat)
    requires iMin >= 2 && Overlooked(w, iMin - 1) && k >= n == 31
    ensures iMin * Pow2(k) > Pow2(w - 1)
  {
    Powers(n);
    Powers(w - 1);
    Pow2Grows(n, k);
    Commute(iMin, Pow2(n), Pow2(k));
  }

  lemma Commute(x: nat, p: nat, q: nat)
    requires p <= q
    ensures x * p <= x * q
  {
  }

  /** The leading zeros of Imin - 1 are one more than the largest Imax. */
  lemma ZerosGiveImax(w: nat, iMin: nat, zeros: nat)
    requires zeros < w && 2 <= iMin < Pow2(w - 1) && Pow2(w - 1) <= (iMin - 1) * Pow2(zeros) < Pow2(w)
    ensures zeros > 0 && LargestImax(w, iMin, zeros - 1)
  {
    assert zeros > 0;
    Pow2Add(zeros - 1, w - zeros);
    Bracketed(iMin, Pow2(zeros - 1), Pow2(w - zeros));
  }

  lemma Bracketed(x: nat, p: nat, q: nat)
    requires 0 < x && 0 < p && p * q <= (x - 1) * (2 * p) < 2 * (p * q)
    ensures x * p <= p * q < x * (2 * p)
  {
    Associate2(x - 1, p);
    if x > q {
      Scale(q, x - 1, p);
    }
    Scale(x, q, p);
    Less(x - 1, x, 2 * p);
  }

  // ------------------------------------------------------- the checks of config

  /** x after m doublings. */
  function Doubled(x: nat, m: nat): (r: nat)
    ensures x <= r
  {
    if m == 0 then x else 2 * Doubled(x, m - 1)
  }

  lemma {:induction false} DoubledIs(x: nat, m: nat)
    ensures Doubled(x, m) == x * Pow2(m)
  {
    if m > 0 {
      DoubledIs(x, m - 1);
      Associate2(x, Pow2(m - 1));
    }
  }

  lemma OneBelow(p: nat, q: nat)
    requires p > 0 && q > 0
    ensures (q * p - 1) / p == q - 1
  {
    assert q * p - 1 == (q - 1) * p + (p - 1);
    ModUnique(q * p - 1, p, q - 1, p - 1);
  }

  /** TRICKLE_TIMER_IPAIR_IS_BAD, for shifts that C defines: Imin doubled Imax times exceeds half the clock range. */
  lemma PairIsBad(w: nat, iMin: nat, iMax: nat)
    requires iMax + 1 < w && iMin > 0
    ensures (Pow2(w) - 1) / Pow2(iMax + 1) < iMin - 1 <==> Doubled(iMin, iMax) > Pow2(w - 1)
  {
    var q := Pow2(w - iMax - 1);
    Pow2Add(w - iMax - 1, iMax + 1);
    Pow2Add(w - iMax - 1, iMax);
    OneBelow(Pow2(iMax + 1), q);
    DoubledIs(iMin, iMax);
    Compare(iMin, q, Pow2(iMax));
  }

  lemma Compare(x: nat, q: nat, p: nat)
    requires p > 0
    ensures x * p > q * p <==> x > q
  {
    if x <= q {
      Scale(x, q, p);
    } else {
      Less(q, x, p);
    }
  }

  lemma {:induction false} DoubledGrows(x: nat, a: nat, b: nat)
    requires a <= b
    ensures Doubled(x, a) <= Doubled(x, b)
  {
    if a < b {
      DoubledGrows(x, a, b - 1);
    }
  }

  /** No larger Imax than the largest fits. */
  lemma LargestIsLargest(w: nat, iMin: nat, k: nat, m: nat)
    requires w > 0 && LargestImax(w, iMin, k)
    ensures Doubled(iMin, m) <= Pow2(w - 1) <==> m <= k
  {
    if m <= k {
      DoubledGrows(iMin, m, k);
      DoubledIs(iMin, k);
    } else {
      DoubledGrows(iMin, k + 1, m);
      DoubledIs(iMin, k + 1);
    }
  }
}
