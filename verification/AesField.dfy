/**
 The laws of the columns in AES follow from those of addition and of multiplication by two: the matrix products are
 linear, so it is enough to know what they do to columns with one byte that is not zero.
 */
module AesField {
  import opened AesSpec

  ghost predicate AddLaws<B>(o: Ops<B>, x: B, y: B, z: B)
  {
    o.xor(x, y) == o.xor(y, x) && o.xor(o.xor(x, y), z) == o.xor(x, o.xor(y, z)) && o.xor(x, x) == o.zero &&
      o.xor(x, o.zero) == x
  }

  ghost predicate DoubleLaws<B>(o: Ops<B>, x: B, y: B)
  {
    o.mul2(o.xor(x, y)) == o.xor(o.mul2(x), o.mul2(y))
  }

  /** Addition has the laws of a group of exponent two, and doubling is linear. */
  ghost predicate Field<B(!new)>(o: Ops<B>)
  {
    && (forall x, y, z {:trigger AddLaws(o, x, y, z)} :: AddLaws(o, x, y, z))
    && (forall x, y {:trigger DoubleLaws(o, x, y)} :: DoubleLaws(o, x, y))
  }

  lemma Interchange<B(!new)>(o: Ops<B>, x: B, y: B, z: B, w: B)
    requires Field(o)
    ensures o.xor(o.xor(x, y), o.xor(z, w)) == o.xor(o.xor(x, z), o.xor(y, w))
  {
    assert AddLaws(o, x, y, o.xor(z, w)) && AddLaws(o, y, z, w) && AddLaws(o, z, y, w) && AddLaws(o, x, z, o.xor(y, w));
  }

  lemma Cancel<B(!new)>(o: Ops<B>, x: B, y: B)
    requires Field(o)
    ensures o.xor(o.xor(x, y), y) == x && o.xor(x, y) == o.xor(y, x)
  {
    assert AddLaws(o, x, y, y) && AddLaws(o, y, y, y) && AddLaws(o, x, x, x);
  }

  // --------------------------------------------------------------- linear maps

  /** MixAt is linear. */
  lemma MixAdds<B(!new)>(o: Ops<B>, a: B, b: B, c: B, d: B, a': B, b': B, c': B, d': B)
    requires Field(o)
    ensures MixAt(o, o.xor(a, a'), o.xor(b, b'), o.xor(c, c'), o.xor(d, d')) ==
            o.xor(MixAt(o, a, b, c, d), MixAt(o, a', b', c', d'))
  {
    assert DoubleLaws(o, a, a') && DoubleLaws(o, b, b');
    var t, t' := o.xor(o.mul2(b), b), o.xor(o.mul2(b'), b');
    Interchange(o, o.mul2(b), o.mul2(b'), b, b');
    Interchange(o, o.mul2(a), o.mul2(a'), t, t');
    var u, u' := o.xor(o.mul2(a), t), o.xor(o.mul2(a'), t');
    Interchange(o, u, u', c, c');
    Interchange(o, o.xor(u, c), o.xor(u', c'), d, d');
  }

  lemma PowersAdd<B(!new)>(o: Ops<B>, x: B, y: B)
    requires Field(o)
    ensures o.mul2(o.xor(x, y)) == o.xor(o.mul2(x), o.mul2(y))
    ensures Mul4(o, o.xor(x, y)) == o.xor(Mul4(o, x), Mul4(o, y)) &&
            Mul8(o, o.xor(x, y)) == o.xor(Mul8(o, x), Mul8(o, y))
  {
    assert DoubleLaws(o, x, y) && DoubleLaws(o, o.mul2(x), o.mul2(y)) &&
      DoubleLaws(o, o.mul2(o.mul2(x)), o.mul2(o.mul2(y)));
  }

  lemma Mul14Adds<B(!new)>(o: Ops<B>, x: B, y: B)
    requires Field(o)
    ensures Mul14(o, o.xor(x, y)) == o.xor(Mul14(o, x), Mul14(o, y))
  {
    PowersAdd(o, x, y);
    Interchange(o, Mul4(o, x), Mul4(o, y), o.mul2(x), o.mul2(y));
    Interchange(o, Mul8(o, x), Mul8(o, y), o.xor(Mul4(o, x), o.mul2(x)), o.xor(Mul4(o, y), o.mul2(y)));
  }

  lemma Mul13Adds<B(!new)>(o: Ops<B>, x: B, y: B)
    requires Field(o)
    ensures Mul13(o, o.xor(x, y)) == o.xor(Mul13(o, x), Mul13(o, y))
  {
    PowersAdd(o, x, y);
    Interchange(o, Mul4(o, x), Mul4(o, y), x, y);
    Interchange(o, Mul8(o, x), Mul8(o, y), o.xor(Mul4(o, x), x), o.xor(Mul4(o, y), y));
  }

  lemma Mul11Adds<B(!new)>(o: Ops<B>, x: B, y: B)
    requires Field(o)
    ensures Mul11(o, o.xor(x, y)) == o.xor(Mul11(o, x), Mul11(o, y))
  {
    PowersAdd(o, x, y);
    Interchange(o, o.mul2(x), o.mul2(y), x, y);
    Interchange(o, Mul8(o, x), Mul8(o, y), o.xor(o.mul2(x), x), o.xor(o.mul2(y), y));
  }

  lemma Mul9Adds<B(!new)>(o: Ops<B>, x: B, y: B)
    requires Field(o)
    ensures Mul9(o, o.xor(x, y)) == o.xor(Mul9(o, x), Mul9(o, y))
  {
    PowersAdd(o, x, y);
    Interchange(o, Mul8(o, x), Mul8(o, y), x, y);
  }

  /** InvMixAt is linear. */
  lemma InvMixAdds<B(!new)>(o: Ops<B>, a: B, b: B, c: B, d: B, a': B, b': B, c': B, d': B)
    requires Field(o)
    ensures InvMixAt(o, o.xor(a, a'), o.xor(b, b'), o.xor(c, c'), o.xor(d, d'))
            == o.xor(InvMixAt(o, a, b, c, d), InvMixAt(o, a', b', c', d'))
  {
    Mul14Adds(o, a, a');
    Mul11Adds(o, b, b');
    Mul13Adds(o, c, c');
    Mul9Adds(o, d, d');
    var s, s', t, t' := Mul14(o, a), Mul14(o, a'), Mul11(o, b), Mul11(o, b');
    var u, u', v, v' := Mul13(o, c), Mul13(o, c'), Mul9(o, d), Mul9(o, d');
    Interchange(o, s, s', t, t');
    Interchange(o, u, u', v, v');
    Interchange(o, o.xor(s, t), o.xor(s', t'), o.xor(u, v), o.xor(u', v'));
  }

  // ------------------------------------------------------- products of products

  /** The first row of the inverse product of the product, and of the product of the inverse product. */
  function Back<B>(o: Ops<B>, a: B, b: B, c: B, d: B): B
  {
    InvMixAt(o, MixAt(o, a, b, c, d), MixAt(o, b, c, d, a), MixAt(o, c, d, a, b), MixAt(o, d, a, b, c))
  }

  function Forth<B>(o: Ops<B>, a: B, b: B, c: B, d: B): B
  {
    MixAt(o, InvMixAt(o, a, b, c, d), InvMixAt(o, b, c, d, a), InvMixAt(o, c, d, a, b), InvMixAt(o, d, a, b, c))
  }

  lemma BackAdds<B(!new)>(o: Ops<B>, a: B, b: B, c: B, d: B, a': B, b': B, c': B, d': B)
    requires Field(o)
    ensures Back(o, o.xor(a, a'), o.xor(b, b'), o.xor(c, c'), o.xor(d, d')) ==
            o.xor(Back(o, a, b, c, d), Back(o, a', b', c', d'))
  {
    MixAdds(o, a, b, c, d, a', b', c', d');
    MixAdds(o, b, c, d, a, b', c', d', a');
    MixAdds(o, c, d, a, b, c', d', a', b');
    MixAdds(o, d, a, b, c, d', a', b', c');
    InvMixAdds(o, MixAt(o, a, b, c, d), MixAt(o, b, c, d, a), MixAt(o, c, d, a, b), MixAt(o, d, a, b, c),
      MixAt(o, a', b', c', d'), MixAt(o, b', c', d', a'), MixAt(o, c', d', a', b'), MixAt(o, d', a', b', c'));
  }

  lemma ForthAdds<B(!new)>(o: Ops<B>, a: B, b: B, c: B, d: B, a': B, b': B, c': B, d': B)
    requires Field(o)
    ensures Forth(o, o.xor(a, a'), o.xor(b, b'), o.xor(c, c'), o.xor(d, d')) ==
            o.xor(Forth(o, a, b, c, d), Forth(o, a', b', c', d'))
  {
    InvMixAdds(o, a, b, c, d, a', b', c', d');
    InvMixAdds(o, b, c, d, a, b', c', d', a');
    InvMixAdds(o, c, d, a, b, c', d', a', b');
    InvMixAdds(o, d, a, b, c, d', a', b', c');
    MixAdds(o, InvMixAt(o, a, b, c, d), InvMixAt(o, b, c, d, a), InvMixAt(o, c, d, a, b), InvMixAt(o, d, a, b, c),
      InvMixAt(o, a', b', c', d'), InvMixAt(o, b', c', d', a'), InvMixAt(o, c', d', a', b'),
        InvMixAt(o, d', a', b', c'));
  }

  /** The two products undo each other on columns with a single byte. */
  ghost predicate SingleLaws<B>(o: Ops<B>, x: B)
  {
    && Back(o, x, o.zero, o.zero, o.zero) == x && Back(o, o.zero, x, o.zero, o.zero) == o.zero
    && Back(o, o.zero, o.zero, x, o.zero) == o.zero && Back(o, o.zero, o.zero, o.zero, x) == o.zero
    && Forth(o, x, o.zero, o.zero, o.zero) == x && Forth(o, o.zero, x, o.zero, o.zero) == o.zero
    && Forth(o, o.zero, o.zero, x, o.zero) == o.zero && Forth(o, o.zero, o.zero, o.zero, x) == o.zero
  }

  lemma Zeros<B(!new)>(o: Ops<B>, x: B)
    requires Field(o)
    ensures o.xor(x, o.zero) == x && o.xor(o.zero, x) == x
  {
    assert AddLaws(o, x, o.zero, x) && AddLaws(o, o.zero, x, x);
  }

  function Mul3<B>(o: Ops<B>, a: B): B { o.xor(o.mul2(a), a) }

  /** The entries of the two matrices times a byte: their products with each other's columns. */
  ghost predicate BackLaws<B>(o: Ops<B>, x: B)
  {
    var x2, x3 := o.mul2(x), Mul3(o, x);
    && InvMixAt(o, x2, x, x, x3) == x && InvMixAt(o, x3, x2, x, x) == o.zero
    && InvMixAt(o, x, x3, x2, x) == o.zero && InvMixAt(o, x, x, x3, x2) == o.zero
  }

  ghost predicate ForthLaws<B>(o: Ops<B>, x: B)
  {
    var e, b, d, n := Mul14(o, x), Mul11(o, x), Mul13(o, x), Mul9(o, x);
    && MixAt(o, e, n, d, b) == x && MixAt(o, b, e, n, d) == o.zero
    && MixAt(o, d, b, e, n) == o.zero && MixAt(o, n, d, b, e) == o.zero
  }

  lemma DoubleZero<B(!new)>(o: Ops<B>)
    requires Field(o)
    ensures o.mul2(o.zero) == o.zero
  {
    var z := o.zero;
    Zeros(o, z);
    assert DoubleLaws(o, z, z) && AddLaws(o, o.mul2(z), z, z);
  }

  lemma SingleRows<B(!new)>(o: Ops<B>, x: B)
    requires Field(o)
    ensures MixAt(o, x, o.zero, o.zero, o.zero) == o.mul2(x) && MixAt(o, o.zero, x, o.zero, o.zero) == Mul3(o, x)
    ensures MixAt(o, o.zero, o.zero, x, o.zero) == x && MixAt(o, o.zero, o.zero, o.zero, x) == x
    ensures InvMixAt(o, x, o.zero, o.zero, o.zero) == Mul14(o, x) &&
            InvMixAt(o, o.zero, x, o.zero, o.zero) == Mul11(o, x)
    ensures InvMixAt(o, o.zero, o.zero, x, o.zero) == Mul13(o, x) &&
            InvMixAt(o, o.zero, o.zero, o.zero, x) == Mul9(o, x)
  {
    var z := o.zero;
    DoubleZero(o);
    Zeros(o, z);
    Zeros(o, x);
    Zeros(o, o.mul2(x));
    Zeros(o, Mul3(o, x));
    Zeros(o, Mul14(o, x));
    Zeros(o, Mul11(o, x));
    Zeros(o, Mul13(o, x));
    Zeros(o, Mul9(o, x));
  }

  lemma SinglesUndone<B(!new)>(o: Ops<B>, x: B)
    requires Field(o) && BackLaws(o, x) && ForthLaws(o, x)
    ensures SingleLaws(o, x)
  {
    SingleRows(o, x);
  }

  /** So they undo each other on all columns. */
  lemma MixUndone<B(!new)>(o: Ops<B>, a: B, b: B, c: B, d: B)
    requires Field(o) && SingleLaws(o, a) && SingleLaws(o, b) && SingleLaws(o, c) && SingleLaws(o, d)
    ensures MixLaws(o, a, b, c, d)
  {
    var z := o.zero;
    Zeros(o, a);
    Zeros(o, b);
    Zeros(o, c);
    Zeros(o, d);
    Zeros(o, z);
    BackAdds(o, a, z, z, z, z, b, z, z);
    BackAdds(o, z, z, c, z, z, z, z, d);
    BackAdds(o, a, b, z, z, z, z, c, d);
    ForthAdds(o, a, z, z, z, z, b, z, z);
    ForthAdds(o, z, z, c, z, z, z, z, d);
    ForthAdds(o, a, b, z, z, z, z, c, d);
  }

  /** One multiplication in a row instead of two. */
  lemma TrickRow<B(!new)>(o: Ops<B>, a: B, b: B, c: B, d: B)
    requires Field(o)
    ensures o.xor(o.xor(a, o.mul2(o.xor(a, b))), o.xor(o.xor(o.xor(a, b), c), d)) == MixAt(o, a, b, c, d)
  {
    assert DoubleLaws(o, a, b);
    var a2, b2 := o.mul2(a), o.mul2(b);
    var s := o.xor(a2, b2);
    assert AddLaws(o, o.xor(a, s), o.xor(o.xor(a, b), c), d) && AddLaws(o, o.xor(a, s), o.xor(a, b), c);
    assert AddLaws(o, s, a, a) && AddLaws(o, a, s, s);
    assert AddLaws(o, s, a, o.xor(a, b)) && AddLaws(o, a, a, b) && AddLaws(o, a2, b2, b);
    Zeros(o, b);
  }

  lemma SumTurns<B(!new)>(o: Ops<B>, a: B, b: B, c: B, d: B)
    requires Field(o)
    ensures o.xor(o.xor(o.xor(a, b), c), d) == o.xor(o.xor(o.xor(b, c), d), a)
  {
    assert AddLaws(o, a, b, c) && AddLaws(o, a, o.xor(b, c), d) && AddLaws(o, a, o.xor(o.xor(b, c), d), a);
  }

  lemma TrickIsMix<B(!new)>(o: Ops<B>, a: B, b: B, c: B, d: B)
    requires Field(o)
    ensures TrickLaws(o, a, b, c, d)
  {
    SumTurns(o, a, b, c, d);
    SumTurns(o, b, c, d, a);
    SumTurns(o, c, d, a, b);
    TrickRow(o, a, b, c, d);
    TrickRow(o, b, c, d, a);
    TrickRow(o, c, d, a, b);
    TrickRow(o, d, a, b, c);
  }

  lemma ColumnUndone<B(!new)>(o: Ops<B>, a: B, b: B, c: B, d: B)
    requires Field(o)
    requires forall x {:trigger BackLaws(o, x)} :: BackLaws(o, x)
    requires forall x {:trigger ForthLaws(o, x)} :: ForthLaws(o, x)
    ensures MixLaws(o, a, b, c, d)
  {
    assert BackLaws(o, a) && BackLaws(o, b) && BackLaws(o, c) && BackLaws(o, d);
    assert ForthLaws(o, a) && ForthLaws(o, b) && ForthLaws(o, c) && ForthLaws(o, d);
    SinglesUndone(o, a);
    SinglesUndone(o, b);
    SinglesUndone(o, c);
    SinglesUndone(o, d);
    MixUndone(o, a, b, c, d);
  }

  /** Everything that the cipher needs. */
  lemma FieldIsLawful<B(!new)>(o: Ops<B>)
    requires Field(o)
    requires forall x {:trigger SubLaws(o, x)} :: SubLaws(o, x)
    requires forall x {:trigger BackLaws(o, x)} :: BackLaws(o, x)
    requires forall x {:trigger ForthLaws(o, x)} :: ForthLaws(o, x)
    ensures Lawful(o)
  {
    forall x, y, z {:trigger XorLaws(o, x, y, z)} ensures XorLaws(o, x, y, z) {
      assert AddLaws(o, x, y, z);
      Cancel(o, x, y);
    }
    forall a, b, c, d {:trigger MixLaws(o, a, b, c, d)} ensures MixLaws(o, a, b, c, d) {
      ColumnUndone(o, a, b, c, d);
    }
    forall a, b, c, d {:trigger TrickLaws(o, a, b, c, d)} ensures TrickLaws(o, a, b, c, d) {
      TrickIsMix(o, a, b, c, d);
    }
  }
}
