/**
 The S-box of FIPS 197 section 5.1.1 by its definition, against the table of os/lib/aes-128.c.
 */
module AesSbox {
  import opened AesBytes

  /** The product in the field of section 4.2, one bit of y at a time. */
  function Times(x: byte, y: byte): byte
  {
    var x1 := Mul2(x);
    var x2 := Mul2(x1);
    var x3 := Mul2(x2);
    var x4 := Mul2(x3);
    var x5 := Mul2(x4);
    var x6 := Mul2(x5);
    var x7 := Mul2(x6);
    (if y & 1 == 1 then x else 0) ^ (if y & 2 == 2 then x1 else 0) ^ (if y & 4 == 4 then x2 else 0)
    ^ (if y & 8 == 8 then x3 else 0) ^ (if y & 16 == 16 then x4 else 0) ^ (if y & 32 == 32 then x5 else 0)
    ^ (if y & 64 == 64 then x6 else 0) ^ (if y & 128 == 128 then x7 else 0)
  }

  /** The second step of the S-box. */
  function Affine(b: byte): byte
  {
    b ^ b.RotateLeft(1) ^ b.RotateLeft(2) ^ b.RotateLeft(3) ^ b.RotateLeft(4) ^ 0x63
  }

  function UnAffine(b: byte): byte
  {
    b.RotateLeft(1) ^ b.RotateLeft(3) ^ b.RotateLeft(6) ^ 0x05
  }

  /** The first step: y is the multiplicative inverse of x, or zero for zero. */
  ghost predicate Inverse(x: byte, y: byte)
  {
    if x == 0 then y == 0 else Times(x, y) == 1
  }

  lemma AffineUndone(b: byte)
    ensures Affine(UnAffine(b)) == b
  {
  }

  lemma ZeroUndone()
    ensures UnAffine(Sbox(0)) == 0
  {
  }

  lemma LowerHalf(x: byte) returns (y: byte)
    requires x < 0x80
    ensures y == UnAffine(Sbox(x)) && Times(x, y) == if x == 0 then 0 else 1
  {
    y := UnAffine(Sbox(x));
  }

  lemma UpperHalf(x: byte) returns (y: byte)
    requires x >= 0x80
    ensures y == UnAffine(Sbox(x)) && Times(x, y) == 1
  {
    y := UnAffine(Sbox(x));
  }

  /** The entries of the table are products of inverses. */
  lemma TableInverts(x: byte) returns (y: byte)
    ensures y == UnAffine(Sbox(x)) && Inverse(x, y)
  {
    if x < 0x80 {
      y := LowerHalf(x);
      ZeroUndone();
    } else {
      y := UpperHalf(x);
    }
  }

  /** Every entry of the table is the affine image of the inverse. */
  lemma TableIsSbox(x: byte)
    ensures exists y {:trigger Inverse(x, y)} :: Inverse(x, y) && Sbox(x) == Affine(y)
  {
    var y := TableInverts(x);
    AffineUndone(Sbox(x));
  }
}
