/**
 The 32-bit words of SHA-256: the operations of FIPS 180-4 sections 3.2 and 4.1.2, and those of the macros of
 os/lib/sha-256.c, which are other expressions for the same values.
 */
module Sha256Words {
  import opened HashSpec
  import opened Sha256Constants
  import opened Sha256Spec
  import opened Sha256Agree
  import opened Sha256Transform

  // ------------------------------------------------------------------ FIPS 180-4

  function Add(x: word, y: word): word { x + y }

  function Ch(x: word, y: word, z: word): word { (x & y) ^ (!x & z) }

  function Maj(x: word, y: word, z: word): word { (x & y) ^ (x & z) ^ (y & z) }

  function BigSigma0(x: word): word { x.RotateRight(2) ^ x.RotateRight(13) ^ x.RotateRight(22) }

  function BigSigma1(x: word): word { x.RotateRight(6) ^ x.RotateRight(11) ^ x.RotateRight(25) }

  function SmallSigma0(x: word): word { x.RotateRight(7) ^ x.RotateRight(18) ^ (x >> 3) }

  function SmallSigma1(x: word): word { x.RotateRight(17) ^ x.RotateRight(19) ^ (x >> 10) }

  /** Section 3.1: a word from its bytes, the most significant first. */
  function Decode(a: byte, b: byte, c: byte, d: byte): word
  {
    (a as word) * 0x100_0000 + (b as word) * 0x1_0000 + (c as word) * 0x100 + (d as word)
  }

  function EncodeWord(x: word): (byte, byte, byte, byte)
  {
    (((x >> 24) & 0xff) as byte, ((x >> 16) & 0xff) as byte, ((x >> 8) & 0xff) as byte, (x & 0xff) as byte)
  }

  function Fips(): Primitives<word>
  {
    Primitives(Add, Ch, Maj, BigSigma0, BigSigma1, SmallSigma0, SmallSigma1, K, IV, Decode, EncodeWord, 0)
  }

  /** Writing a word out and reading it back gives the word. */
  lemma EncodedWord(x: word)
    ensures var (a, b, c, d) := EncodeWord(x); Decode(a, b, c, d) == x
  {
  }

  /** The constants are those of FIPS 180-4. */
  lemma FipsConstants()
    ensures AllCubeRoots(Fips().k, PRIMES) && |Fips().iv| == 8
    ensures forall t: nat {:trigger Fips().iv[t]} :: t < 8 ==> IsSquareRootOf(Fips().iv[t], PRIMES[t])
  {
    RoundConstants();
    InitialValues();
  }

  // ------------------------------------------------------- the macros of the source

  function ChMacro(x: word, y: word, z: word): word { (x & (y ^ z)) ^ z }

  function MajMacro(x: word, y: word, z: word): word { (x & (y | z)) | (y & z) }

  function S0(x: word): word { ((x >> 2) | (x << 30)) ^ ((x >> 13) | (x << 19)) ^ ((x >> 22) | (x << 10)) }

  function S1(x: word): word { ((x >> 6) | (x << 26)) ^ ((x >> 11) | (x << 21)) ^ ((x >> 25) | (x << 7)) }

  function SmallS0(x: word): word { ((x >> 7) | (x << 25)) ^ ((x >> 18) | (x << 14)) ^ (x >> 3) }

  function SmallS1(x: word): word { ((x >> 17) | (x << 15)) ^ ((x >> 19) | (x << 13)) ^ (x >> 10) }

  function Be32Dec(a: byte, b: byte, c: byte, d: byte): word
  {
    ((a as word) << 24) | ((b as word) << 16) | ((c as word) << 8) | (d as word)
  }

  function Macros(): Primitives<word>
  {
    Primitives(Add, ChMacro, MajMacro, S0, S1, SmallS0, SmallS1, K, IV, Be32Dec, EncodeWord, 0)
  }

  // ----------------------------------------------------------------- they agree

  lemma Choice(x: word, y: word, z: word)
    ensures (x & y) ^ (!x & z) == (x & (y ^ z)) ^ z
  {
  }

  lemma Majority(x: word, y: word, z: word)
    ensures (x & y) ^ (x & z) ^ (y & z) == (x & (y | z)) | (y & z)
  {
  }

  lemma SameChoice(x: word, y: word, z: word)
    ensures Ch(x, y, z) == ChMacro(x, y, z) && Maj(x, y, z) == MajMacro(x, y, z)
  {
    Choice(x, y, z);
    Majority(x, y, z);
  }

  lemma SameSigmas(x: word)
    ensures BigSigma0(x) == S0(x) && BigSigma1(x) == S1(x) && SmallSigma0(x) == SmallS0(x) &&
            SmallSigma1(x) == SmallS1(x)
  {
  }

  lemma SameDecoding(a: byte, b: byte, c: byte, d: byte)
    ensures Decode(a, b, c, d) == Be32Dec(a, b, c, d)
  {
  }

  lemma MacrosAgree()
    ensures Agree(Macros(), Fips())
  {
    var p, q := Macros(), Fips();
    forall x, y, z {:trigger AgreeOn(p, q, x, y, z)} ensures AgreeOn(p, q, x, y, z) {
      SameChoice(x, y, z);
      SameSigmas(x);
    }
    forall a, b, c, d {:trigger AgreeOnBytes(p, q, a, b, c, d)} ensures AgreeOnBytes(p, q, a, b, c, d) {
      SameDecoding(a, b, c, d);
    }
  }

  lemma AddCommutes(x: word, y: word)
    ensures x + y == y + x
  {
  }

  lemma AddAssociates(x: word, y: word, z: word)
    ensures (x + y) + z == x + (y + z)
  {
  }

  /** The laws of addition from the values of the sums. */
  lemma LawsFrom<W>(p: Primitives<W>, x: W, y: W, z: W, xy: W, yz: W, sum: W)
    requires p.add(x, y) == xy && p.add(y, x) == xy && p.add(y, z) == yz && p.add(xy, z) == sum && p.add(x, yz) == sum
    ensures AddLaws(p, x, y, z)
  {
  }

  lemma MacrosAdd(x: word, y: word)
    ensures Macros().add(x, y) == x + y
  {
  }

  lemma MacrosAddLaws(x: word, y: word, z: word)
    ensures AddLaws(Macros(), x, y, z)
  {
    AddCommutes(x, y);
    AddAssociates(x, y, z);
    MacrosAdd(x, y);
    MacrosAdd(y, x);
    MacrosAdd(y, z);
    MacrosAdd(x + y, z);
    MacrosAdd(x, y + z);
    LawsFrom(Macros(), x, y, z, x + y, y + z, x + (y + z));
  }

  lemma MacrosAdditive()
    ensures Additive(Macros())
  {
    var p := Macros();
    forall x, y, z {:trigger AddLaws(p, x, y, z)} ensures AddLaws(p, x, y, z) {
      MacrosAddLaws(x, y, z);
    }
  }

  /** The hash that the source computes with its macros is SHA-256 on every message. */
  lemma MacrosGiveSha256(m: seq<byte>)
    ensures Macros().Ok() && Fips().Ok() && Sha(Macros()).Ok() && Sha(Fips()).Ok()
    ensures Digest(Sha(Macros()), m) == Digest(Sha(Fips()), m)
  {
    MacrosGiveDigest(m, 8 * |m|);
  }

  lemma MacrosGiveDigest(m: seq<byte>, bits: nat)
    ensures Macros().Ok() && Fips().Ok() && Sha(Macros()).Ok() && Sha(Fips()).Ok()
    ensures DigestOf(Sha(Macros()), m, bits) == DigestOf(Sha(Fips()), m, bits)
  {
    MacrosAgree();
    SameDigest(Macros(), Fips(), m, bits);
  }

  /** The two hashers hash alike, with any bit count. */
  lemma MacrosHashAlike()
    ensures Macros().Ok() && Fips().Ok() && Sha(Macros()).Ok() && Sha(Fips()).Ok()
    ensures HashAlike(Sha(Macros()), Sha(Fips()))
  {
    MacrosGiveDigest([], 0);
    forall m, bits: nat {:trigger DigestOf(Sha(Macros()), m, bits)}
      ensures DigestOf(Sha(Macros()), m, bits) == DigestOf(Sha(Fips()), m, bits)
    {
      MacrosGiveDigest(m, bits);
    }
  }

  /** So are its HMAC tags those of HMAC with SHA-256. */
  lemma MacrosGiveHmac(key: seq<byte>, m: seq<byte>)
    ensures Macros().Ok() && Fips().Ok() && Sha(Macros()).Ok() && Sha(Fips()).Ok()
    ensures Hmac(Sha(Macros()), key, m) == Hmac(Sha(Fips()), key, m)
  {
    MacrosHashAlike();
    SameHmac(Sha(Macros()), Sha(Fips()), key, m);
  }

  /** Two hashers give the same digest of every message with every bit count. */
  ghost predicate HashAlike<S(!new), T(!new)>(h: Hasher<S>, g: Hasher<T>)
    requires h.Ok() && g.Ok()
  {
    forall m, bits: nat {:trigger DigestOf(h, m, bits)} :: DigestOf(h, m, bits) == DigestOf(g, m, bits)
  }

  lemma SameHmac<S(!new), T(!new)>(h: Hasher<S>, g: Hasher<T>, key: seq<byte>, m: seq<byte>)
    requires h.Ok() && g.Ok() && HashAlike(h, g)
    ensures Hmac(h, key, m) == Hmac(g, key, m)
  {
    assert BlockKey(h, key) == BlockKey(g, key);
  }
}
