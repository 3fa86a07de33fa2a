/**
 How a hash function is built from a compression function on blocks of 64 bytes (FIPS 180-4, sections
 5.1.1 and 6.2), and HMAC (RFC 2104) and HKDF (RFC 5869) on top of it.
 */
module HashSpec {
  import opened ByteFacts

  type byte = bv8

  /** A compression function on hash values, the initial hash value, and the digest of a hash value. */
  datatype Hasher<!S(!new)> = Hasher(compress: (S, seq<byte>) -> S, iv: S, encode: S -> seq<byte>)
  {
    /** Digests have 32 bytes. */
    ghost predicate Ok()
    {
      forall s {:trigger encode(s)} :: |encode(s)| == 32
    }
  }

  // --------------------------------------------------- sections 5.1.1 and 6.2

  /** The k-th byte of n, counted from the least significant. */
  function Digit(n: nat, k: nat): (d: nat)
    ensures d < 256
  {
    if k == 0 then n % 256 else Digit(n / 256, k - 1)
  }

  /** The last `count` bytes of n in big-endian order. */
  function BigEndian(n: nat, count: nat): (b: seq<byte>)
    ensures |b| == count
  {
    seq(count, i requires 0 <= i < count => Digit(n, count - 1 - i) as byte)
  }

  /** The number that bytes stand for, the first one the most significant. */
  function ValueOf(b: seq<byte>): nat
  {
    if b == [] then 0 else 256 * ValueOf(b[..|b| - 1]) + b[|b| - 1] as nat
  }

  function Pow256(n: nat): nat
  {
    if n == 0 then 1 else 256 * Pow256(n - 1)
  }

  /** The bytes of n stand for n, if they are enough. */
  lemma {:induction false} BigEndianValue(n: nat, count: nat)
    requires n < Pow256(count)
    ensures ValueOf(BigEndian(n, count)) == n
  {
    if count > 0 {
      var b := BigEndian(n, count);
      BigEndianParts(n, count);
      BigEndianValue(n / 256, count - 1);
      ByteRoundTrip(n % 256);
    }
  }

  lemma BigEndianParts(n: nat, count: nat)
    requires count > 0
    ensures BigEndian(n, count)[..count - 1] == BigEndian(n / 256, count - 1)
    ensures BigEndian(n, count)[count - 1] == (n % 256) as byte
  {
    var b, h := BigEndian(n, count), BigEndian(n / 256, count - 1);
    forall i: nat | i < count - 1
      ensures b[i] == h[i]
    {
      NextDigit(n, count - 1 - i);
    }
    assert b[..count - 1] == h && b[count - 1] == Digit(n, 0) as byte;
  }

  lemma NextDigit(n: nat, k: nat)
    requires k > 0
    ensures Digit(n, k) == Digit(n / 256, k - 1)
  {
  }

  /** The number of blocks of a padded message of n bytes: the least that has room for a one bit and the length. */
  function PaddedBlocks(n: nat): (k: nat)
    ensures n + 9 <= 64 * k < n + 9 + 64
  {
    if n < 56 then 1 else if n < 64 then 2 else 1 + PaddedBlocks(n - 64)
  }

  /** The padding of a message of n bytes whose length in bits is given as `bits`: a one bit, zero bits up to the
      length, and the length. */
  function Padding(n: nat, bits: nat): (b: seq<byte>)
    ensures n + |b| == 64 * PaddedBlocks(n)
  {
    [0x80] + seq(64 * PaddedBlocks(n) - n - 9, _ => 0) + BigEndian(bits, 8)
  }

  /** The hash value after the first k blocks of m. */
  function Fold<S>(f: (S, seq<byte>) -> S, h: S, m: seq<byte>, k: nat): S
    requires 64 * k <= |m|
  {
    if k == 0 then h else f(Fold(f, h, m, k - 1), m[64 * (k - 1)..64 * k])
  }

  /** The digest of m when its bit length is taken to be `bits`. */
  function DigestOf<S(!new)>(h: Hasher<S>, m: seq<byte>, bits: nat): (d: seq<byte>)
    requires h.Ok()
    ensures |d| == 32
  {
    h.encode(Fold(h.compress, h.iv, m + Padding(|m|, bits), PaddedBlocks(|m|)))
  }

  /** The digest of m. */
  function Digest<S(!new)>(h: Hasher<S>, m: seq<byte>): (d: seq<byte>)
    requires h.Ok()
    ensures |d| == 32
  {
    DigestOf(h, m, 8 * |m|)
  }

  // ------------------------------------------------------------ RFC 2104, section 2

  /** K0: the key, hashed if it is longer than a block, filled up with zeros. */
  function BlockKey<S(!new)>(h: Hasher<S>, key: seq<byte>): (k0: seq<byte>)
    requires h.Ok()
    ensures |k0| == 64
  {
    var k := if |key| > 64 then Digest(h, key) else key;
    k + seq(64 - |k|, _ => 0)
  }

  function XorAll(b: seq<byte>, x: byte): (r: seq<byte>)
    ensures |r| == |b|
  {
    seq(|b|, i requires 0 <= i < |b| => b[i] ^ x)
  }

  function Hmac<S(!new)>(h: Hasher<S>, key: seq<byte>, m: seq<byte>): (d: seq<byte>)
    requires h.Ok()
    ensures |d| == 32
  {
    var k0 := BlockKey(h, key);
    Digest(h, XorAll(k0, 0x5c) + Digest(h, XorAll(k0, 0x36) + m))
  }

  // ------------------------------------------------------------ RFC 5869, section 2.3

  /** T(i). */
  function HkdfBlock<S(!new)>(h: Hasher<S>, prk: seq<byte>, info: seq<byte>, i: nat): (t: seq<byte>)
    requires h.Ok() && i <= 255
    ensures |t| == if i == 0 then 0 else 32
  {
    if i == 0 then [] else Hmac(h, prk, HkdfBlock(h, prk, info, i - 1) + info + [i as byte])
  }

  /** T(1) | T(2) | ... | T(n). */
  function HkdfStream<S(!new)>(h: Hasher<S>, prk: seq<byte>, info: seq<byte>, n: nat): (s: seq<byte>)
    requires h.Ok() && n <= 255
    ensures |s| == 32 * n
  {
    if n == 0 then [] else HkdfStream(h, prk, info, n - 1) + HkdfBlock(h, prk, info, n)
  }
}
