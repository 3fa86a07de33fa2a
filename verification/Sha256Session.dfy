/**
 os/lib/sha-256.c: the hash sessions over the static checkpoint.
 */
module Sha256Session {
  import opened HashSpec
  import opened Sha256Spec
  import opened Sha256Transform

  /** sha_256_checkpoint_t. */
  datatype Checkpoint<S> = Checkpoint(bitCount: nat, state: S, buf: seq<byte>, bufLen: nat, opad: seq<byte>)

  const COUNT_MOD: nat := 0x1_0000_0000_0000_0000

  /** The first k blocks of m are mixed in and the rest of m is buffered. */
  ghost predicate Split<S>(f: (S, seq<byte>) -> S, iv: S, state: S, buf: seq<byte>, bufLen: nat, m: seq<byte>, k: nat)
  {
    64 * k <= |m| == 64 * k + bufLen && |buf| == 64 && bufLen < 64 && state == Fold(f, iv, m, k) &&
      buf[..bufLen] == m[64 * k..]
  }

  /** The hash value and the buffer stand for the message m: all its whole blocks are mixed in. The bit count is
      left aside. */
  ghost predicate Holds<S>(f: (S, seq<byte>) -> S, iv: S, state: S, buf: seq<byte>, bufLen: nat, m: seq<byte>)
  {
    && |buf| == 64 && bufLen < 64
    && forall k {:trigger Split(f, iv, state, buf, bufLen, m, k)} :: 64 * k <= |m| < 64 * k + 64 ==>
      Split(f, iv, state, buf, bufLen, m, k)
  }

  lemma SplitHolds<S>(f: (S, seq<byte>) -> S, iv: S, state: S, buf: seq<byte>, bufLen: nat, m: seq<byte>, k: nat)
    requires Split(f, iv, state, buf, bufLen, m, k)
    ensures Holds(f, iv, state, buf, bufLen, m)
  {
  }

  /** The checkpoint has taken in exactly the message m, with a bit count of `bits` modulo 2^64. */
  ghost predicate Absorbed<S(!new)>(h: Hasher<S>, cp: Checkpoint<S>, m: seq<byte>, bits: nat)
  {
    Holds(h.compress, h.iv, cp.state, cp.buf, cp.bufLen, m) && cp.bitCount == bits % COUNT_MOD
  }

  // ---------------------------------------------------------------- big endian

  /** be32enc. */
  function Be32(u: nat): (b: seq<byte>)
    ensures |b| == 4
  {
    [(u / 0x100_0000 % 256) as byte, (u / 0x1_0000 % 256) as byte, (u / 0x100 % 256) as byte, (u % 256) as byte]
  }

  /** be64enc. */
  function Be64(u: nat): (b: seq<byte>)
    ensures |b| == 8
  {
    Be32(u / 0x1_0000_0000) + Be32(u % 0x1_0000_0000)
  }

  lemma FourDigits(u: nat)
    ensures Digit(u, 0) == u % 256 && Digit(u, 1) == u / 0x100 % 256
    ensures Digit(u, 2) == u / 0x1_0000 % 256 && Digit(u, 3) == u / 0x100_0000 % 256
  {
    DigitChain(u, u / 0x100, u / 0x1_0000, u / 0x100_0000, 0);
  }

  lemma DigitChain(u: nat, d1: nat, d2: nat, d3: nat, k: nat)
    requires d1 == u / 256 && d2 == d1 / 256 && d3 == d2 / 256
    ensures Digit(u, k + 1) == Digit(d1, k) && Digit(u, k + 2) == Digit(d2, k) && Digit(u, k + 3) == Digit(d3, k)
    ensures Digit(u, k + 4) == Digit(d3 / 256, k)
  {
    assert Digit(u, k + 2) == Digit(d1, k + 1);
    assert Digit(u, k + 3) == Digit(d1, k + 2) == Digit(d2, k + 1);
    assert Digit(u, k + 4) == Digit(d1, k + 3) == Digit(d2, k + 2) == Digit(d3, k + 1);
  }

  /** The bytes of the upper half. */
  lemma UpperDigit(u: nat, k: nat)
    ensures Digit(u, k + 4) == Digit(u / 0x1_0000_0000, k)
  {
    DigitChain(u, u / 0x100, u / 0x1_0000, u / 0x100_0000, k);
  }

  lemma DropMultiple(q: nat, x: nat)
    ensures (q * 0x100 + x) % 256 == x % 256
  {
  }

  lemma HighPart(q: nat, v: nat)
    ensures (q * 0x1_0000_0000 + v) / 0x100 == (q * 0x1_0000) * 0x100 + v / 0x100
    ensures (q * 0x1_0000_0000 + v) / 0x1_0000 == (q * 0x100) * 0x100 + v / 0x1_0000
    ensures (q * 0x1_0000_0000 + v) / 0x100_0000 == q * 0x100 + v / 0x100_0000
  {
  }

  /** Only the low 32 bits matter to be32enc. */
  lemma Be32Low(u: nat)
    ensures Be32(u) == Be32(u % 0x1_0000_0000)
  {
    var q, v := u / 0x1_0000_0000, u % 0x1_0000_0000;
    assert u == q * 0x1_0000_0000 + v;
    HighPart(q, v);
    DropMultiple(q * 0x100_0000, v);
    DropMultiple(q * 0x1_0000, v / 0x100);
    DropMultiple(q * 0x100, v / 0x1_0000);
    DropMultiple(q, v / 0x100_0000);
  }

  lemma BigEndianAt(u: nat, c: nat, i: nat)
    requires i < c
    ensures BigEndian(u, c)[i] == Digit(u, c - 1 - i) as byte
  {
  }

  lemma FourElements(b: seq<byte>, b0: byte, b1: byte, b2: byte, b3: byte)
    requires |b| == 4 && b[0] == b0 && b[1] == b1 && b[2] == b2 && b[3] == b3
    ensures b == [b0, b1, b2, b3]
  {
  }

  lemma FourBytes(u: nat, d3: nat, d2: nat, d1: nat, d0: nat)
    requires d3 == Digit(u, 3) && d2 == Digit(u, 2) && d1 == Digit(u, 1) && d0 == Digit(u, 0)
    ensures BigEndian(u, 4) == [d3 as byte, d2 as byte, d1 as byte, d0 as byte]
  {
    BigEndianAt(u, 4, 0);
    BigEndianAt(u, 4, 1);
    BigEndianAt(u, 4, 2);
    BigEndianAt(u, 4, 3);
    FourElements(BigEndian(u, 4), d3 as byte, d2 as byte, d1 as byte, d0 as byte);
  }

  lemma Be32IsBigEndian(u: nat)
    ensures Be32(u) == BigEndian(u, 4)
  {
    FourDigits(u);
    FourBytes(u, u / 0x100_0000 % 256, u / 0x1_0000 % 256, u / 0x100 % 256, u % 256);
  }

  lemma BigEndianHalves(u: nat)
    ensures BigEndian(u, 8) == BigEndian(u / 0x1_0000_0000, 4) + BigEndian(u, 4)
  {
    UpperDigit(u, 0);
    UpperDigit(u, 1);
    UpperDigit(u, 2);
    UpperDigit(u, 3);
  }

  lemma Be64IsBigEndian(u: nat)
    ensures Be64(u) == BigEndian(u, 8)
  {
    BigEndianHalves(u);
    Be32Low(u);
    Be32IsBigEndian(u);
    Be32IsBigEndian(u / 0x1_0000_0000);
  }

  /** be64enc: the eight bytes of a count in big-endian order. */
  method EncodeCount(u: nat) returns (b: seq<byte>)
    ensures b == BigEndian(u, 8)
  {
    Be64IsBigEndian(u);
    b := Be64(u);
  }

  // ------------------------------------------------------------ blocks of a message

  /** Only the blocks that are folded matter. */
  lemma {:induction false} FoldPrefix<S>(f: (S, seq<byte>) -> S, h: S, m: seq<byte>, all: seq<byte>, k: nat)
    requires 64 * k <= |m| && m <= all
    ensures Fold(f, h, m, k) == Fold(f, h, all, k)
  {
    if k > 0 {
      FoldPrefix(f, h, m, all, k - 1);
      assert m[64 * (k - 1)..64 * k] == all[64 * (k - 1)..64 * k];
    }
  }

  /** memcpy of b into a at position i. */
  function Overwrite(a: seq<byte>, i: nat, b: seq<byte>): (r: seq<byte>)
    requires i + |b| <= |a|
    ensures |r| == |a|
  {
    a[..i] + b + a[i + |b|..]
  }

  /** The start of the buffer after a memcpy behind its first i bytes. */
  lemma OverwriteStart(a: seq<byte>, i: nat, b: seq<byte>)
    requires i + |b| <= |a|
    ensures Overwrite(a, i, b)[..i + |b|] == a[..i] + b
  {
  }

  /** The last block, not complete, of a message that is made longer. */
  lemma TailOfConcat(m: seq<byte>, data: seq<byte>, n: nat)
    requires n <= |m|
    ensures (m + data)[n..] == m[n..] + data && m <= m + data
  {
  }

  /** Data that fits in the buffer. */
  lemma BufferMore<S>(f: (S, seq<byte>) -> S, iv: S, state: S, buf: seq<byte>, bufLen: nat, m: seq<byte>,
      data: seq<byte>)
    requires Holds(f, iv, state, buf, bufLen, m) && |data| < 64 - bufLen
    ensures Holds(f, iv, state, Overwrite(buf, bufLen, data), bufLen + |data|, m + data)
  {
    var k := |m| / 64;
    assert Split(f, iv, state, buf, bufLen, m, k);
    OverwriteStart(buf, bufLen, data);
    TailOfConcat(m, data, 64 * k);
    FoldPrefix(f, iv, m, m + data, k);
    SplitHolds(f, iv, state, Overwrite(buf, bufLen, data), bufLen + |data|, m + data, k);
  }

  /** Data that completes the buffered block. */
  lemma FinishBlock<S>(f: (S, seq<byte>) -> S, iv: S, state: S, buf: seq<byte>, bufLen: nat, m: seq<byte>,
      data: seq<byte>, k: nat)
    requires Holds(f, iv, state, buf, bufLen, m) && |data| >= 64 - bufLen && k == |m| / 64 + 1
    ensures |m| + 64 - bufLen == 64 * k <= |m + data|
    ensures f(state, Overwrite(buf, bufLen, data[..64 - bufLen])) == Fold(f, iv, m + data, k)
  {
    assert Split(f, iv, state, buf, bufLen, m, k - 1);
    FoldPrefix(f, iv, m, m + data, k - 1);
    FilledBlock(buf, bufLen, m, data, k - 1);
    assert Fold(f, iv, m + data, k) == f(Fold(f, iv, m + data, k - 1), (m + data)[64 * (k - 1)..64 * k]);
  }

  lemma FilledBlock(buf: seq<byte>, bufLen: nat, m: seq<byte>, data: seq<byte>, k: nat)
    requires |buf| == 64 && 64 * k + bufLen == |m| && bufLen <= 64 && buf[..bufLen] == m[64 * k..] &&
             |data| >= 64 - bufLen
    ensures Overwrite(buf, bufLen, data[..64 - bufLen]) == (m + data)[64 * k..64 * (k + 1)]
  {
    var x := Overwrite(buf, bufLen, data[..64 - bufLen]);
    OverwriteStart(buf, bufLen, data[..64 - bufLen]);
    assert x[..64] == x;
    TailOfConcat(m, data, 64 * k);
    assert (m + data)[64 * k..64 * (k + 1)] == (m + data)[64 * k..][..64];
    assert (m[64 * k..] + data)[..64] == m[64 * k..] + data[..64 - bufLen];
  }

  /** A complete block of the data. */
  lemma DataBlock<S>(f: (S, seq<byte>) -> S, iv: S, m: seq<byte>, data: seq<byte>, pos: nat, k: nat)
    requires |m| + pos == 64 * k && pos + 64 <= |data|
    ensures f(Fold(f, iv, m + data, k), data[pos..pos + 64]) == Fold(f, iv, m + data, k + 1)
  {
    assert (m + data)[64 * k..64 * (k + 1)] == data[pos..pos + 64];
  }

  lemma LeftOver<S>(f: (S, seq<byte>) -> S, iv: S, state: S, buf: seq<byte>, m: seq<byte>, data: seq<byte>, pos: nat,
      k: nat)
    requires pos <= |data| < pos + 64 && |m| + pos == 64 * k && |buf| == 64
    requires state == Fold(f, iv, m + data, k)
    ensures Holds(f, iv, state, Overwrite(buf, 0, data[pos..]), |data| - pos, m + data)
  {
    assert (m + data)[64 * k..] == data[pos..];
    OverwriteStart(buf, 0, data[pos..]);
    SplitHolds(f, iv, state, Overwrite(buf, 0, data[pos..]), |data| - pos, m + data, k);
  }

  function Zeros(n: nat): (z: seq<byte>)
    ensures |z| == n && forall i :: 0 <= i < n ==> z[i] == 0
  {
    seq(n, _ => 0)
  }

  const PAD: seq<byte> := [0x80] + Zeros(63)

  lemma PadStart(n: nat)
    requires 0 < n <= 64
    ensures PAD[..n] == [0x80] + Zeros(n - 1)
  {
  }

  /** A whole block written in two pieces, the second of eight bytes. */
  lemma OverwriteRest(buf: seq<byte>, i: nat, a: seq<byte>, t: seq<byte>)
    requires |buf| == 64 && i + |a| == 56 && |t| == 8
    ensures Overwrite(Overwrite(buf, i, a), 56, t) == buf[..i] + a + t
  {
    var x := Overwrite(buf, i, a);
    OverwriteStart(buf, i, a);
    assert Overwrite(x, 56, t) == x[..56] + t;
  }

  lemma {:induction false} PaddedBlocksAt(k: nat, i: nat)
    requires i < 64
    ensures PaddedBlocks(64 * k + i) == k + (if i < 56 then 1 else 2)
  {
    if k > 0 {
      PaddedBlocksAt(k - 1, i);
    }
  }

  lemma PaddingShape(k: nat, i: nat, count: nat)
    requires i < 64
    ensures Padding(64 * k + i, count) == [0x80] + Zeros(if i < 56 then 55 - i else 119 - i) + BigEndian(count, 8)
  {
    PaddedBlocksAt(k, i);
  }

  /** The buffer after its tail and the length are written. */
  lemma PadShort(buf: seq<byte>, k: nat, i: nat, count: nat)
    requires |buf| == 64 && i < 56
    ensures Overwrite(Overwrite(buf, i, PAD[..56 - i]), 56, BigEndian(count, 8)) ==
            buf[..i] + Padding(64 * k + i, count)
  {
    OverwriteRest(buf, i, PAD[..56 - i], BigEndian(count, 8));
    PadStart(56 - i);
    PaddingShape(k, i, count);
    Regroup(buf[..i], [0x80] + Zeros(55 - i), BigEndian(count, 8));
  }

  lemma Regroup(a: seq<byte>, b: seq<byte>, c: seq<byte>)
    ensures a + b + c == a + (b + c)
  {
  }

  /** The two blocks when the length does not fit behind the buffered bytes. */
  lemma PadLong(buf: seq<byte>, k: nat, i: nat, count: nat)
    requires |buf| == 64 && 56 <= i < 64
    ensures var b := Overwrite(buf, i, PAD[..64 - i]);
            b + Overwrite(Overwrite(b, 0, Zeros(56)), 56, BigEndian(count, 8)) == buf[..i] + Padding(64 * k + i, count)
  {
    var b := Overwrite(buf, i, PAD[..64 - i]);
    OverwriteStart(buf, i, PAD[..64 - i]);
    assert b[..64] == b;
    PadStart(64 - i);
    OverwriteRest(b, 0, Zeros(56), BigEndian(count, 8));
    PaddingShape(k, i, count);
    ZerosJoin(buf[..i], 63 - i, 56, BigEndian(count, 8));
    assert b[..0] + Zeros(56) == Zeros(56);
  }

  lemma ZerosJoin(a: seq<byte>, x: nat, y: nat, t: seq<byte>)
    ensures (a + ([0x80] + Zeros(x))) + (Zeros(y) + t) == a + ([0x80] + Zeros(x + y) + t)
  {
    assert Zeros(x) + Zeros(y) == Zeros(x + y);
  }

  /** The last block, or the last two, of the padded message. */
  lemma LastBlock<S>(f: (S, seq<byte>) -> S, iv: S, m: seq<byte>, padding: seq<byte>, k: nat, b: seq<byte>)
    requires 64 * k <= |m| && |b| == 64 && m[64 * k..] + padding == b
    ensures |m + padding| == 64 * (k + 1) && Fold(f, iv, m + padding, k + 1) == f(Fold(f, iv, m, k), b)
  {
    TailOfConcat(m, padding, 64 * k);
    FoldPrefix(f, iv, m, m + padding, k);
    assert (m + padding)[64 * k..64 * (k + 1)] == (m + padding)[64 * k..];
  }

  lemma LastTwoBlocks<S>(f: (S, seq<byte>) -> S, iv: S, m: seq<byte>, padding: seq<byte>, k: nat, b: seq<byte>,
      b': seq<byte>)
    requires 64 * k <= |m| && |b| == 64 && |b'| == 64 && m[64 * k..] + padding == b + b'
    ensures |m + padding| == 64 * (k + 2) && Fold(f, iv, m + padding, k + 2) == f(f(Fold(f, iv, m, k), b), b')
  {
    var all := m + padding;
    TailOfConcat(m, padding, 64 * k);
    FoldPrefix(f, iv, m, all, k);
    TwoSlices(all, 64 * k, b, b');
    assert Fold(f, iv, all, k + 1) == f(Fold(f, iv, m, k), b);
  }

  lemma TwoSlices(all: seq<byte>, q: nat, b: seq<byte>, b': seq<byte>)
    requires q <= |all| && all[q..] == b + b' && |b| == 64 && |b'| == 64
    ensures |all| == q + 128 && all[q..q + 64] == b && all[q + 64..q + 128] == b'
  {
    assert all[q..q + 64] == all[q..][..64];
    assert all[q + 64..q + 128] == all[q..][64..];
  }

  /** The block that sha_256_pad mixes in is the rest of the message and its padding. */
  lemma PaddingBlock<S>(f: (S, seq<byte>) -> S, iv: S, state: S, buf: seq<byte>, bufLen: nat, m: seq<byte>, count: nat)
    requires Holds(f, iv, state, buf, bufLen, m) && bufLen < 56
    ensures f(state, Overwrite(Overwrite(buf, bufLen, PAD[..56 - bufLen]), 56, BigEndian(count, 8)))
         == Fold(f, iv, m + Padding(|m|, count), PaddedBlocks(|m|))
  {
    var k := |m| / 64;
    assert Split(f, iv, state, buf, bufLen, m, k);
    ShortTail(f, iv, buf, bufLen, m, count, k);
  }

  lemma ShortTail<S>(f: (S, seq<byte>) -> S, iv: S, buf: seq<byte>, bufLen: nat, m: seq<byte>, count: nat, k: nat)
    requires |m| == 64 * k + bufLen && |buf| == 64 && bufLen < 56 && buf[..bufLen] == m[64 * k..]
    ensures f(Fold(f, iv, m, k), Overwrite(Overwrite(buf, bufLen, PAD[..56 - bufLen]), 56, BigEndian(count, 8)))
         == Fold(f, iv, m + Padding(|m|, count), PaddedBlocks(|m|))
  {
    PaddedBlocksAt(k, bufLen);
    PadShort(buf, k, bufLen, count);
    LastBlock(f, iv, m, Padding(|m|, count), k,
      Overwrite(Overwrite(buf, bufLen, PAD[..56 - bufLen]), 56, BigEndian(count, 8)));
  }

  /** So are the two blocks when the length does not fit into the first. */
  lemma PaddingBlocks<S>(f: (S, seq<byte>) -> S, iv: S, state: S, buf: seq<byte>, bufLen: nat, m: seq<byte>, count: nat)
    requires Holds(f, iv, state, buf, bufLen, m) && bufLen >= 56
    ensures var b := Overwrite(buf, bufLen, PAD[..64 - bufLen]);
            (f(f(state, b), Overwrite(Overwrite(b, 0, Zeros(56)), 56, BigEndian(count, 8)))
             == Fold(f, iv, m + Padding(|m|, count), PaddedBlocks(|m|)))
  {
    var k := |m| / 64;
    assert Split(f, iv, state, buf, bufLen, m, k);
    LongTail(f, iv, buf, bufLen, m, count, k);
  }

  lemma LongTail<S>(f: (S, seq<byte>) -> S, iv: S, buf: seq<byte>, bufLen: nat, m: seq<byte>, count: nat, k: nat)
    requires |m| == 64 * k + bufLen && |buf| == 64 && 56 <= bufLen < 64 && buf[..bufLen] == m[64 * k..]
    ensures var b := Overwrite(buf, bufLen, PAD[..64 - bufLen]);
            (f(f(Fold(f, iv, m, k), b), Overwrite(Overwrite(b, 0, Zeros(56)), 56, BigEndian(count, 8)))
             == Fold(f, iv, m + Padding(|m|, count), PaddedBlocks(|m|)))
  {
    PaddedBlocksAt(k, bufLen);
    PadLong(buf, k, bufLen, count);
    var b := Overwrite(buf, bufLen, PAD[..64 - bufLen]);
    LastTwoBlocks(f, iv, m, Padding(|m|, count), k, b, Overwrite(Overwrite(b, 0, Zeros(56)), 56, BigEndian(count, 8)));
  }

  /** The transform and the compression function agree on this hash value and block. */
  ghost predicate Computes<W(!new)>(p: Primitives<W>, h: Hasher<seq<W>>, s: seq<W>, b: seq<byte>)
  {
    p.Ok() && (|s| == 8 && |b| == 64 ==> h.compress(s, b) == Compress(p, s, b))
  }

  /** So do the two ways to write out the hash value. */
  ghost predicate Encodes<W(!new)>(p: Primitives<W>, h: Hasher<seq<W>>, s: seq<W>)
  {
    |s| == 8 ==> h.encode(s) == Encode(p, s)
  }

  /** The key of HMAC as hmac_init uses it: a long key is hashed, with the bit count that size_t gives. */
  function CountedKey<S(!new)>(h: Hasher<S>, key: seq<byte>, sizeMod: nat): (k0: seq<byte>)
    requires h.Ok() && sizeMod > 0
    ensures |k0| == 64
  {
    var k := if |key| > 64 then DigestOf(h, key, 8 * |key| % sizeMod % COUNT_MOD) else key;
    k + Zeros(64 - |k|)
  }

  lemma AddModulo(a: nat, b: nat)
    ensures (a % COUNT_MOD + b) % COUNT_MOD == (a + b) % COUNT_MOD
  {
    var q := a / COUNT_MOD;
    assert a == q * COUNT_MOD + a % COUNT_MOD;
  }

  /** A length in bits that size_t can hold is counted as it is. */
  lemma CountExact(len: nat, sizeMod: nat)
    requires sizeMod > 0
    ensures 8 * len % sizeMod <= 8 * len && (8 * len % sizeMod == 8 * len <==> 8 * len < sizeMod)
  {
  }

  /** One driver, with its static checkpoint. */
  class Sha256<W(!new)> {
    const p: Primitives<W>
    ghost const h: Hasher<seq<W>>
    /** The number of values of size_t on the platform. */
    const sizeMod: nat
    var checkpoint: Checkpoint<seq<W>>

    ghost predicate Valid()
      reads this
    {
      && p.Ok() && Additive(p) && h.Ok() && h.iv == p.iv && sizeMod >= 0x1_0000
      && (forall s, b {:trigger Computes(p, h, s, b)} :: Computes(p, h, s, b))
      && (forall s {:trigger Encodes(p, h, s)} :: Encodes(p, h, s))
      && |checkpoint.state| == 8 && |checkpoint.buf| == 64 && |checkpoint.opad| == 64
    }

    constructor (primitives: Primitives<W>, sizes: nat)
      requires primitives.Ok() && Additive(primitives) && sizes >= 0x1_0000
      ensures Valid() && p == primitives && sizeMod == sizes && h == Sha(primitives)
      ensures checkpoint.opad == Zeros(64)
    {
      p := primitives;
      h := Sha(primitives);
      sizeMod := sizes;
      checkpoint := Checkpoint(0, seq(8, _ => primitives.zero), seq(64, _ => 0), 0, seq(64, _ => 0));
    }

    /** init: a session that has taken in nothing. */
    method Init()
      requires Valid()
      modifies this
      ensures Valid() && checkpoint.opad == old(checkpoint).opad
      ensures Absorbed(h, checkpoint, [], 0)
    {
      checkpoint := checkpoint.(bitCount := 0, bufLen := 0);
      checkpoint := checkpoint.(state := p.iv);
    }

    /** transform on the checkpoint's state. */
    method TransformState(block: seq<byte>)
      requires Valid() && |block| == 64
      modifies this
      ensures Valid() && checkpoint == old(checkpoint).(state := h.compress(old(checkpoint).state, block))
    {
      var s := Transform(p, checkpoint.state, block);
      assert Computes(p, h, checkpoint.state, block);
      checkpoint := checkpoint.(state := s);
    }

    /** update: however the message is cut into pieces, the checkpoint has taken in their concatenation. */
    method Update(data: seq<byte>, ghost m: seq<byte>, ghost bits: nat)
      requires Valid() && Absorbed(h, checkpoint, m, bits)
      modifies this
      ensures Valid() && checkpoint.opad == old(checkpoint).opad
      ensures Absorbed(h, checkpoint, m + data, bits + 8 * |data| % sizeMod)
    {
      CountBits(|data|, bits);
      var bufLen := checkpoint.bufLen;
      if |data| < 64 - bufLen {
        BufferMore(h.compress, h.iv, checkpoint.state, checkpoint.buf, bufLen, m, data);
        checkpoint := checkpoint.(buf := Overwrite(checkpoint.buf, bufLen, data), bufLen := bufLen + |data|);
      } else {
        UpdateBlocks(data, m);
      }
    }

    method CountBits(len: nat, ghost bits: nat)
      requires Valid() && checkpoint.bitCount == bits % COUNT_MOD
      modifies this
      ensures Valid() && checkpoint == old(checkpoint).(bitCount := (bits + 8 * len % sizeMod) % COUNT_MOD)
    {
      var bitlen := 8 * len % sizeMod;
      AddModulo(bits, bitlen);
      checkpoint := checkpoint.(bitCount := (checkpoint.bitCount + bitlen) % COUNT_MOD);
    }

    /** update with data that completes at least the buffered block. */
    method UpdateBlocks(data: seq<byte>, ghost m: seq<byte>)
      requires Valid() && Holds(h.compress, h.iv, checkpoint.state, checkpoint.buf, checkpoint.bufLen, m)
      requires |data| >= 64 - checkpoint.bufLen
      modifies this
      ensures Valid() && checkpoint.opad == old(checkpoint).opad && checkpoint.bitCount == old(checkpoint).bitCount
      ensures Holds(h.compress, h.iv, checkpoint.state, checkpoint.buf, checkpoint.bufLen, m + data)
    {
      var n := 64 - checkpoint.bufLen;
      ghost var k := |m| / 64 + 1;
      FinishBlock(h.compress, h.iv, checkpoint.state, checkpoint.buf, checkpoint.bufLen, m, data, k);
      checkpoint := checkpoint.(buf := Overwrite(checkpoint.buf, checkpoint.bufLen, data[..n]));
      TransformState(checkpoint.buf);
      var pos;
      pos, k := WholeBlocks(data, n, m, k);
      LeftOver(h.compress, h.iv, checkpoint.state, checkpoint.buf, m, data, pos, k);
      checkpoint := checkpoint.(buf := Overwrite(checkpoint.buf, 0, data[pos..]), bufLen := |data| - pos);
    }

    /** The loop of update over complete blocks. */
    method WholeBlocks(data: seq<byte>, start: nat, ghost m: seq<byte>, ghost first: nat)
      returns (pos: nat, ghost k: nat)
      requires Valid() && start <= |data| && |m| + start == 64 * first
      requires checkpoint.state == Fold(h.compress, h.iv, m + data, first)
      modifies this
      ensures Valid() && start <= pos <= |data| < pos + 64 && |m| + pos == 64 * k
      ensures checkpoint == old(checkpoint).(state := Fold(h.compress, h.iv, m + data, k))
    {
      pos, k := start, first;
      while |data| - pos >= 64
        invariant start <= pos <= |data| && |m| + pos == 64 * k && Valid()
        invariant checkpoint == old(checkpoint).(state := Fold(h.compress, h.iv, m + data, k))
      {
        DataBlock(h.compress, h.iv, m, data, pos, k);
        TransformState(data[pos..pos + 64]);
        pos, k := pos + 64, k + 1;
      }
    }

    /** sha_256_pad: mixes in the padding, in one block or two. */
    method Pad(ghost m: seq<byte>, ghost bits: nat)
      requires Valid() && Absorbed(h, checkpoint, m, bits)
      modifies this
      ensures Valid() && checkpoint.opad == old(checkpoint).opad
      ensures checkpoint.state == Fold(h.compress, h.iv, m + Padding(|m|, bits % COUNT_MOD), PaddedBlocks(|m|))
    {
      var bufLen := checkpoint.bufLen;
      if bufLen < 56 {
        PaddingBlock(h.compress, h.iv, checkpoint.state, checkpoint.buf, bufLen, m, checkpoint.bitCount);
        checkpoint := checkpoint.(buf := Overwrite(checkpoint.buf, bufLen, PAD[..56 - bufLen]));
      } else {
        PaddingBlocks(h.compress, h.iv, checkpoint.state, checkpoint.buf, bufLen, m, checkpoint.bitCount);
        checkpoint := checkpoint.(buf := Overwrite(checkpoint.buf, bufLen, PAD[..64 - bufLen]));
        TransformState(checkpoint.buf);
        checkpoint := checkpoint.(buf := Overwrite(checkpoint.buf, 0, Zeros(56)));
      }
      var count := EncodeCount(checkpoint.bitCount);
      checkpoint := checkpoint.(buf := Overwrite(checkpoint.buf, 56, count));
      TransformState(checkpoint.buf);
    }

    /** be32enc_vect on the checkpoint's state. */
    method EncodeState() returns (digest: seq<byte>)
      requires Valid()
      ensures digest == h.encode(checkpoint.state)
    {
      var s := checkpoint.state;
      digest := [];
      for i := 0 to 8
        invariant digest == Encode(p, s[..i])
      {
        var (b0, b1, b2, b3) := p.encode(s[i]);
        assert s[..i + 1][..i] == s[..i];
        digest := digest + [b0, b1, b2, b3];
      }
      assert s[..8] == s && Encodes(p, h, s);
    }

    /** finalize: the digest of exactly what was taken in; the checkpoint's hash value and buffer are cleared. */
    method Finalize(ghost m: seq<byte>, ghost bits: nat) returns (digest: seq<byte>)
      requires Valid() && Absorbed(h, checkpoint, m, bits)
      modifies this
      ensures Valid() && checkpoint.opad == old(checkpoint).opad
      ensures digest == DigestOf(h, m, bits % COUNT_MOD)
      ensures checkpoint.buf == Zeros(64) && checkpoint.state == seq(8, _ => p.zero)
    {
      Pad(m, bits);
      digest := EncodeState();
      checkpoint := checkpoint.(buf := Zeros(64));
      checkpoint := checkpoint.(state := seq(8, _ => p.zero));
    }

    /** create_checkpoint. */
    method Save() returns (cp: Checkpoint<seq<W>>)
      ensures cp == checkpoint
    {
      cp := checkpoint;
    }

    /** restore_checkpoint. */
    method Restore(cp: Checkpoint<seq<W>>)
      requires Valid() && |cp.state| == 8 && |cp.buf| == 64 && |cp.opad| == 64
      modifies this
      ensures Valid() && checkpoint == cp
    {
      checkpoint := cp;
    }

    /** init and a first update. */
    method Begin(data: seq<byte>)
      requires Valid()
      modifies this
      ensures Valid() && checkpoint.opad == old(checkpoint).opad
      ensures Absorbed(h, checkpoint, data, 8 * |data| % sizeMod)
    {
      Init();
      Update(data, [], 0);
      assert [] + data == data;
    }

    /** sha_256_hash. */
    method Hash(data: seq<byte>) returns (digest: seq<byte>)
      requires Valid()
      modifies this
      ensures Valid() && checkpoint.opad == old(checkpoint).opad
      ensures digest == DigestOf(h, data, 8 * |data| % sizeMod % COUNT_MOD)
    {
      Begin(data);
      digest := Finalize(data, 8 * |data| % sizeMod);
    }

    /** The two loops of sha_256_hmac_init over a key of at most one block. */
    method SplitKey(key: seq<byte>) returns (ipad: seq<byte>)
      requires Valid() && |key| <= 64
      modifies this
      ensures Valid()
      ensures var k0 := key + Zeros(64 - |key|);
              ipad == XorAll(k0, 0x36) && checkpoint == old(checkpoint).(opad := XorAll(k0, 0x5c))
    {
      ghost var k0 := key + Zeros(64 - |key|);
      ipad := Zeros(64);
      var opad := checkpoint.opad;
      var i := 0;
      while i < |key|
        invariant i <= |key| && |ipad| == 64 && |opad| == 64
        invariant forall j :: 0 <= j < i ==> ipad[j] == k0[j] ^ 0x36 && opad[j] == k0[j] ^ 0x5c
      {
        ipad, opad := ipad[i := key[i] ^ 0x36], opad[i := key[i] ^ 0x5c];
        i := i + 1;
      }
      while i < 64
        invariant |key| <= i <= 64 && |ipad| == 64 && |opad| == 64
        invariant forall j :: 0 <= j < i ==> ipad[j] == k0[j] ^ 0x36 && opad[j] == k0[j] ^ 0x5c
      {
        ipad, opad := ipad[i := 0x36], opad[i := 0x5c];
        i := i + 1;
      }
      checkpoint := checkpoint.(opad := opad);
    }

    /** sha_256_hmac_init: the inner pad is taken in, the outer pad waits in the checkpoint. */
    method HmacInit(key: seq<byte>)
      requires Valid()
      modifies this
      ensures Valid()
      ensures Absorbed(h, checkpoint, XorAll(CountedKey(h, key, sizeMod), 0x36), 512)
      ensures checkpoint.opad == XorAll(CountedKey(h, key, sizeMod), 0x5c)
    {
      var k := key;
      if |key| > 64 {
        k := Hash(key);
      }
      var ipad := SplitKey(k);
      CountExact(64, sizeMod);
      Begin(ipad);
    }

    /** sha_256_hmac_finish: the outer hash over the outer pad and the inner digest; the pad is cleared. */
    method HmacFinish(ghost m: seq<byte>, ghost bits: nat) returns (tag: seq<byte>)
      requires Valid() && Absorbed(h, checkpoint, m, bits)
      modifies this
      ensures Valid() && checkpoint.opad == Zeros(64)
      ensures tag == DigestOf(h, old(checkpoint).opad + DigestOf(h, m, bits % COUNT_MOD), 768)
    {
      tag := Finalize(m, bits);
      tag := OuterHash(tag);
      checkpoint := checkpoint.(opad := Zeros(64));
    }

    /** The second hash of HMAC. */
    method OuterHash(inner: seq<byte>) returns (tag: seq<byte>)
      requires Valid() && |inner| == 32
      modifies this
      ensures Valid()
      ensures tag == DigestOf(h, old(checkpoint).opad + inner, 768)
    {
      ghost var opad := checkpoint.opad;
      CountExact(64, sizeMod);
      CountExact(32, sizeMod);
      Begin(checkpoint.opad);
      Update(inner, opad, 512);
      tag := Finalize(opad + inner, 768);
    }
  }
}
