/**
 CCM (RFC 3610) with two-byte lengths, over any cipher on blocks of 16 bytes.
 */
module CcmSpec {

  type byte = bv8

  datatype Cipher = Cipher(encrypt: seq<byte> -> seq<byte>)
  {
    ghost predicate OkAt(b: seq<byte>)
    {
      |b| == 16 ==> |encrypt(b)| == 16
    }

    /** Blocks are encrypted to blocks. */
    ghost predicate Ok()
    {
      forall b {:trigger OkAt(b)} :: OkAt(b)
    }
  }

  function Encrypt(c: Cipher, b: seq<byte>): (r: seq<byte>)
    requires c.Ok() && |b| == 16
    ensures |r| == 16
  {
    assert c.OkAt(b);
    c.encrypt(b)
  }

  function Xor(x: seq<byte>, y: seq<byte>): (r: seq<byte>)
    requires |x| == |y|
    ensures |r| == |x|
  {
    seq(|x|, i requires 0 <= i < |x| => x[i] ^ y[i])
  }

  /** The 16 bytes of s from a position on, filled up with zeros. */
  function BlockAt(s: seq<byte>, pos: nat): (b: seq<byte>)
    ensures |b| == 16
  {
    seq(16, i requires 0 <= i < 16 => if pos + i < |s| then s[pos + i] else 0)
  }

  /** The number of blocks that n bytes fill. */
  function BlockCount(n: nat): (k: nat)
    ensures n <= 16 * k < n + 16
  {
    if n == 0 then 0 else if n <= 16 then 1 else 1 + BlockCount(n - 16)
  }

  /** s cut into blocks, the last one filled up with zeros. */
  function BlocksOf(s: seq<byte>): (bs: seq<seq<byte>>)
    ensures |bs| == BlockCount(|s|)
    ensures forall k {:trigger bs[k]} :: 0 <= k < |bs| ==> bs[k] == BlockAt(s, 16 * k)
  {
    seq(BlockCount(|s|), k requires 0 <= k < BlockCount(|s|) => BlockAt(s, 16 * k))
  }

  /** A number in two bytes, the most significant first. */
  function TwoBytes(n: nat): (b: seq<byte>)
    ensures |b| == 2
  {
    [(n / 256 % 256) as byte, (n % 256) as byte]
  }

  // --------------------------------------------------------- section 2.2: the MAC

  /** Bit 6: associated data; bits 3 to 5: (M-2)/2; bits 0 to 2: L-1. */
  function AuthFlags(adata: bool, micLen: nat): (f: nat)
    requires 4 <= micLen <= 16
    ensures f < 256
  {
    64 * (if adata then 1 else 0) + 8 * ((micLen - 2) / 2) + 1
  }

  /** A block with flags, nonce and a 16-bit field: B_0 and the A_i. */
  function FieldBlock(flags: byte, nonce: seq<byte>, field: nat): (b: seq<byte>)
    requires |nonce| == 13
    ensures |b| == 16
  {
    [flags] + nonce + TwoBytes(field)
  }

  /** The associated data with its length in front; nothing if there is none. */
  function LengthAndData(a: seq<byte>): (s: seq<byte>)
  {
    if a == [] then [] else TwoBytes(|a|) + a
  }

  /** B_0, the blocks of the associated data, the blocks of the message. */
  function Formatted(nonce: seq<byte>, m: seq<byte>, a: seq<byte>, micLen: nat): (bs: seq<seq<byte>>)
    requires |nonce| == 13 && 4 <= micLen <= 16
    ensures |bs| > 0 && AllBlocks(bs)
  {
    [FieldBlock(AuthFlags(a != [], micLen) as byte, nonce, |m|)] + BlocksOf(LengthAndData(a)) + BlocksOf(m)
  }

  predicate AllBlocks(bs: seq<seq<byte>>)
  {
    forall k {:trigger bs[k]} :: 0 <= k < |bs| ==> |bs[k]| == 16
  }

  /** X_{i+1} = E(X_i xor B_i). */
  function Chain(c: Cipher, x: seq<byte>, bs: seq<seq<byte>>): (r: seq<byte>)
    requires c.Ok() && |x| == 16 && AllBlocks(bs)
    ensures |r| == 16
  {
    if bs == [] then x else Encrypt(c, Xor(Chain(c, x, bs[..|bs| - 1]), bs[|bs| - 1]))
  }

  function CbcMac(c: Cipher, bs: seq<seq<byte>>): (r: seq<byte>)
    requires c.Ok() && |bs| > 0 && AllBlocks(bs)
    ensures |r| == 16
  {
    Chain(c, Encrypt(c, bs[0]), bs[1..])
  }

  // -------------------------------------------------- section 2.3: the key stream

  /** S_i. */
  function StreamBlock(c: Cipher, nonce: seq<byte>, i: nat): (s: seq<byte>)
    requires c.Ok() && |nonce| == 13
    ensures |s| == 16
  {
    Encrypt(c, FieldBlock(1, nonce, i))
  }

  /** The message xored with S_1, S_2, ... */
  function Ctr(c: Cipher, nonce: seq<byte>, m: seq<byte>): (r: seq<byte>)
    requires c.Ok() && |nonce| == 13
    ensures |r| == |m|
  {
    seq(|m|, j requires 0 <= j < |m| => m[j] ^ StreamBlock(c, nonce, j / 16 + 1)[j % 16])
  }

  /** The encrypted MAC: the first bytes of T xor S_0. */
  function Mic(c: Cipher, nonce: seq<byte>, m: seq<byte>, a: seq<byte>, micLen: nat): (t: seq<byte>)
    requires c.Ok() && |nonce| == 13 && 4 <= micLen <= 16
    ensures |t| == micLen
  {
    Xor(CbcMac(c, Formatted(nonce, m, a, micLen)), StreamBlock(c, nonce, 0))[..micLen]
  }

  lemma XorTwice(x: byte, y: byte)
    ensures (x ^ y) ^ y == x
  {
  }

  /** Applying the key stream twice gives the message back. */
  lemma CtrTwice(c: Cipher, nonce: seq<byte>, m: seq<byte>)
    requires c.Ok() && |nonce| == 13
    ensures Ctr(c, nonce, Ctr(c, nonce, m)) == m
  {
    var r := Ctr(c, nonce, m);
    forall j: nat | j < |m| ensures Ctr(c, nonce, r)[j] == m[j] {
      var y := StreamBlock(c, nonce, j / 16 + 1)[j % 16];
      assert r[j] == m[j] ^ y;
      XorTwice(m[j], y);
    }
  }

  lemma {:induction false} ChainConcat(c: Cipher, x: seq<byte>, bs: seq<seq<byte>>, cs: seq<seq<byte>>)
    requires c.Ok() && |x| == 16 && AllBlocks(bs) && AllBlocks(cs) && AllBlocks(bs + cs)
    ensures Chain(c, x, bs + cs) == Chain(c, Chain(c, x, bs), cs)
    decreases |cs|
  {
    if cs == [] {
      assert bs + cs == bs;
    } else {
      var ds := bs + cs;
      assert ds[..|ds| - 1] == bs + cs[..|cs| - 1];
      ChainConcat(c, x, bs, cs[..|cs| - 1]);
    }
  }
}
