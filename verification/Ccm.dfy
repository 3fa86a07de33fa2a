/**
 os/lib/ccm-star.c: CCM* with the blocks and the message worked on in place.
 */
module Ccm {
  import opened CcmSpec

  class CcmStar {
    const cipher: Cipher

    ghost predicate Valid()
    {
      cipher.Ok()
    }

    constructor (c: Cipher)
      requires c.Ok()
      ensures Valid() && cipher == c
    {
      cipher := c;
    }

    /** AES_128.encrypt. */
    method EncryptBlock(x: array<byte>)
      requires Valid() && x.Length == 16
      modifies x
      ensures x[..] == Encrypt(cipher, old(x[..]))
    {
      var r := Encrypt(cipher, x[..]);
      for i := 0 to 16
        invariant forall j :: 0 <= j < i ==> x[j] == r[j]
      {
        x[i] := r[i];
      }
    }

    /** set_iv. */
    method SetIv(iv: array<byte>, flags: byte, nonce: seq<byte>, counter: nat)
      requires iv.Length == 16 && |nonce| == 13
      modifies iv
      ensures iv[..] == FieldBlock(flags, nonce, counter)
    {
      iv[0] := flags;
      for i := 0 to 13
        invariant iv[0] == flags && forall j :: 0 <= j < i ==> iv[1 + j] == nonce[j]
      {
        iv[1 + i] := nonce[i];
      }
      iv[14] := (counter / 0x100 % 0x100) as byte;
      iv[15] := (counter % 0x100) as byte;
    }

    /** The inner loops of mic: the block of s at pos is xored into x. */
    method XorFrom(x: array<byte>, s: seq<byte>, pos: nat)
      requires x.Length == 16
      modifies x
      ensures x[..] == Xor(old(x[..]), BlockAt(s, pos))
    {
      ghost var was := x[..];
      var i := 0;
      while pos + i < |s| && i < 16
        invariant i <= 16 && (i == 0 || pos + i <= |s|)
        invariant forall j :: 0 <= j < 16 ==> x[j] == if j < i then was[j] ^ s[pos + j] else was[j]
      {
        x[i] := x[i] ^ s[pos + i];
        i := i + 1;
      }
      XorZeros(was);
    }

    /** The first block of the associated data: its length and 14 bytes. */
    method XorFirst(x: array<byte>, a: seq<byte>) returns (pos: nat)
      requires x.Length == 16
      modifies x
      ensures x[..] == Xor(old(x[..]), BlockAt(TwoBytes(|a|) + a, 0))
      ensures pos == if |a| < 14 then |a| else 14
    {
      pos := XorPrefix(x, (|a| / 0x100 % 0x100) as byte, (|a| % 0x100) as byte, a);
    }

    method XorPrefix(x: array<byte>, high: byte, low: byte, a: seq<byte>) returns (pos: nat)
      requires x.Length == 16
      modifies x
      ensures x[..] == Xor(old(x[..]), BlockAt([high, low] + a, 0))
      ensures pos == if |a| < 14 then |a| else 14
    {
      ghost var was := x[..];
      x[0] := x[0] ^ high;
      x[1] := x[1] ^ low;
      pos := 0;
      while pos < |a| && pos < 14
        invariant pos <= |a| && pos <= 14
        invariant x[0] == was[0] ^ high && x[1] == was[1] ^ low
        invariant forall j {:trigger x[j]} :: 2 <= j < 16 ==> x[j] == if j < 2 + pos then was[j] ^ a[j - 2] else was[j]
      {
        x[2 + pos] := x[2 + pos] ^ a[pos];
        pos := pos + 1;
      }
      PrefixXored(was, x[..], high, low, a, pos);
    }

    /** One turn of the chaining loops of mic: the block at pos is xored in and the result encrypted. */
    method ChainOne(x: array<byte>, t: seq<byte>, pos: nat, ghost bs: seq<seq<byte>>, ghost k: nat, ghost x0: seq<byte>)
      requires Valid() && x.Length == 16 && |x0| == 16 && pos < |t|
      requires AllBlocks(bs) && k < |bs| && bs[k] == BlockAt(t, pos) && x[..] == Chain(cipher, x0, bs[..k])
      modifies x
      ensures x[..] == Chain(cipher, x0, bs[..k + 1])
    {
      XorFrom(x, t, pos);
      EncryptBlock(x);
      assert bs[..k + 1][..k] == bs[..k];
    }

    /** The chaining loops of mic, from block k of s on; pos is where block k begins in t, whose
        bytes are those of s. */
    method ChainFrom(x: array<byte>, t: seq<byte>, start: nat, ghost s: seq<byte>, ghost first: nat,
        ghost x0: seq<byte>)
      requires Valid() && x.Length == 16 && |x0| == 16
      requires first <= BlockCount(|s|)
      requires start + |s| == |t| + 16 * first || (start == |t| && first == BlockCount(|s|))
      requires forall k: nat {:trigger BlockAt(s, 16 * k)} :: first <= k < BlockCount(|s|) ==>
                 BlockAt(t, start + 16 * k - 16 * first) == BlockAt(s, 16 * k)
      requires x[..] == Chain(cipher, x0, BlocksOf(s)[..first])
      modifies x
      ensures x[..] == Chain(cipher, x0, BlocksOf(s))
    {
      ghost var bs := BlocksOf(s);
      var pos := start;
      ghost var k := first;
      while pos < |t|
        invariant pos == start + 16 * k - 16 * first && first <= k <= |bs|
        invariant x[..] == Chain(cipher, x0, bs[..k])
        decreases |bs| - k
      {
        assert k < BlockCount(|s|) && BlockAt(t, pos) == BlockAt(s, 16 * k);
        ChainOne(x, t, pos, bs, k, x0);
        pos := pos + 16;
        k := k + 1;
      }
      assert bs[..k] == bs;
    }

    /** The part of mic that chains the message. */
    method ChainMessage(x: array<byte>, m: seq<byte>)
      requires Valid() && x.Length == 16
      modifies x
      ensures x[..] == Chain(cipher, old(x[..]), BlocksOf(m))
    {
      assert BlocksOf(m)[..0] == [];
      ChainFrom(x, m, 0, m, 0, x[..]);
    }

    /** The part of mic that chains the associated data. */
    method ChainData(x: array<byte>, a: seq<byte>)
      requires Valid() && x.Length == 16
      modifies x
      ensures x[..] == Chain(cipher, old(x[..]), BlocksOf(LengthAndData(a)))
    {
      ghost var x0 := x[..];
      if |a| > 0 {
        var pos := XorFirst(x, a);
        EncryptBlock(x);
        ghost var bs := BlocksOf(LengthAndData(a));
        assert bs[..1][..0] == [] && bs[..1][0] == BlockAt(LengthAndData(a), 0);
        assert Chain(cipher, x0, bs[..1]) == x[..];
        DataBlocks(a);
        ChainFrom(x, a, pos, LengthAndData(a), 1, x0);
      }
    }

    /** The flags of B_0 as the source puts them together. */
    function FlagByte(adata: bool, micLen: nat): (f: byte)
      requires ValidLength(micLen)
      ensures f == AuthFlags(adata, micLen) as byte
    {
      assert micLen == 4 || micLen == 6 || micLen == 8 || micLen == 10 || micLen == 12 || micLen == 14 || micLen == 16;
      (if adata then 64 else 0) | ((((micLen - 2) / 2) as byte) << 3) | 1
    }

    /** The first part of mic. */
    method CbcMacInPlace(x: array<byte>, nonce: seq<byte>, m: seq<byte>, a: seq<byte>, micLen: nat)
      requires Valid() && |nonce| == 13 && ValidLength(micLen) && |m| <= 0xffff && |a| <= 0xfeff && x.Length == 16
      modifies x
      ensures x[..] == CbcMac(cipher, Formatted(nonce, m, a, micLen))
    {
      SetIv(x, FlagByte(|a| > 0, micLen), nonce, |m|);
      EncryptBlock(x);
      ghost var x0 := x[..];
      ChainData(x, a);
      ghost var x1 := x[..];
      ChainMessage(x, m);
      FormattedChain(cipher, nonce, m, a, micLen, x0, x1);
    }

    /** mic. */
    method ComputeMic(nonce: seq<byte>, m: seq<byte>, a: seq<byte>, micLen: nat) returns (result: seq<byte>)
      requires Valid() && |nonce| == 13 && ValidLength(micLen) && |m| <= 0xffff && |a| <= 0xfeff
      ensures result == Mic(cipher, nonce, m, a, micLen)
    {
      var x := new byte[16];
      CbcMacInPlace(x, nonce, m, a, micLen);
      MaskMac(x, nonce);
      result := x[..micLen];
    }

    /** The MAC is xored with the first block of the key stream. */
    method MaskMac(x: array<byte>, nonce: seq<byte>)
      requires Valid() && |nonce| == 13 && x.Length == 16
      modifies x
      ensures x[..] == Xor(old(x[..]), StreamBlock(cipher, nonce, 0))
    {
      ghost var mac, s := x[..], StreamBlock(cipher, nonce, 0);
      CtrStep(nonce, 0, x, 0);
      forall j | 0 <= j < 16
        ensures x[j] == mac[j] ^ s[j]
      {
      }
    }

    /** ctr_step: 16 bytes of the message, or what is left of it, are xored with the encrypted counter block. */
    method CtrStep(nonce: seq<byte>, pos: nat, m: array<byte>, counter: nat)
      requires Valid() && |nonce| == 13
      modifies m
      ensures forall j {:trigger m[j]} :: 0 <= j < m.Length ==>
                m[j] == if pos <= j < pos + 16
                  then old(m[j]) ^ StreamBlock(cipher, nonce, counter)[j - pos] else old(m[j])
    {
      var a := new byte[16];
      SetIv(a, 1, nonce, counter);
      EncryptBlock(a);
      var s := a[..];
      var i := 0;
      while pos + i < m.Length && i < 16
        invariant i <= 16 && (i == 0 || pos + i <= m.Length)
        invariant forall j {:trigger m[j]} :: 0 <= j < m.Length ==>
                    m[j] == if pos <= j < pos + i then old(m[j]) ^ s[j - pos] else old(m[j])
      {
        m[pos + i] := m[pos + i] ^ s[i];
        i := i + 1;
      }
    }

    /** ctr: the counter never wraps. */
    method CtrInPlace(nonce: seq<byte>, m: array<byte>)
      requires Valid() && |nonce| == 13 && m.Length <= 0xffff
      modifies m
      ensures m[..] == Ctr(cipher, nonce, old(m[..]))
    {
      ghost var was := m[..];
      var counter := 1;
      var pos := 0;
      ghost var k := 0;
      while pos < m.Length
        invariant pos == 16 * k && counter == k + 1 < 0x1_0000 && pos < m.Length + 16
        invariant StreamedTo(cipher, nonce, m[..], was, pos)
      {
        ghost var before := m[..];
        CtrStep(nonce, pos, m, counter);
        StreamMore(cipher, nonce, before, m[..], was, k);
        counter := (counter + 1) % 0x1_0000;
        pos := pos + 16;
        k := k + 1;
      }
      StreamedAll(cipher, nonce, m[..], was, pos);
    }

    /** aead: nothing is done for a MIC length that is not valid. */
    method Aead(nonce: seq<byte>, m: array<byte>, a: seq<byte>, micLen: nat, forward: bool) returns (result: seq<byte>)
      requires Valid() && |nonce| == 13 && m.Length <= 0xffff && |a| <= 0xfeff
      modifies m
      ensures !ValidLength(micLen) ==> m[..] == old(m[..]) && result == []
      ensures ValidLength(micLen) ==> m[..] == Ctr(cipher, nonce, old(m[..]))
      ensures ValidLength(micLen) ==>
                result == Mic(cipher, nonce, if forward then old(m[..]) else Ctr(cipher, nonce, old(m[..])), a, micLen)
    {
      if !ValidLength(micLen) {
        return [];
      }
      if !forward {
        CtrInPlace(nonce, m);
      }
      result := ComputeMic(nonce, m[..], a, micLen);
      if forward {
        CtrInPlace(nonce, m);
      }
    }

    /** Decrypting what was encrypted gives the message and the same MIC. */
    method ForwardAndBack(nonce: seq<byte>, m: array<byte>, a: seq<byte>, micLen: nat)
      returns (sent: seq<byte>, received: seq<byte>)
      requires Valid() && |nonce| == 13 && m.Length <= 0xffff && |a| <= 0xfeff && ValidLength(micLen)
      modifies m
      ensures m[..] == old(m[..]) && sent == received == Mic(cipher, nonce, old(m[..]), a, micLen)
    {
      CtrTwice(cipher, nonce, m[..]);
      sent := Aead(nonce, m, a, micLen, true);
      received := Aead(nonce, m, a, micLen, false);
    }
  }

  /** MIC_LEN_VALID. */
  predicate ValidLength(micLen: nat)
  {
    4 <= micLen <= 16 && micLen % 2 == 0
  }

  /** Where the blocks of the length and the data lie in the data. */
  lemma DataBlocks(a: seq<byte>)
    requires a != []
    ensures BlockCount(|a| + 2) >= 1 && (|a| < 14 ==> BlockCount(|a| + 2) == 1)
    ensures var s := LengthAndData(a);
            forall k: nat {:trigger BlockAt(s, 16 * k)} :: 1 <= k < BlockCount(|s|) ==>
              BlockAt(a, 14 + 16 * k - 16) == BlockAt(s, 16 * k)
  {
    var s := LengthAndData(a);
    forall k: nat {:trigger BlockAt(s, 16 * k)} | 1 <= k < BlockCount(|s|)
      ensures BlockAt(a, 14 + 16 * k - 16) == BlockAt(s, 16 * k)
    {
      ShiftedBlock(TwoBytes(|a|), a, 16 * k);
    }
  }

  lemma ShiftedBlock(t: seq<byte>, a: seq<byte>, pos: nat)
    requires |t| == 2 && pos >= 2
    ensures BlockAt(a, pos - 2) == BlockAt(t + a, pos)
  {
  }

  /** The formatted blocks are chained in three stages. */
  lemma FormattedChain(c: Cipher, nonce: seq<byte>, m: seq<byte>, a: seq<byte>, micLen: nat, x0: seq<byte>,
      x1: seq<byte>)
    requires c.Ok() && |nonce| == 13 && 4 <= micLen <= 16
    requires x0 == Encrypt(c, FieldBlock(AuthFlags(a != [], micLen) as byte, nonce, |m|))
    requires x1 == Chain(c, x0, BlocksOf(LengthAndData(a)))
    ensures CbcMac(c, Formatted(nonce, m, a, micLen)) == Chain(c, x1, BlocksOf(m))
  {
    CbcMacOfThree(c, FieldBlock(AuthFlags(a != [], micLen) as byte, nonce, |m|), BlocksOf(LengthAndData(a)),
      BlocksOf(m));
  }

  lemma CbcMacOfThree(c: Cipher, b0: seq<byte>, bs: seq<seq<byte>>, cs: seq<seq<byte>>)
    requires c.Ok() && |b0| == 16 && AllBlocks(bs) && AllBlocks(cs)
    ensures AllBlocks([b0] + bs + cs)
    ensures CbcMac(c, [b0] + bs + cs) == Chain(c, Chain(c, Encrypt(c, b0), bs), cs)
  {
    assert ([b0] + bs + cs)[1..] == bs + cs;
    ChainConcat(c, Encrypt(c, b0), bs, cs);
  }

  /** The first n bytes are encrypted, the others are as they were. */
  ghost predicate StreamedTo(c: Cipher, nonce: seq<byte>, m: seq<byte>, was: seq<byte>, n: nat)
    requires c.Ok() && |nonce| == 13
  {
    |m| == |was| && forall j {:trigger m[j]} :: 0 <= j < |m| ==> m[j] == if j < n then Ctr(c, nonce, was)[j] else was[j]
  }

  lemma StreamMore(c: Cipher, nonce: seq<byte>, before: seq<byte>, m: seq<byte>, was: seq<byte>, k: nat)
    requires c.Ok() && |nonce| == 13 && StreamedTo(c, nonce, before, was, 16 * k) && |m| == |before|
    requires forall j {:trigger m[j]} :: 0 <= j < |m| ==>
               m[j] == if 16 * k <= j < 16 * k + 16
                 then before[j] ^ StreamBlock(c, nonce, k + 1)[j - 16 * k] else before[j]
    ensures StreamedTo(c, nonce, m, was, 16 * (k + 1))
  {
    forall j {:trigger m[j]} | 0 <= j < |m| ensures m[j] == if j < 16 * (k + 1) then Ctr(c, nonce, was)[j] else was[j] {
      if 16 * k <= j < 16 * k + 16 {
        assert j / 16 == k && j % 16 == j - 16 * k;
      }
    }
  }

  lemma StreamedAll(c: Cipher, nonce: seq<byte>, m: seq<byte>, was: seq<byte>, n: nat)
    requires c.Ok() && |nonce| == 13 && StreamedTo(c, nonce, m, was, n) && n >= |m|
    ensures m == Ctr(c, nonce, was)
  {
  }

  lemma XorZeros(x: seq<byte>)
    ensures forall j {:trigger x[j]} :: 0 <= j < |x| ==> x[j] ^ 0 == x[j]
  {
  }

  lemma PrefixXored(was: seq<byte>, x: seq<byte>, high: byte, low: byte, a: seq<byte>, pos: nat)
    requires |was| == 16 && |x| == 16 && pos == if |a| < 14 then |a| else 14
    requires x[0] == was[0] ^ high && x[1] == was[1] ^ low
    requires forall j {:trigger x[j]} :: 2 <= j < 16 ==> x[j] == if j < 2 + pos then was[j] ^ a[j - 2] else was[j]
    ensures x == Xor(was, BlockAt([high, low] + a, 0))
  {
    var r := Xor(was, BlockAt([high, low] + a, 0));
    PrefixBytes(high, low, a);
    var b := BlockAt([high, low] + a, 0);
    forall j {:trigger x[j]} | 0 <= j < 16 ensures x[j] == r[j] {
      assert r[j] == was[j] ^ b[j];
      if j == 0 {
      } else if j == 1 {
      } else if j < 2 + pos {
        assert b[j] == a[j - 2];
      } else {
        assert b[j] == 0;
        XorNothing(was[j]);
      }
    }
  }

  lemma XorNothing(x: byte)
    ensures x ^ 0 == x
  {
  }

  lemma PrefixBytes(high: byte, low: byte, a: seq<byte>)
    ensures var b := BlockAt([high, low] + a, 0);
            b[0] == high && b[1] == low && forall j {:trigger b[j]} :: 2 <= j < 16 ==>
              b[j] == if j - 2 < |a| then a[j - 2] else 0
  {
  }
}
