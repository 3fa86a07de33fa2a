/**
 What the formatting of CCM (RFC 3610, sections 2.2 and 2.3) says: the blocks of two different inputs of the MAC are
 never the same, and neither are two blocks that are encrypted for the key stream.
 */
module CcmFormat {
  import opened ByteFacts
  import opened CcmSpec

  /** The two bytes are the number. */
  lemma TwoBytesTell(n: nat)
    requires n < 0x1_0000
    ensures 256 * (TwoBytes(n)[0] as nat) + TwoBytes(n)[1] as nat == n
  {
    ByteRoundTrip(n / 256);
    ByteRoundTrip(n % 256);
  }

  /** A block tells its flags, its nonce and its field. */
  lemma FieldBlockTells(f: byte, nonce: seq<byte>, i: nat, f': byte, nonce': seq<byte>, i': nat)
    requires |nonce| == |nonce'| == 13 && i < 0x1_0000 && i' < 0x1_0000
    requires FieldBlock(f, nonce, i) == FieldBlock(f', nonce', i')
    ensures f == f' && nonce == nonce' && i == i'
  {
    var b, b' := FieldBlock(f, nonce, i), FieldBlock(f', nonce', i');
    assert b[0] == f && b'[0] == f';
    assert b[1..14] == nonce && b'[1..14] == nonce';
    assert b[14..] == TwoBytes(i) && b'[14..] == TwoBytes(i');
    TwoBytesTell(i);
    TwoBytesTell(i');
  }

  /** No block is encrypted twice for the key stream. */
  lemma StreamBlocksDiffer(nonce: seq<byte>, i: nat, j: nat)
    requires |nonce| == 13 && i < 0x1_0000 && j < 0x1_0000 && FieldBlock(1, nonce, i) == FieldBlock(1, nonce, j)
    ensures i == j
  {
    FieldBlockTells(1, nonce, i, 1, nonce, j);
  }

  /** The flags say whether there is associated data, how long the MIC is, and that lengths have two bytes. */
  lemma FlagsTell(adata: bool, micLen: nat)
    requires 4 <= micLen <= 16 && micLen % 2 == 0
    ensures var f := AuthFlags(adata, micLen);
            (f / 64 == 1 <==> adata) && 2 * (f / 8 % 8) + 2 == micLen && f % 8 + 1 == 2
  {
    var k := (micLen - 2) / 2;
    assert 1 <= k <= 7 && micLen == 2 * k + 2;
  }

  lemma FlagBytesTell(adata: bool, micLen: nat, adata': bool, micLen': nat)
    requires 4 <= micLen <= 16 && micLen % 2 == 0 && 4 <= micLen' <= 16 && micLen' % 2 == 0
    requires AuthFlags(adata, micLen) as byte == AuthFlags(adata', micLen') as byte
    ensures adata == adata' && micLen == micLen'
  {
    ByteRoundTrip(AuthFlags(adata, micLen));
    ByteRoundTrip(AuthFlags(adata', micLen'));
    FlagsTell(adata, micLen);
    FlagsTell(adata', micLen');
  }

  /** No block for the key stream is one with which a MAC begins. */
  lemma FirstBlockDiffers(nonce: seq<byte>, m: seq<byte>, a: seq<byte>, micLen: nat, nonce': seq<byte>, i: nat)
    requires |nonce| == |nonce'| == 13 && 4 <= micLen <= 16
    ensures Formatted(nonce, m, a, micLen)[0] != FieldBlock(1, nonce', i)
  {
    var f := AuthFlags(a != [], micLen);
    ByteRoundTrip(f);
    ByteRoundTrip(1);
    assert Formatted(nonce, m, a, micLen)[0][0] == f as byte && FieldBlock(1, nonce', i)[0] == 1;
  }

  /** Blocks and a length tell the bytes. */
  lemma BlocksTell(s: seq<byte>, t: seq<byte>)
    requires |s| == |t| && BlocksOf(s) == BlocksOf(t)
    ensures s == t
  {
    forall i | 0 <= i < |s|
      ensures s[i] == t[i]
    {
      ByteInBlock(s, i);
      ByteInBlock(t, i);
    }
  }

  lemma ByteInBlock(s: seq<byte>, i: nat)
    requires i < |s|
    ensures i / 16 < |BlocksOf(s)| && s[i] == BlocksOf(s)[i / 16][i % 16]
  {
    var k := i / 16;
    assert 16 * k + i % 16 == i;
    assert BlocksOf(s)[k] == BlockAt(s, 16 * k);
  }

  /** The first block of the associated data tells its length. */
  lemma LengthTold(a: seq<byte>)
    requires a != [] && |a| < 0x1_0000
    ensures var bs := BlocksOf(LengthAndData(a));
            |bs| > 0 && 256 * (bs[0][0] as nat) + bs[0][1] as nat == |a|
  {
    var s := LengthAndData(a);
    assert BlocksOf(s)[0] == BlockAt(s, 0);
    assert s[0] == TwoBytes(|a|)[0] && s[1] == TwoBytes(|a|)[1];
    TwoBytesTell(|a|);
  }

  lemma PrefixTells<T>(p: seq<T>, q: seq<T>, p': seq<T>, q': seq<T>)
    requires |p| == |p'| && p + q == p' + q'
    ensures p == p' && q == q'
  {
    assert (p + q)[..|p|] == p && (p' + q')[..|p'|] == p';
    assert (p + q)[|p|..] == q && (p' + q')[|p'|..] == q';
  }

  /** The blocks of the associated data tell it, if there is some, whatever follows them. */
  lemma DataTells(a: seq<byte>, a': seq<byte>, rest: seq<seq<byte>>, rest': seq<seq<byte>>)
    requires a != [] && a' != [] && |a| < 0x1_0000 && |a'| < 0x1_0000
    requires BlocksOf(LengthAndData(a)) + rest == BlocksOf(LengthAndData(a')) + rest'
    ensures a == a' && rest == rest'
  {
    var p, p' := BlocksOf(LengthAndData(a)), BlocksOf(LengthAndData(a'));
    LengthTold(a);
    LengthTold(a');
    FirstTells(p, rest, p', rest');
    PrefixTells(p, rest, p', rest');
    SameData(a, a');
  }

  lemma FirstTells<T>(p: seq<T>, q: seq<T>, p': seq<T>, q': seq<T>)
    requires p != [] && p' != [] && p + q == p' + q'
    ensures p[0] == p'[0]
  {
    assert (p + q)[0] == p[0] && (p' + q')[0] == p'[0];
  }

  lemma SameData(a: seq<byte>, a': seq<byte>)
    requires a != [] && |a| == |a'| && BlocksOf(LengthAndData(a)) == BlocksOf(LengthAndData(a'))
    ensures a == a'
  {
    BlocksTell(LengthAndData(a), LengthAndData(a'));
    PrefixTells(TwoBytes(|a|), a, TwoBytes(|a'|), a');
  }

  lemma FormattedParts(nonce: seq<byte>, m: seq<byte>, a: seq<byte>, micLen: nat)
    requires |nonce| == 13 && 4 <= micLen <= 16
    ensures Formatted(nonce, m, a, micLen) ==
            [FieldBlock(AuthFlags(a != [], micLen) as byte, nonce, |m|)] + (BlocksOf(LengthAndData(a)) + BlocksOf(m))
  {
  }

  /** What follows the first block tells the data and the message. */
  lemma BodyTells(m: seq<byte>, a: seq<byte>, m': seq<byte>, a': seq<byte>)
    requires |m| == |m'| && (a == [] <==> a' == []) && |a| < 0x1_0000 && |a'| < 0x1_0000
    requires BlocksOf(LengthAndData(a)) + BlocksOf(m) == BlocksOf(LengthAndData(a')) + BlocksOf(m')
    ensures m == m' && a == a'
  {
    if a != [] {
      DataTells(a, a', BlocksOf(m), BlocksOf(m'));
    } else {
      PrefixTells(BlocksOf(LengthAndData(a)), BlocksOf(m), BlocksOf(LengthAndData(a')), BlocksOf(m'));
    }
    BlocksTell(m, m');
  }

  /** Different inputs of the MAC are formatted differently. */
  lemma FormattedTells(nonce: seq<byte>, m: seq<byte>, a: seq<byte>, micLen: nat,
      nonce': seq<byte>, m': seq<byte>, a': seq<byte>, micLen': nat)
    requires |nonce| == |nonce'| == 13 && |m| < 0x1_0000 && |m'| < 0x1_0000 && |a| < 0x1_0000 && |a'| < 0x1_0000
    requires 4 <= micLen <= 16 && micLen % 2 == 0 && 4 <= micLen' <= 16 && micLen' % 2 == 0
    requires Formatted(nonce, m, a, micLen) == Formatted(nonce', m', a', micLen')
    ensures nonce == nonce' && m == m' && a == a' && micLen == micLen'
  {
    var f, f' := AuthFlags(a != [], micLen) as byte, AuthFlags(a' != [], micLen') as byte;
    var b, b' := FieldBlock(f, nonce, |m|), FieldBlock(f', nonce', |m'|);
    FormattedParts(nonce, m, a, micLen);
    FormattedParts(nonce', m', a', micLen');
    PrefixTells([b], BlocksOf(LengthAndData(a)) + BlocksOf(m), [b'], BlocksOf(LengthAndData(a')) + BlocksOf(m'));
    assert [b][0] == [b'][0];
    FieldBlockTells(f, nonce, |m|, f', nonce', |m'|);
    FlagBytesTell(a != [], micLen, a' != [], micLen');
    BodyTells(m, a, m', a');
  }
}
