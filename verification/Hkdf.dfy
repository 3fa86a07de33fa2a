/**
 os/lib/sha-256.c: HMAC in one call and HKDF (RFC 5869) on top of the driver's static state.
 */
module Hkdf {
  import opened HashSpec
  import opened Sha256Spec
  import opened Sha256Session
  import opened Sha256Runs

  /** The platform's size_t and the 64-bit count can hold the length of x in bits, with room for a block and more. */
  predicate Fits(sizeMod: nat, x: seq<byte>)
  {
    8 * |x| < sizeMod && |x| + 128 < 0x2000_0000_0000_0000
  }

  /** Adding data that fits to an HMAC session that has counted all of m. */
  method Feed<W(!new)>(s: Sha256<W>, data: seq<byte>, ghost inner: seq<byte>, ghost m: seq<byte>)
    requires s.Valid() && Fits(s.sizeMod, data) && Absorbed(s.h, s.checkpoint, inner + m, 512 + 8 * |m|)
    modifies s
    ensures s.Valid() && s.checkpoint.opad == old(s.checkpoint).opad
    ensures Absorbed(s.h, s.checkpoint, inner + (m + data), 512 + 8 * |m + data|)
  {
    CountExact(|data|, s.sizeMod);
    s.Update(data, inner + m, 512 + 8 * |m|);
    assert inner + m + data == inner + (m + data);
  }

  /** sha_256_hmac_init for a key whose length fits. */
  method Start<W(!new)>(s: Sha256<W>, key: seq<byte>)
    requires s.Valid() && Fits(s.sizeMod, key)
    modifies s
    ensures s.Valid() && s.checkpoint.opad == XorAll(BlockKey(s.h, key), 0x5c)
    ensures Absorbed(s.h, s.checkpoint, XorAll(BlockKey(s.h, key), 0x36) + [], 512)
  {
    CountedKeyExact(s.h, s.sizeMod, key);
    s.HmacInit(key);
    assert XorAll(BlockKey(s.h, key), 0x36) + [] == XorAll(BlockKey(s.h, key), 0x36);
  }

  /** sha_256_hmac_finish after all of m was fed. */
  method Finish<W(!new)>(s: Sha256<W>, ghost key: seq<byte>, ghost m: seq<byte>) returns (tag: seq<byte>)
    requires s.Valid() && |m| + 64 < 0x2000_0000_0000_0000
    requires s.checkpoint.opad == XorAll(BlockKey(s.h, key), 0x5c)
    requires Absorbed(s.h, s.checkpoint, XorAll(BlockKey(s.h, key), 0x36) + m, 512 + 8 * |m|)
    modifies s
    ensures s.Valid() && s.checkpoint.opad == Zeros(64)
    ensures tag == Hmac(s.h, key, m)
  {
    HmacIsTwoDigests(s.h, key, m);
    tag := s.HmacFinish(XorAll(BlockKey(s.h, key), 0x36) + m, 512 + 8 * |m|);
  }

  /** sha_256_hmac, and sha_256_hkdf_extract with the salt as the key. */
  method HmacOnce<W(!new)>(s: Sha256<W>, key: seq<byte>, data: seq<byte>) returns (tag: seq<byte>)
    requires s.Valid() && Fits(s.sizeMod, key) && Fits(s.sizeMod, data)
    modifies s
    ensures s.Valid() && tag == Hmac(s.h, key, data)
  {
    Start(s, key);
    Feed(s, data, XorAll(BlockKey(s.h, key), 0x36), []);
    assert [] + data == data;
    tag := Finish(s, key, data);
  }

  /** The last two updates of a block: the context information and the block's number. */
  method FeedRest<W(!new)>(s: Sha256<W>, info: seq<byte>, i: byte, ghost inner: seq<byte>, ghost m: seq<byte>)
    requires s.Valid() && Fits(s.sizeMod, info) && Absorbed(s.h, s.checkpoint, inner + m, 512 + 8 * |m|)
    modifies s
    ensures s.Valid() && s.checkpoint.opad == old(s.checkpoint).opad
    ensures Absorbed(s.h, s.checkpoint, inner + (m + info + [i]), 512 + 8 * |m + info + [i]|)
  {
    Feed(s, info, inner, m);
    Feed(s, [i], inner, m + info);
  }

  /** The body of hkdf_expand's loop: T(i) from T(i-1). */
  method ExpandBlock<W(!new)>(s: Sha256<W>, prk: seq<byte>, info: seq<byte>, t: seq<byte>, i: nat)
    returns (t': seq<byte>)
    requires s.Valid() && Fits(s.sizeMod, prk) && Fits(s.sizeMod, info)
    requires 0 < i <= 255 && (i > 1 ==> t == HkdfBlock(s.h, prk, info, i - 1))
    modifies s
    ensures s.Valid() && t' == HkdfBlock(s.h, prk, info, i)
  {
    ghost var before := HkdfBlock(s.h, prk, info, i - 1);
    BeginBlock(s, prk, t, i, before);
    FeedRest(s, info, i as byte, XorAll(BlockKey(s.h, prk), 0x36), before);
    t' := Finish(s, prk, before + info + [i as byte]);
  }

  /** The start of a block: the key and the block before, which the first block has not. */
  method BeginBlock<W(!new)>(s: Sha256<W>, prk: seq<byte>, t: seq<byte>, i: nat, ghost before: seq<byte>)
    requires s.Valid() && Fits(s.sizeMod, prk) && |before| <= 32
    requires before == if i == 1 then [] else t
    modifies s
    ensures s.Valid() && s.checkpoint.opad == XorAll(BlockKey(s.h, prk), 0x5c)
    ensures Absorbed(s.h, s.checkpoint, XorAll(BlockKey(s.h, prk), 0x36) + before, 512 + 8 * |before|)
  {
    Start(s, prk);
    if i != 1 {
      Feed(s, t, XorAll(BlockKey(s.h, prk), 0x36), []);
      assert [] + t == t;
    }
  }

  lemma {:induction false} StreamPrefix<S(!new)>(h: Hasher<S>, prk: seq<byte>, info: seq<byte>, i: nat, n: nat)
    requires h.Ok() && i <= n <= 255
    ensures HkdfStream(h, prk, info, i) <= HkdfStream(h, prk, info, n)
  {
    if i < n {
      StreamPrefix(h, prk, info, i, n - 1);
    }
  }

  lemma StreamSlice<S(!new)>(h: Hasher<S>, prk: seq<byte>, info: seq<byte>, i: nat, n: nat)
    requires h.Ok() && 0 < i <= n <= 255
    ensures HkdfStream(h, prk, info, n)[32 * (i - 1)..32 * i] == HkdfBlock(h, prk, info, i)
  {
    StreamPrefix(h, prk, info, i, n);
    var s := HkdfStream(h, prk, info, i);
    assert s[32 * (i - 1)..] == HkdfBlock(h, prk, info, i);
  }

  /** The number of blocks that hkdf_expand computes for a length already cut to 255 blocks. */
  function BlockCount(okmLen: nat): (n: nat)
    ensures 32 * (n - 1) < okmLen <= 32 * n || (n == 0 && okmLen == 0)
  {
    okmLen / 32 + (if okmLen % 32 != 0 then 1 else 0)
  }

  function Min(a: nat, b: nat): nat
  {
    if a < b then a else b
  }

  /** The 8-bit loop index after k increments. */
  function IndexAfter(k: nat): (i: nat)
  {
    (1 + k) % 256
  }

  /** The loop of hkdf_expand ends iff at most 254 blocks are asked for: the header promises 255. */
  lemma ExpandTerminates(okmLen: nat)
    ensures (exists k :: IndexAfter(k) > BlockCount(Min(okmLen, 255 * 32))) <==> okmLen <= 254 * 32
  {
    var n := BlockCount(Min(okmLen, 255 * 32));
    if okmLen <= 254 * 32 {
      assert n <= 254 && IndexAfter(n) == n + 1;
    } else {
      assert n == 255;
    }
  }

  /** memcpy to okm + at. */
  method CopyTo(okm: array<byte>, at: nat, t: seq<byte>, count: nat)
    requires count <= |t| && at + count <= okm.Length
    modifies okm
    ensures forall j :: 0 <= j < okm.Length ==> okm[j] == if at <= j < at + count then t[j - at] else old(okm[j])
  {
    for k := 0 to count
      invariant forall j :: 0 <= j < okm.Length ==> okm[j] == if at <= j < at + k then t[j - at] else old(okm[j])
    {
      okm[at + k] := t[k];
    }
  }

  /** The bytes that are done: the first of them as they should be, the others as they were. */
  ghost predicate Done(okm: seq<byte>, was: seq<byte>, stream: seq<byte>, n: nat)
    requires |okm| == |was| && n <= |okm| && n <= |stream|
  {
    forall j {:trigger okm[j]} :: 0 <= j < |okm| ==> okm[j] == if j < n then stream[j] else was[j]
  }

  lemma DoneMore(before: seq<byte>, after: seq<byte>, was: seq<byte>, stream: seq<byte>, t: seq<byte>, at: nat,
      count: nat)
    requires |before| == |after| == |was| && at + count <= |was| && count <= |t| && at + |t| <= |stream|
    requires Done(before, was, stream, at)
    requires forall j :: 0 <= j < |after| ==> after[j] == if at <= j < at + count then t[j - at] else before[j]
    requires stream[at..at + |t|] == t
    ensures Done(after, was, stream, at + count)
  {
    forall j {:trigger after[j]} | 0 <= j < |after| ensures after[j] == if j < at + count then stream[j] else was[j] {
      assert before[j] == if j < at then stream[j] else was[j];
    }
  }

  /** The memcpy of a pass, for the next bytes of the stream. */
  method WriteOut(okm: array<byte>, at: nat, t: seq<byte>, count: nat, ghost was: seq<byte>, ghost stream: seq<byte>)
    requires at + count <= okm.Length == |was| && count <= |t| && at + |t| <= |stream| && stream[at..at + |t|] == t
    requires Done(okm[..], was, stream, at)
    modifies okm
    ensures Done(okm[..], was, stream, at + count)
  {
    ghost var before := okm[..];
    CopyTo(okm, at, t, count);
    DoneMore(before, okm[..], was, stream, t, at, count);
  }

  /** One pass of the loop: block i is computed and as much of it as fits is copied. */
  method ExpandOne<W(!new)>(s: Sha256<W>, prk: seq<byte>, info: seq<byte>, t: seq<byte>, i: nat, okm: array<byte>,
      left: nat, ghost n: nat, ghost was: seq<byte>, ghost stream: seq<byte>)
    returns (t': seq<byte>)
    requires s.Valid() && Fits(s.sizeMod, prk) && Fits(s.sizeMod, info)
    requires 0 < i <= n <= 255 && (i > 1 ==> t == HkdfBlock(s.h, prk, info, i - 1))
    requires |was| == okm.Length && 32 * (i - 1) + Min(32, left) <= okm.Length &&
             stream == HkdfStream(s.h, prk, info, n)
    requires Done(okm[..], was, stream, 32 * (i - 1))
    modifies s, okm
    ensures s.Valid() && t' == HkdfBlock(s.h, prk, info, i)
    ensures Done(okm[..], was, stream, 32 * (i - 1) + Min(32, left))
  {
    t' := ExpandBlock(s, prk, info, t, i);
    StreamSlice(s.h, prk, info, i, n);
    WriteOut(okm, 32 * (i - 1), t', Min(32, left), was, stream);
  }

  /** The loop of hkdf_expand after k turns: t is the last block, left what is still to be written. */
  ghost predicate Progress<W(!new)>(s: Sha256<W>, prk: seq<byte>, info: seq<byte>, t: seq<byte>, k: nat, left: nat,
                                    cut: nat)
    reads s
    requires s.h.Ok()
  {
    var n := BlockCount(cut);
    && k <= n <= 255 && s.Valid()
    && (k > 0 ==> t == HkdfBlock(s.h, prk, info, k))
    && (k < n ==> left == cut - 32 * k)
  }

  /** What is written after k turns. */
  ghost predicate Written<W(!new)>(s: Sha256<W>, prk: seq<byte>, info: seq<byte>, okm: array<byte>, was: seq<byte>,
                                   cut: nat, k: nat)
    reads okm
    requires s.h.Ok() && cut <= 255 * 32
  {
    && cut <= okm.Length == |was|
    && Done(okm[..], was, HkdfStream(s.h, prk, info, BlockCount(cut)), Min(cut, 32 * k))
  }

  /** The counters of the turn after k turns: the index has not wrapped before it, and what is left is not. */
  lemma NextBlock(cut: nat, n: nat, k: nat, left: nat)
    requires k < n == BlockCount(cut) <= 255 && left == cut - 32 * k
    ensures IndexAfter(k) == k + 1 && (IndexAfter(k) + 1) % 256 == IndexAfter(k + 1)
    ensures k + 1 < n ==> (left + 0x1_0000 - 32) % 0x1_0000 == cut - 32 * (k + 1)
    ensures Min(cut, 32 * k) == 32 * k && 32 * k + Min(32, left) == Min(cut, 32 * (k + 1))
  {
  }

  /** One turn of the loop and its counters. */
  method ExpandStep<W(!new)>(s: Sha256<W>, prk: seq<byte>, info: seq<byte>, t: seq<byte>, i: nat, okm: array<byte>,
                             left: nat, ghost k: nat, ghost cut: nat, ghost was: seq<byte>)
    returns (t': seq<byte>, i': nat, left': nat)
    requires s.Valid() && Fits(s.sizeMod, prk) && Fits(s.sizeMod, info)
    requires Progress(s, prk, info, t, k, left, cut) && k < BlockCount(cut) && i == IndexAfter(k)
    requires cut <= 255 * 32 && Written(s, prk, info, okm, was, cut, k)
    modifies s, okm
    ensures Progress(s, prk, info, t', k + 1, left', cut) && i' == IndexAfter(k + 1)
    ensures Written(s, prk, info, okm, was, cut, k + 1)
  {
    NextBlock(cut, BlockCount(cut), k, left);
    t' := ExpandOne(s, prk, info, t, i, okm, left, BlockCount(cut), was, HkdfStream(s.h, prk, info, BlockCount(cut)));
    left' := (left + 0x1_0000 - 32) % 0x1_0000;
    i' := (i + 1) % 256;
  }

  /** sha_256_hkdf_expand, for as many turns of its loop as are given: after k of them the first 32 * k bytes of
      T(1) | T(2) | ... are written, as far as they are asked for, and nothing else. The loop has ended then iff no
      block is missing and there are not 255 of them. */
  method Expand<W(!new)>(s: Sha256<W>, prk: seq<byte>, info: seq<byte>, okm: array<byte>, okmLen: nat, turns: nat)
    returns (ended: bool)
    requires s.Valid() && Fits(s.sizeMod, prk) && Fits(s.sizeMod, info)
    requires Min(okmLen, 255 * 32) <= okm.Length && turns <= 255
    modifies s, okm
    ensures s.Valid()
    ensures var cut := Min(okmLen, 255 * 32);
            && Done(okm[..], old(okm[..]), HkdfStream(s.h, prk, info, BlockCount(cut)), Min(cut, 32 * turns))
            && (ended <==> BlockCount(cut) <= turns && BlockCount(cut) <= 254)
  {
    ghost var cut := Min(okmLen, 255 * 32);
    var left := Min(okmLen, 255 * 32);
    var n := BlockCount(left);
    ghost var was := okm[..];
    var t: seq<byte> := [];
    var i := 1;
    var k := 0;
    while i <= n && k < turns
      invariant Progress(s, prk, info, t, k, left, cut) && i == IndexAfter(k) && k <= turns
      invariant Written(s, prk, info, okm, was, cut, k)
      decreases turns - k
    {
      TurnsLeft(n, k);
      t, i, left := ExpandStep(s, prk, info, t, i, okm, left, k, cut, was);
      k := k + 1;
    }
    TurnsDone(cut, n, k, turns);
    ended := i > n;
  }

  /** The loop has stopped after k turns, by its own guard or because no more are given. */
  lemma TurnsDone(cut: nat, n: nat, k: nat, turns: nat)
    requires n == BlockCount(cut) && k <= n <= 255 && k <= turns <= 255 && !(IndexAfter(k) <= n && k < turns)
    ensures IndexAfter(k) > n <==> n <= turns && n <= 254
    ensures Min(cut, 32 * k) == Min(cut, 32 * turns)
  {
  }

  lemma TurnsLeft(n: nat, k: nat)
    requires k <= n <= 255 && k < 255 && IndexAfter(k) <= n
    ensures k < n
  {
  }

  /** sha_256_hkdf: extraction and expansion, with as many turns of the loop. */
  method ExtractAndExpand<W(!new)>(s: Sha256<W>, salt: seq<byte>, ikm: seq<byte>, info: seq<byte>,
                                   okm: array<byte>, okmLen: nat, turns: nat) returns (ended: bool)
    requires s.Valid() && Fits(s.sizeMod, salt) && Fits(s.sizeMod, ikm) && Fits(s.sizeMod, info)
    requires Min(okmLen, 255 * 32) <= okm.Length && turns <= 255
    modifies s, okm
    ensures s.Valid()
    ensures var cut := Min(okmLen, 255 * 32);
            && Done(okm[..], old(okm[..]), HkdfStream(s.h, Hmac(s.h, salt, ikm), info, BlockCount(cut)),
                    Min(cut, 32 * turns))
            && (ended <==> BlockCount(cut) <= turns && BlockCount(cut) <= 254)
  {
    var prk := HmacOnce(s, salt, ikm);
    ended := Expand(s, prk, info, okm, okmLen, turns);
  }
}
