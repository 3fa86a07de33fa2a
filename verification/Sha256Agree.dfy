/**
 Operations on words that agree on all words give the same hash of every message.
 */
module Sha256Agree {
  import opened HashSpec
  import opened Sha256Spec

  ghost predicate AgreeOn<W>(p: Primitives<W>, q: Primitives<W>, x: W, y: W, z: W)
  {
    && p.add(x, y) == q.add(x, y) && p.ch(x, y, z) == q.ch(x, y, z) && p.maj(x, y, z) == q.maj(x, y, z)
    && p.bigSigma0(x) == q.bigSigma0(x) && p.bigSigma1(x) == q.bigSigma1(x)
    && p.smallSigma0(x) == q.smallSigma0(x) && p.smallSigma1(x) == q.smallSigma1(x)
    && p.encode(x) == q.encode(x)
  }

  ghost predicate AgreeOnBytes<W>(p: Primitives<W>, q: Primitives<W>, a: byte, b: byte, c: byte, d: byte)
  {
    p.decode(a, b, c, d) == q.decode(a, b, c, d)
  }

  ghost predicate Agree<W(!new)>(p: Primitives<W>, q: Primitives<W>)
  {
    && p.k == q.k && p.iv == q.iv && p.Ok()
    && (forall x, y, z {:trigger AgreeOn(p, q, x, y, z)} :: AgreeOn(p, q, x, y, z))
    && (forall a, b, c, d {:trigger AgreeOnBytes(p, q, a, b, c, d)} :: AgreeOnBytes(p, q, a, b, c, d))
  }

  lemma SameRound<W(!new)>(p: Primitives<W>, q: Primitives<W>, r: Regs<W>, k: W, w: W)
    requires Agree(p, q)
    ensures Round(p, r, k, w) == Round(q, r, k, w)
  {
    assert AgreeOn(p, q, r.e, r.f, r.g) && AgreeOn(p, q, r.a, r.b, r.c);
    var s1 := p.bigSigma1(r.e);
    var u := p.add(r.h, s1);
    assert AgreeOn(p, q, r.h, s1, s1);
    var v := p.add(u, p.ch(r.e, r.f, r.g));
    assert AgreeOn(p, q, u, p.ch(r.e, r.f, r.g), u);
    assert AgreeOn(p, q, v, k, v) && AgreeOn(p, q, p.add(v, k), w, w);
    var t1 := p.add(p.add(v, k), w);
    var t2 := p.add(p.bigSigma0(r.a), p.maj(r.a, r.b, r.c));
    assert AgreeOn(p, q, p.bigSigma0(r.a), p.maj(r.a, r.b, r.c), t1);
    assert AgreeOn(p, q, t1, t2, t1) && AgreeOn(p, q, r.d, t1, t1);
  }

  lemma {:induction false} SameSchedule<W(!new)>(p: Primitives<W>, q: Primitives<W>, block: seq<W>, t: nat)
    requires Agree(p, q) && |block| == 16
    ensures Schedule(p, block, t) == Schedule(q, block, t)
  {
    if t >= 16 {
      SameSchedule(p, q, block, t - 2);
      SameSchedule(p, q, block, t - 7);
      SameSchedule(p, q, block, t - 15);
      SameSchedule(p, q, block, t - 16);
      SameSum(p, q, Schedule(p, block, t - 2), Schedule(p, block, t - 7), Schedule(p, block, t - 15),
        Schedule(p, block, t - 16));
    }
  }

  lemma SameSum<W(!new)>(p: Primitives<W>, q: Primitives<W>, a: W, b: W, c: W, d: W)
    requires Agree(p, q)
    ensures p.add(p.add(p.add(p.smallSigma1(a), b), p.smallSigma0(c)), d)
         == q.add(q.add(q.add(q.smallSigma1(a), b), q.smallSigma0(c)), d)
  {
    assert AgreeOn(p, q, a, a, a) && AgreeOn(p, q, c, c, c);
    var u := p.add(p.smallSigma1(a), b);
    assert AgreeOn(p, q, p.smallSigma1(a), b, b) && AgreeOn(p, q, u, p.smallSigma0(c), u);
    assert AgreeOn(p, q, p.add(u, p.smallSigma0(c)), d, d);
  }

  lemma {:induction false} SameRounds<W(!new)>(p: Primitives<W>, q: Primitives<W>, r: Regs<W>, block: seq<W>, t: nat)
    requires Agree(p, q) && q.Ok() && |block| == 16 && t <= 64
    ensures Rounds(p, r, block, t) == Rounds(q, r, block, t)
  {
    if t > 0 {
      SameRounds(p, q, r, block, t - 1);
      SameSchedule(p, q, block, t - 1);
      SameRound(p, q, Rounds(p, r, block, t - 1), p.k[t - 1], Schedule(p, block, t - 1));
    }
  }

  lemma SameWords<W(!new)>(p: Primitives<W>, q: Primitives<W>, b: seq<byte>)
    requires Agree(p, q) && |b| == 64
    ensures Words(p, b) == Words(q, b)
  {
    forall i | 0 <= i < 16 ensures Words(p, b)[i] == Words(q, b)[i] {
      assert AgreeOnBytes(p, q, b[4 * i], b[4 * i + 1], b[4 * i + 2], b[4 * i + 3]);
    }
  }

  lemma SameCompress<W(!new)>(p: Primitives<W>, q: Primitives<W>, s: seq<W>, b: seq<byte>)
    requires Agree(p, q) && q.Ok() && |s| == 8 && |b| == 64
    ensures Compress(p, s, b) == Compress(q, s, b)
  {
    SameWords(p, q, b);
    SameRounds(p, q, RegsOf(s), Words(p, b), |p.k|);
    var r := Rounds(p, RegsOf(s), Words(p, b), |p.k|);
    assert AgreeOn(p, q, s[0], r.a, r.a) && AgreeOn(p, q, s[1], r.b, r.b) && AgreeOn(p, q, s[2], r.c, r.c)
        && AgreeOn(p, q, s[3], r.d, r.d) && AgreeOn(p, q, s[4], r.e, r.e) && AgreeOn(p, q, s[5], r.f, r.f)
        && AgreeOn(p, q, s[6], r.g, r.g) && AgreeOn(p, q, s[7], r.h, r.h);
  }

  /** Two compression functions agree on a hash value and a block. */
  ghost predicate AgreeOnBlock<W>(f: (seq<W>, seq<byte>) -> seq<W>, g: (seq<W>, seq<byte>) -> seq<W>, h: seq<W>,
      b: seq<byte>)
  {
    |h| == 8 && |b| == 64 ==> f(h, b) == g(h, b) && |f(h, b)| == 8
  }

  lemma {:induction false} SameFold<W(!new)>(f: (seq<W>, seq<byte>) -> seq<W>, g: (seq<W>, seq<byte>) -> seq<W>,
      s: seq<W>, m: seq<byte>, k: nat)
    requires forall h, b {:trigger AgreeOnBlock(f, g, h, b)} :: AgreeOnBlock(f, g, h, b)
    requires |s| == 8 && 64 * k <= |m|
    ensures |Fold(f, s, m, k)| == 8 && Fold(f, s, m, k) == Fold(g, s, m, k)
  {
    if k > 0 {
      SameFold(f, g, s, m, k - 1);
      assert AgreeOnBlock(f, g, Fold(f, s, m, k - 1), m[64 * (k - 1)..64 * k]);
    }
  }

  lemma SameBlock<W(!new)>(p: Primitives<W>, q: Primitives<W>, h: seq<W>, b: seq<byte>)
    requires Agree(p, q) && q.Ok()
    ensures AgreeOnBlock(Sha(p).compress, Sha(q).compress, h, b)
  {
    if |h| == 8 && |b| == 64 {
      SameCompress(p, q, h, b);
      assert Sha(p).compress(h, b) == Compress(p, h, b) && Sha(q).compress(h, b) == Compress(q, h, b);
    }
  }

  lemma {:induction false} SameEncode<W(!new)>(p: Primitives<W>, q: Primitives<W>, s: seq<W>)
    requires Agree(p, q)
    ensures Encode(p, s) == Encode(q, s)
  {
    if s != [] {
      SameEncode(p, q, s[..|s| - 1]);
      var x := s[|s| - 1];
      assert AgreeOn(p, q, x, x, x);
    }
  }

  /** Agreeing primitives give the same digest of every message, whatever bit count is appended to it. */
  lemma SameDigest<W(!new)>(p: Primitives<W>, q: Primitives<W>, m: seq<byte>, bits: nat)
    requires Agree(p, q) && q.Ok() && Sha(p).Ok() && Sha(q).Ok()
    ensures DigestOf(Sha(p), m, bits) == DigestOf(Sha(q), m, bits)
  {
    var x := m + Padding(|m|, bits);
    var k := PaddedBlocks(|m|);
    var f, g := Sha(p).compress, Sha(q).compress;
    forall h, b {:trigger AgreeOnBlock(f, g, h, b)} ensures AgreeOnBlock(f, g, h, b) {
      SameBlock(p, q, h, b);
    }
    SameFold(f, g, p.iv, x, k);
    SameEncode(p, q, Fold(Sha(p).compress, p.iv, x, k));
  }
}
