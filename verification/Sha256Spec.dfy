/**
 The compression function of FIPS 180-4 section 6.2.2, the reference for the block transform of
 os/lib/sha-256.c. Its structure does not depend on what the words are, so words are a type parameter
 and the operations on them a record; the module Sha256Words gives the 32-bit instance.
 */
module Sha256Spec {
  import opened HashSpec

  /** The operations on words, the constants K, the initial hash value, and the big-endian byte order. */
  datatype Primitives<!W> = Primitives(
    add: (W, W) -> W,
    ch: (W, W, W) -> W,
    maj: (W, W, W) -> W,
    bigSigma0: W -> W,
    bigSigma1: W -> W,
    smallSigma0: W -> W,
    smallSigma1: W -> W,
    k: seq<W>,
    iv: seq<W>,
    decode: (byte, byte, byte, byte) -> W,
    encode: W -> (byte, byte, byte, byte),
    zero: W)
  {
    predicate Ok()
    {
      |k| == 64 && |iv| == 8
    }
  }

  // ------------------------------------------------------------ section 6.2.2

  /** The eight working variables. */
  datatype Regs<W> = Regs(a: W, b: W, c: W, d: W, e: W, f: W, g: W, h: W)

  /** Step 3 for one t. */
  function Round<W>(p: Primitives<W>, r: Regs<W>, k: W, w: W): Regs<W>
  {
    var t1 := p.add(p.add(p.add(p.add(r.h, p.bigSigma1(r.e)), p.ch(r.e, r.f, r.g)), k), w);
    var t2 := p.add(p.bigSigma0(r.a), p.maj(r.a, r.b, r.c));
    Regs(p.add(t1, t2), r.a, r.b, r.c, p.add(r.d, t1), r.e, r.f, r.g)
  }

  /** Step 1: the message schedule over the 16 words of a block. */
  function Schedule<W>(p: Primitives<W>, block: seq<W>, t: nat): W
    requires |block| == 16
  {
    if t < 16 then block[t]
    else
      p.add(p.add(p.add(p.smallSigma1(Schedule(p, block, t - 2)), Schedule(p, block, t - 7)),
                  p.smallSigma0(Schedule(p, block, t - 15))), Schedule(p, block, t - 16))
  }

  /** The working variables after the first t rounds. */
  function Rounds<W>(p: Primitives<W>, r: Regs<W>, block: seq<W>, t: nat): Regs<W>
    requires p.Ok() && |block| == 16 && t <= 64
  {
    if t == 0 then r else Round(p, Rounds(p, r, block, t - 1), p.k[t - 1], Schedule(p, block, t - 1))
  }

  /** The words of a block. */
  function Words<W>(p: Primitives<W>, b: seq<byte>): (w: seq<W>)
    requires |b| == 64
    ensures |w| == 16
  {
    seq(16, i requires 0 <= i < 16 => p.decode(b[4 * i], b[4 * i + 1], b[4 * i + 2], b[4 * i + 3]))
  }

  function RegsOf<W>(s: seq<W>): Regs<W>
    requires |s| == 8
  {
    Regs(s[0], s[1], s[2], s[3], s[4], s[5], s[6], s[7])
  }

  /** Step 4: the new hash value. */
  function Compress<W>(p: Primitives<W>, s: seq<W>, block: seq<byte>): (s': seq<W>)
    requires p.Ok() && |s| == 8 && |block| == 64
    ensures |s'| == 8
  {
    var r := Rounds(p, RegsOf(s), Words(p, block), |p.k|);
    [p.add(s[0], r.a), p.add(s[1], r.b), p.add(s[2], r.c), p.add(s[3], r.d),
     p.add(s[4], r.e), p.add(s[5], r.f), p.add(s[6], r.g), p.add(s[7], r.h)]
  }

  function Encode<W>(p: Primitives<W>, s: seq<W>): (b: seq<byte>)
    ensures |b| == 4 * |s|
  {
    if s == [] then [] else
      var (b0, b1, b2, b3) := p.encode(s[|s| - 1]);
      Encode(p, s[..|s| - 1]) + [b0, b1, b2, b3]
  }

  /** The hash function as a whole, on hash values of eight words. */
  function Sha<W(!new)>(p: Primitives<W>): Hasher<seq<W>>
    requires p.Ok()
  {
    Hasher((s: seq<W>, b: seq<byte>) => if |s| == 8 && |b| == 64 then Compress(p, s, b) else s,
           p.iv,
           (s: seq<W>) => if |s| == 8 then Encode(p, s) else seq(32, _ => 0))
  }
}
