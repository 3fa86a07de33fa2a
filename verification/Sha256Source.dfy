/**
 The driver of os/lib/sha-256.c with the macros of the source: whole runs of it hand out what FIPS 180-4, RFC 2104 and
 RFC 5869 prescribe.
 */
module Sha256Source {
  import opened HashSpec
  import opened Hkdf
  import opened Sha256Constants
  import opened Sha256Runs
  import opened Sha256Session
  import opened Sha256Spec
  import opened Sha256Words

  type byte = bv8

  /** SHA-256 by FIPS 180-4. */
  function Reference(): (h: Hasher<seq<word>>)
    ensures h.Ok()
  {
    MacrosHashAlike();
    Sha(Fips())
  }

  /** The driver as it is linked: on a platform whose size_t has `sizes` values. */
  method Driver(sizes: nat) returns (s: Sha256<word>)
    requires sizes >= 0x1_0000
    ensures fresh(s) && s.Valid() && s.sizeMod == sizes && HashAlike(s.h, Reference())
    ensures s.checkpoint.opad == Zeros(64)
  {
    MacrosHashAlike();
    MacrosAdditive();
    s := new Sha256(Macros(), sizes);
  }

  // -------------------------------------------------------- hashers that hash alike

  lemma SameStep<S(!new), T(!new)>(h: Hasher<S>, g: Hasher<T>, sizeMod: nat, a: Machine, c: Call)
    requires h.Ok() && g.Ok() && HashAlike(h, g) && sizeMod > 0 && Allowed(a, c)
    ensures Step(h, sizeMod, a, c) == Step(g, sizeMod, a, c) && Output(h, sizeMod, a, c) == Output(g, sizeMod, a, c)
  {
    match c
    case HmacInit(key) => assert CountedKey(h, key, sizeMod) == CountedKey(g, key, sizeMod);
    case _ =>
  }

  /** They give every run the same outputs. */
  lemma {:induction false} SameOutputs<S(!new), T(!new)>(h: Hasher<S>, g: Hasher<T>, sizeMod: nat, a: Machine,
      cs: seq<Call>)
    requires h.Ok() && g.Ok() && HashAlike(h, g) && sizeMod > 0
    ensures Legal(h, sizeMod, a, cs) <==> Legal(g, sizeMod, a, cs)
    ensures Legal(h, sizeMod, a, cs) ==> Outputs(h, sizeMod, a, cs) == Outputs(g, sizeMod, a, cs)
    decreases |cs|
  {
    if cs != [] && Allowed(a, cs[0]) {
      SameStep(h, g, sizeMod, a, cs[0]);
      SameOutputs(h, g, sizeMod, Step(h, sizeMod, a, cs[0]), cs[1..]);
    }
  }

  lemma {:induction false} SameBlocks<S(!new), T(!new)>(h: Hasher<S>, g: Hasher<T>, prk: seq<byte>, info: seq<byte>,
      i: nat)
    requires h.Ok() && g.Ok() && HashAlike(h, g) && i <= 255
    ensures HkdfBlock(h, prk, info, i) == HkdfBlock(g, prk, info, i)
  {
    if i > 0 {
      SameBlocks(h, g, prk, info, i - 1);
      SameHmac(h, g, prk, HkdfBlock(h, prk, info, i - 1) + info + [i as byte]);
    }
  }

  lemma {:induction false} SameStream<S(!new), T(!new)>(h: Hasher<S>, g: Hasher<T>, prk: seq<byte>, info: seq<byte>,
      n: nat)
    requires h.Ok() && g.Ok() && HashAlike(h, g) && n <= 255
    ensures HkdfStream(h, prk, info, n) == HkdfStream(g, prk, info, n)
  {
    if n > 0 {
      SameStream(h, g, prk, info, n - 1);
      SameBlocks(h, g, prk, info, n);
    }
  }

  // ------------------------------------------------------------- what comes out

  /** Every legal run of the driver hands out what the message machine does over the reference. */
  method Run(sizes: nat, cs: seq<Call>) returns (outs: seq<seq<byte>>)
    requires sizes >= 0x1_0000 && Legal(Reference(), sizes, Machine(Closed, Zeros(64), []), cs)
    ensures outs == Outputs(Reference(), sizes, Machine(Closed, Zeros(64), []), cs)
  {
    var s := Driver(sizes);
    SameOutputs(s.h, Reference(), sizes, Machine(Closed, Zeros(64), []), cs);
    outs := Sha256Runs.Run(s, cs);
  }

  /** However a message is cut, what comes out is its SHA-256 digest. */
  method Sha256Of(sizes: nat, pieces: seq<seq<byte>>) returns (outs: seq<seq<byte>>)
    requires sizes >= 0x1_0000
    requires |Concat(pieces)| < 0x2000_0000_0000_0000 && forall p :: p in pieces ==> 8 * |p| < sizes
    ensures outs == [Digest(Reference(), Concat(pieces))]
  {
    DigestOfPieces(Reference(), sizes, Machine(Closed, Zeros(64), []), pieces);
    outs := Run(sizes, [Init] + (Feeds(pieces) + [Finalize]));
  }

  /** And its HMAC with SHA-256, for keys of every length. */
  method HmacSha256Of(sizes: nat, key: seq<byte>, pieces: seq<seq<byte>>) returns (outs: seq<seq<byte>>)
    requires sizes >= 0x1_0000 && 8 * |key| < sizes && |key| < 0x2000_0000_0000_0000
    requires |Concat(pieces)| + 64 < 0x2000_0000_0000_0000 && forall p :: p in pieces ==> 8 * |p| < sizes
    ensures outs == [Hmac(Reference(), key, Concat(pieces))]
  {
    HmacOfPieces(Reference(), sizes, Machine(Closed, Zeros(64), []), key, pieces);
    outs := Run(sizes, [HmacInit(key)] + (Feeds(pieces) + [HmacFinish]));
  }

  /** And the first bytes of HKDF's stream with SHA-256. */
  method HkdfSha256Of(sizes: nat, salt: seq<byte>, ikm: seq<byte>, info: seq<byte>, okm: array<byte>, okmLen: nat)
    requires sizes >= 0x1_0000 && Fits(sizes, salt) && Fits(sizes, ikm) && Fits(sizes, info)
    requires Min(okmLen, 255 * 32) <= okm.Length
    modifies okm
    ensures var cut := Min(okmLen, 255 * 32);
            var prk := Hmac(Reference(), salt, ikm);
            Done(okm[..], old(okm[..]), HkdfStream(Reference(), prk, info, BlockCount(cut)), cut)
  {
    ghost var cut := Min(okmLen, 255 * 32);
    var s := Driver(sizes);
    SameHmac(s.h, Reference(), salt, ikm);
    SameStream(s.h, Reference(), Hmac(s.h, salt, ikm), info, BlockCount(cut));
    var ended := ExtractAndExpand(s, salt, ikm, info, okm, okmLen, 255);
  }
}
