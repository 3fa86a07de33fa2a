/**
 os/lib/sha-256.c: whole runs of the driver. Every call sequence, with checkpoints saved and restored around
 other sessions, gives the digests and tags of an abstract machine that only remembers messages.
 */
module Sha256Runs {
  import opened ByteFacts
  import opened HashSpec
  import opened Sha256Spec
  import opened Sha256Session

  /** What has been taken in since init, and the bit count before it is reduced modulo 2^64. */
  datatype Session = Closed | Open(m: seq<byte>, bits: nat)

  /** The session under way, HMAC's outer pad, and the saved checkpoints. */
  datatype Machine = Machine(cur: Session, opad: seq<byte>, saved: seq<(Session, seq<byte>)>)

  datatype Call =
    | Init
    | Update(data: seq<byte>)
    | Finalize
    | Hash(data: seq<byte>)
    | Save
    | Restore(slot: nat)
    | HmacInit(key: seq<byte>)
    | HmacFinish

  predicate Allowed(a: Machine, c: Call)
  {
    match c
    case Update(_) | Finalize | HmacFinish => a.cur.Open?
    case Restore(slot) => slot < |a.saved|
    case _ => true
  }

  function Step<S(!new)>(h: Hasher<S>, sizeMod: nat, a: Machine, c: Call): Machine
    requires h.Ok() && sizeMod > 0 && Allowed(a, c)
  {
    match c
    case Init => a.(cur := Open([], 0))
    case Update(data) => a.(cur := Open(a.cur.m + data, a.cur.bits + 8 * |data| % sizeMod))
    case Finalize => a.(cur := Closed)
    case Hash(_) => a.(cur := Closed)
    case Save => a.(saved := a.saved + [(a.cur, a.opad)])
    case Restore(slot) => a.(cur := a.saved[slot].0, opad := a.saved[slot].1)
    case HmacInit(key) =>
      var k0 := CountedKey(h, key, sizeMod);
      a.(cur := Open(XorAll(k0, 0x36), 512), opad := XorAll(k0, 0x5c))
    case HmacFinish => a.(cur := Closed, opad := Zeros(64))
  }

  /** What a call hands out. */
  function Output<S(!new)>(h: Hasher<S>, sizeMod: nat, a: Machine, c: Call): seq<seq<byte>>
    requires h.Ok() && sizeMod > 0 && Allowed(a, c)
  {
    match c
    case Finalize => [DigestOf(h, a.cur.m, a.cur.bits % COUNT_MOD)]
    case Hash(data) => [DigestOf(h, data, 8 * |data| % sizeMod % COUNT_MOD)]
    case HmacFinish => [DigestOf(h, a.opad + DigestOf(h, a.cur.m, a.cur.bits % COUNT_MOD), 768)]
    case _ => []
  }

  predicate Legal<S(!new)>(h: Hasher<S>, sizeMod: nat, a: Machine, cs: seq<Call>)
    requires h.Ok() && sizeMod > 0
    decreases |cs|
  {
    cs == [] || (Allowed(a, cs[0]) && Legal(h, sizeMod, Step(h, sizeMod, a, cs[0]), cs[1..]))
  }

  function After<S(!new)>(h: Hasher<S>, sizeMod: nat, a: Machine, cs: seq<Call>): Machine
    requires h.Ok() && sizeMod > 0 && Legal(h, sizeMod, a, cs)
    decreases |cs|
  {
    if cs == [] then a else After(h, sizeMod, Step(h, sizeMod, a, cs[0]), cs[1..])
  }

  function Outputs<S(!new)>(h: Hasher<S>, sizeMod: nat, a: Machine, cs: seq<Call>): seq<seq<byte>>
    requires h.Ok() && sizeMod > 0 && Legal(h, sizeMod, a, cs)
    decreases |cs|
  {
    if cs == [] then [] else Output(h, sizeMod, a, cs[0]) + Outputs(h, sizeMod, Step(h, sizeMod, a, cs[0]), cs[1..])
  }

  // ------------------------------------------------- the driver refines the machine

  /** A checkpoint stands for a session and an outer pad. */
  ghost predicate Stands<W(!new)>(h: Hasher<seq<W>>, cp: Checkpoint<seq<W>>, cur: Session, opad: seq<byte>)
  {
    && |cp.state| == 8 && |cp.buf| == 64 && |cp.opad| == 64
    && cp.opad == opad && (cur.Open? ==> Absorbed(h, cp, cur.m, cur.bits))
  }

  ghost predicate AllStand<W(!new)>(h: Hasher<seq<W>>, saved: seq<Checkpoint<seq<W>>>, slots: seq<(Session, seq<byte>)>)
  {
    && |saved| == |slots|
    && forall i {:trigger saved[i]} :: 0 <= i < |saved| ==> Stands(h, saved[i], slots[i].0, slots[i].1)
  }

  /** The calls that work on the current session. */
  method Serve<W(!new)>(s: Sha256<W>, c: Call, ghost a: Machine) returns (out: seq<seq<byte>>)
    requires s.Valid() && Stands(s.h, s.checkpoint, a.cur, a.opad) && Allowed(a, c) && !c.Save? && !c.Restore?
    modifies s
    ensures s.Valid()
    ensures var b := Step(s.h, s.sizeMod, a, c); b.saved == a.saved && Stands(s.h, s.checkpoint, b.cur, b.opad)
    ensures out == Output(s.h, s.sizeMod, a, c)
  {
    out := [];
    match c {
      case Init => s.Init();
      case Update(data) => s.Update(data, a.cur.m, a.cur.bits);
      case Finalize =>
        var d := s.Finalize(a.cur.m, a.cur.bits);
        out := [d];
      case Hash(data) =>
        var d := s.Hash(data);
        out := [d];
      case HmacInit(key) => s.HmacInit(key);
      case HmacFinish =>
        var d := s.HmacFinish(a.cur.m, a.cur.bits);
        out := [d];
    }
  }

  /** One call. */
  method Do<W(!new)>(s: Sha256<W>, saved: seq<Checkpoint<seq<W>>>, c: Call, ghost a: Machine)
    returns (out: seq<seq<byte>>, saved': seq<Checkpoint<seq<W>>>)
    requires s.Valid() && Stands(s.h, s.checkpoint, a.cur, a.opad) && AllStand(s.h, saved, a.saved) && Allowed(a, c)
    modifies s
    ensures s.Valid()
    ensures var b := Step(s.h, s.sizeMod, a, c);
            Stands(s.h, s.checkpoint, b.cur, b.opad) && AllStand(s.h, saved', b.saved)
    ensures out == Output(s.h, s.sizeMod, a, c)
  {
    out, saved' := [], saved;
    match c {
      case Save =>
        var cp := s.Save();
        saved' := saved + [cp];
      case Restore(slot) =>
        assert Stands(s.h, saved[slot], a.saved[slot].0, a.saved[slot].1);
        s.Restore(saved[slot]);
      case _ =>
        out := Serve(s, c, a);
    }
  }

  /** The outputs of a run whose first i calls are done. */
  lemma OutputsFrom<S(!new)>(h: Hasher<S>, sizeMod: nat, a: Machine, cs: seq<Call>, i: nat)
    requires h.Ok() && sizeMod > 0 && i < |cs| && Legal(h, sizeMod, a, cs[i..])
    ensures Allowed(a, cs[i]) && Legal(h, sizeMod, Step(h, sizeMod, a, cs[i]), cs[i + 1..])
    ensures Outputs(h, sizeMod, a, cs[i..])
         == Output(h, sizeMod, a, cs[i]) + Outputs(h, sizeMod, Step(h, sizeMod, a, cs[i]), cs[i + 1..])
  {
    assert cs[i..][0] == cs[i] && cs[i..][1..] == cs[i + 1..];
  }

  /** Every run hands out what the machine says. */
  method Run<W(!new)>(s: Sha256<W>, cs: seq<Call>) returns (outs: seq<seq<byte>>)
    requires s.Valid() && Legal(s.h, s.sizeMod, Machine(Closed, s.checkpoint.opad, []), cs)
    modifies s
    ensures s.Valid()
    ensures outs == Outputs(s.h, s.sizeMod, Machine(Closed, old(s.checkpoint).opad, []), cs)
  {
    assert cs[0..] == cs;
    outs := RunFrom(s, cs, 0, [], Machine(Closed, s.checkpoint.opad, []));
  }

  /** The run from its i-th call on. */
  method RunFrom<W(!new)>(s: Sha256<W>, cs: seq<Call>, i: nat, saved: seq<Checkpoint<seq<W>>>, ghost a: Machine)
    returns (outs: seq<seq<byte>>)
    requires s.Valid() && Stands(s.h, s.checkpoint, a.cur, a.opad) && AllStand(s.h, saved, a.saved)
    requires i <= |cs| && Legal(s.h, s.sizeMod, a, cs[i..])
    modifies s
    ensures s.Valid() && outs == Outputs(s.h, s.sizeMod, a, cs[i..])
    decreases |cs| - i
  {
    if i == |cs| {
      return [];
    }
    OutputsFrom(s.h, s.sizeMod, a, cs, i);
    var out, saved' := Do(s, saved, cs[i], a);
    outs := RunFrom(s, cs, i + 1, saved', Step(s.h, s.sizeMod, a, cs[i]));
    outs := out + outs;
  }

  // ---------------------------------------------- what the machine's digests are

  function Concat(pieces: seq<seq<byte>>): (m: seq<byte>)
  {
    if pieces == [] then [] else pieces[0] + Concat(pieces[1..])
  }

  /** The bits that update counts for the pieces. */
  function Counted(sizeMod: nat, pieces: seq<seq<byte>>): (bits: nat)
    requires sizeMod > 0
  {
    if pieces == [] then 0 else 8 * |pieces[0]| % sizeMod + Counted(sizeMod, pieces[1..])
  }

  /** The whole length is counted iff size_t can hold the length in bits of every piece. */
  lemma {:induction false} CountedExactly(sizeMod: nat, pieces: seq<seq<byte>>)
    requires sizeMod > 0
    ensures Counted(sizeMod, pieces) <= 8 * |Concat(pieces)|
    ensures Counted(sizeMod, pieces) == 8 * |Concat(pieces)| <==> forall p :: p in pieces ==> 8 * |p| < sizeMod
  {
    if pieces != [] {
      CountedExactly(sizeMod, pieces[1..]);
      CountExact(|pieces[0]|, sizeMod);
      assert forall p :: p in pieces <==> p == pieces[0] || p in pieces[1..];
    }
  }

  lemma {:induction false} DigitsInjective(a: nat, b: nat, c: nat)
    requires a < Pow256(c) && b < Pow256(c)
    requires forall k {:trigger Digit(a, k)} :: 0 <= k < c ==> Digit(a, k) == Digit(b, k)
    ensures a == b
  {
    if c > 0 {
      DivBound(a, Pow256(c - 1));
      DivBound(b, Pow256(c - 1));
      assert Digit(a, 0) == Digit(b, 0);
      forall k {:trigger Digit(a / 256, k)} | 0 <= k < c - 1 ensures Digit(a / 256, k) == Digit(b / 256, k) {
        assert Digit(a, k + 1) == Digit(b, k + 1);
      }
      DigitsInjective(a / 256, b / 256, c - 1);
    }
  }

  lemma DigitAt(a: nat, c: nat, k: nat)
    requires k < c
    ensures BigEndian(a, c)[c - 1 - k] as nat == Digit(a, k)
  {
    assert BigEndian(a, c)[c - 1 - k] == Digit(a, k) as byte;
    ByteRoundTrip(Digit(a, k));
  }

  lemma BigEndianInjective(a: nat, b: nat, c: nat)
    requires a < Pow256(c) && b < Pow256(c) && BigEndian(a, c) == BigEndian(b, c)
    ensures a == b
  {
    forall k {:trigger Digit(a, k)} | 0 <= k < c ensures Digit(a, k) == Digit(b, k) {
      DigitAt(a, c, k);
      DigitAt(b, c, k);
    }
    DigitsInjective(a, b, c);
  }

  function Pow256(c: nat): (p: nat)
    ensures p > 0
  {
    if c == 0 then 1 else 256 * Pow256(c - 1)
  }

  lemma DivBound(a: nat, p: nat)
    requires a < 256 * p
    ensures a / 256 < p
  {
  }

  lemma Pow256Eight()
    ensures Pow256(8) == COUNT_MOD
  {
    assert Pow256(4) == 0x1_0000_0000;
    assert Pow256(6) == 0x1_0000_0000_0000;
  }

  lemma PaddingInjective(n: nat, a: nat, b: nat)
    requires a < COUNT_MOD && b < COUNT_MOD
    ensures Padding(n, a) == Padding(n, b) <==> a == b
  {
    var x, y := Padding(n, a), Padding(n, b);
    var k := 64 * PaddedBlocks(n) - n - 8;
    assert x[k..] == BigEndian(a, 8) && y[k..] == BigEndian(b, 8);
    Pow256Eight();
    if x == y {
      BigEndianInjective(a, b, 8);
    }
  }

  /** The padding that is mixed in for a message of n bytes is the standard's. */
  ghost predicate StandardPadding(n: nat, bits: nat)
  {
    Padding(n, bits % COUNT_MOD) == Padding(n, 8 * n)
  }

  lemma StandardIff(n: nat, bits: nat)
    requires bits <= 8 * n < COUNT_MOD
    ensures StandardPadding(n, bits) <==> bits == 8 * n
  {
    assert bits % COUNT_MOD == bits;
    PaddingInjective(n, bits, 8 * n);
  }

  /** For messages below 2^61 bytes, the padding mixed in is the standard's iff every piece was counted in full. */
  lemma PaddingExactly(sizeMod: nat, pieces: seq<seq<byte>>)
    requires sizeMod > 0 && |Concat(pieces)| < 0x2000_0000_0000_0000
    ensures StandardPadding(|Concat(pieces)|, Counted(sizeMod, pieces))
            <==> forall p :: p in pieces ==> 8 * |p| < sizeMod
  {
    CountedExactly(sizeMod, pieces);
    StandardIff(|Concat(pieces)|, Counted(sizeMod, pieces));
  }

  /** The updates that feed the pieces. */
  function Feeds(pieces: seq<seq<byte>>): (cs: seq<Call>)
    ensures |cs| == |pieces|
  {
    seq(|pieces|, i requires 0 <= i < |pieces| => Update(pieces[i]))
  }

  lemma {:induction false} FeedsAll<S(!new)>(h: Hasher<S>, sizeMod: nat, a: Machine, pieces: seq<seq<byte>>,
      rest: seq<Call>)
    requires h.Ok() && sizeMod > 0 && a.cur.Open?
    requires var b := a.(cur := Open(a.cur.m + Concat(pieces), a.cur.bits + Counted(sizeMod, pieces)));
             Legal(h, sizeMod, b, rest)
    ensures var b := a.(cur := Open(a.cur.m + Concat(pieces), a.cur.bits + Counted(sizeMod, pieces)));
            Legal(h, sizeMod, a, Feeds(pieces) + rest) &&
              Outputs(h, sizeMod, a, Feeds(pieces) + rest) == Outputs(h, sizeMod, b, rest)
    decreases |pieces|
  {
    if pieces == [] {
      assert a.cur.m + Concat(pieces) == a.cur.m && Feeds(pieces) + rest == rest;
    } else {
      var a' := Step(h, sizeMod, a, Update(pieces[0]));
      assert a.cur.m + Concat(pieces) == a'.cur.m + Concat(pieces[1..]);
      FeedsAll(h, sizeMod, a', pieces[1..], rest);
      assert (Feeds(pieces) + rest)[1..] == Feeds(pieces[1..]) + rest;
    }
  }

  lemma FirstCall<S(!new)>(h: Hasher<S>, sizeMod: nat, a: Machine, c: Call, rest: seq<Call>)
    requires h.Ok() && sizeMod > 0 && Allowed(a, c) && Legal(h, sizeMod, Step(h, sizeMod, a, c), rest)
    ensures Legal(h, sizeMod, a, [c] + rest)
    ensures Outputs(h, sizeMod, a, [c] + rest) ==
            Output(h, sizeMod, a, c) + Outputs(h, sizeMod, Step(h, sizeMod, a, c), rest)
    ensures After(h, sizeMod, a, [c] + rest) == After(h, sizeMod, Step(h, sizeMod, a, c), rest)
  {
    assert ([c] + rest)[1..] == rest;
  }

  lemma LastCall<S(!new)>(h: Hasher<S>, sizeMod: nat, a: Machine, c: Call)
    requires h.Ok() && sizeMod > 0 && Allowed(a, c)
    ensures Legal(h, sizeMod, a, [c]) && Outputs(h, sizeMod, a, [c]) == Output(h, sizeMod, a, c)
  {
    FirstCall(h, sizeMod, a, c, []);
    assert [c] + [] == [c];
  }

  /** The run of a session: its first call, the pieces, its last call. */
  lemma SessionOutputs<S(!new)>(h: Hasher<S>, sizeMod: nat, a: Machine, first: Call, pieces: seq<seq<byte>>, last: Call)
    requires h.Ok() && sizeMod > 0 && (first.Init? || first.HmacInit?) && (last.Finalize? || last.HmacFinish?)
    ensures var cs := [first] + (Feeds(pieces) + [last]);
            var b := Step(h, sizeMod, a, first);
            var c := b.(cur := Open(b.cur.m + Concat(pieces), b.cur.bits + Counted(sizeMod, pieces)));
            Legal(h, sizeMod, a, cs) && Outputs(h, sizeMod, a, cs) == Output(h, sizeMod, c, last)
  {
    var b := Step(h, sizeMod, a, first);
    var c := b.(cur := Open(b.cur.m + Concat(pieces), b.cur.bits + Counted(sizeMod, pieces)));
    LastCall(h, sizeMod, c, last);
    FeedsAll(h, sizeMod, b, pieces, [last]);
    FirstCall(h, sizeMod, a, first, Feeds(pieces) + [last]);
  }

  lemma DigestCounted<S(!new)>(h: Hasher<S>, m: seq<byte>, bits: nat)
    requires h.Ok() && bits == 8 * |m| < COUNT_MOD
    ensures DigestOf(h, m, bits % COUNT_MOD) == DigestOf(h, m, bits) == Digest(h, m)
  {
    assert bits % COUNT_MOD == bits;
  }

  /** However a message is cut into updates, the digest is that of the whole message. */
  lemma DigestOfPieces<S(!new)>(h: Hasher<S>, sizeMod: nat, a: Machine, pieces: seq<seq<byte>>)
    requires h.Ok() && sizeMod > 0
    requires |Concat(pieces)| < 0x2000_0000_0000_0000 && forall p :: p in pieces ==> 8 * |p| < sizeMod
    ensures var cs := [Init] + (Feeds(pieces) + [Finalize]);
            Legal(h, sizeMod, a, cs) && Outputs(h, sizeMod, a, cs) == [Digest(h, Concat(pieces))]
  {
    SessionOutputs(h, sizeMod, a, Init, pieces, Finalize);
    CountedExactly(sizeMod, pieces);
    assert [] + Concat(pieces) == Concat(pieces);
    DigestCounted(h, Concat(pieces), Counted(sizeMod, pieces));
  }

  /** The key block is that of RFC 2104 when size_t can hold the key's length in bits. */
  lemma CountedKeyExact<S(!new)>(h: Hasher<S>, sizeMod: nat, key: seq<byte>)
    requires h.Ok() && sizeMod > 0 && 8 * |key| < sizeMod && |key| < 0x2000_0000_0000_0000
    ensures CountedKey(h, key, sizeMod) == BlockKey(h, key)
  {
    CountExact(|key|, sizeMod);
    DigestCounted(h, key, 8 * |key|);
    assert 8 * |key| % sizeMod % COUNT_MOD == 8 * |key| % COUNT_MOD;
  }

  lemma HmacIsTwoDigests<S(!new)>(h: Hasher<S>, key: seq<byte>, m: seq<byte>)
    requires h.Ok() && |m| + 64 < 0x2000_0000_0000_0000
    ensures var k0 := BlockKey(h, key);
            DigestOf(h, XorAll(k0, 0x5c) + DigestOf(h, XorAll(k0, 0x36) + m, (512 + 8 * |m|) % COUNT_MOD), 768) ==
              Hmac(h, key, m)
  {
    var k0 := BlockKey(h, key);
    var inner := XorAll(k0, 0x36) + m;
    DigestCounted(h, inner, 512 + 8 * |m|);
    DigestCounted(h, XorAll(k0, 0x5c) + Digest(h, inner), 768);
  }

  /** The stepwise HMAC is HMAC of the whole message, for keys of every length. */
  lemma HmacOfPieces<S(!new)>(h: Hasher<S>, sizeMod: nat, a: Machine, key: seq<byte>, pieces: seq<seq<byte>>)
    requires h.Ok() && sizeMod > 0 && 8 * |key| < sizeMod && |key| < 0x2000_0000_0000_0000
    requires |Concat(pieces)| + 64 < 0x2000_0000_0000_0000 && forall p :: p in pieces ==> 8 * |p| < sizeMod
    ensures var cs := [HmacInit(key)] + (Feeds(pieces) + [HmacFinish]);
            Legal(h, sizeMod, a, cs) && Outputs(h, sizeMod, a, cs) == [Hmac(h, key, Concat(pieces))]
  {
    CountedKeyExact(h, sizeMod, key);
    SessionOutputs(h, sizeMod, a, HmacInit(key), pieces, HmacFinish);
    CountedExactly(sizeMod, pieces);
    HmacIsTwoDigests(h, key, Concat(pieces));
  }

  // --------------------------------------------------------------- checkpoints

  /** Saved checkpoints stay. */
  lemma {:induction false} SavedStay<S(!new)>(h: Hasher<S>, sizeMod: nat, a: Machine, cs: seq<Call>)
    requires h.Ok() && sizeMod > 0 && Legal(h, sizeMod, a, cs)
    ensures a.saved <= After(h, sizeMod, a, cs).saved
    decreases |cs|
  {
    if cs != [] {
      SavedStay(h, sizeMod, Step(h, sizeMod, a, cs[0]), cs[1..]);
    }
  }

  lemma {:induction false} AfterConcat<S(!new)>(h: Hasher<S>, sizeMod: nat, a: Machine, cs: seq<Call>, ds: seq<Call>)
    requires h.Ok() && sizeMod > 0 && Legal(h, sizeMod, a, cs) && Legal(h, sizeMod, After(h, sizeMod, a, cs), ds)
    ensures Legal(h, sizeMod, a, cs + ds)
    ensures After(h, sizeMod, a, cs + ds) == After(h, sizeMod, After(h, sizeMod, a, cs), ds)
    decreases |cs|
  {
    if cs == [] {
      assert cs + ds == ds;
    } else {
      AfterConcat(h, sizeMod, Step(h, sizeMod, a, cs[0]), cs[1..], ds);
      assert (cs + ds)[1..] == cs[1..] + ds;
    }
  }

  /** Saving, doing anything at all, and restoring. */
  function Detour(a: Machine, ds: seq<Call>): seq<Call>
  {
    [Save] + (ds + [Restore(|a.saved|)])
  }

  /** A detour through other sessions, with checkpoints of their own, brings the session back as it was. */
  lemma DetourReturns<S(!new)>(h: Hasher<S>, sizeMod: nat, a: Machine, ds: seq<Call>)
    requires h.Ok() && sizeMod > 0 && Legal(h, sizeMod, Step(h, sizeMod, a, Save), ds)
    ensures Legal(h, sizeMod, a, Detour(a, ds))
    ensures var b := After(h, sizeMod, a, Detour(a, ds)); b.cur == a.cur && b.opad == a.opad
  {
    var a' := Step(h, sizeMod, a, Save);
    var n := |a.saved|;
    SavedStay(h, sizeMod, a', ds);
    var c := After(h, sizeMod, a', ds);
    assert c.saved[n] == a'.saved[n] == (a.cur, a.opad);
    assert Legal(h, sizeMod, c, [Restore(n)]);
    AfterConcat(h, sizeMod, a', ds, [Restore(n)]);
    FirstCall(h, sizeMod, a, Save, ds + [Restore(n)]);
  }
}
