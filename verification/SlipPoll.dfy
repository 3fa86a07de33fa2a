/**
 The decoding loops of slip_poll_handler in os/dev/slip.c, for packets of any length: what they make of packets that
 are too long for the buffer given.
 */
module SlipPoll {
  import opened SlipSpec

  /** A decoder goes on with s. */
  function DecodeFrom(d: Decoder, s: seq<byte>): Decoder
    decreases |s|
  {
    if s == [] then d else DecodeFrom(DecodeByte(d, s[0]), s[1..])
  }

  /** A decoding loop: before a character, it gives up with nothing if more than blen bytes were put out. */
  function Pour(d: Decoder, s: seq<byte>, blen: nat): Decoder
    decreases |s|
  {
    if s == [] then d
    else if |d.out| > blen then Decoder([], d.esc)
    else Pour(DecodeByte(d, s[0]), s[1..], blen)
  }

  /** One loop for a packet that lies in one piece, two for one that goes around the end of the ring. */
  function Polled(buf: seq<byte>, p: nat, q: nat, blen: nat): Decoder
    requires p < |buf| && q < |buf|
  {
    var d := Decoder([], false);
    if p <= q then Pour(d, buf[p..q], blen) else Pour(Pour(d, buf[p..], blen), buf[..q], blen)
  }

  // ------------------------------------------------------------------ decoders

  lemma {:induction false} DecodeGrows(d: Decoder, s: seq<byte>)
    ensures |d.out| <= |DecodeFrom(d, s).out|
    decreases |s|
  {
    if s != [] {
      DecodeGrows(DecodeByte(d, s[0]), s[1..]);
    }
  }

  lemma {:induction false} DecodeParts(d: Decoder, s: seq<byte>, t: seq<byte>)
    ensures DecodeFrom(d, s + t) == DecodeFrom(DecodeFrom(d, s), t)
    decreases |s|
  {
    if s == [] {
      assert s + t == t;
    } else {
      assert (s + t)[1..] == s[1..] + t;
      DecodeParts(DecodeByte(d, s[0]), s[1..], t);
    }
  }

  function Init(s: seq<byte>): (h: seq<byte>)
    requires s != []
    ensures |h| == |s| - 1
  {
    s[..|s| - 1]
  }

  lemma DecodeLast(d: Decoder, s: seq<byte>)
    requires s != []
    ensures DecodeFrom(d, s) == DecodeByte(DecodeFrom(d, Init(s)), s[|s| - 1])
  {
    var c := s[|s| - 1];
    assert s == Init(s) + [c];
    DecodeParts(d, Init(s), [c]);
    assert DecodeFrom(DecodeFrom(d, Init(s)), [c]) == DecodeByte(DecodeFrom(d, Init(s)), c);
  }

  lemma {:induction false} DecodeFromStart(s: seq<byte>)
    ensures DecodeFrom(Decoder([], false), s) == Decode(s)
  {
    if s != [] {
      DecodeFromStart(Init(s));
      DecodeLast(Decoder([], false), s);
    }
  }

  /** What a decoder adds depends on its escape alone. */
  lemma {:induction false} SameGain(d: Decoder, e: Decoder, s: seq<byte>)
    requires d.esc == e.esc
    ensures |DecodeFrom(d, s).out| - |d.out| == |DecodeFrom(e, s).out| - |e.out|
    decreases |s|
  {
    if s != [] {
      SameGain(DecodeByte(d, s[0]), DecodeByte(e, s[0]), s[1..]);
    }
  }

  /** And where an escape is completed properly, not even on that. */
  lemma GainAnyway(d: Decoder, s: seq<byte>)
    requires d.esc ==> s != [] && (s[0] == ESC_END || s[0] == ESC_ESC)
    ensures |DecodeFrom(d, s).out| == |d.out| + |DecodeFrom(Decoder([], false), s).out|
  {
    var e := Decoder([], false);
    if d.esc {
      SameGain(DecodeByte(d, s[0]), DecodeByte(e, s[0]), s[1..]);
    } else {
      SameGain(d, e, s);
    }
  }

  // --------------------------------------------------------------------- loops

  /** The loop gets to the end iff there is room before the last character. */
  lemma {:induction false} PourAll(d: Decoder, s: seq<byte>, blen: nat)
    requires s != [] ==> |DecodeFrom(d, Init(s)).out| <= blen
    ensures Pour(d, s, blen) == DecodeFrom(d, s)
    decreases |s|
  {
    if s != [] {
      DecodeGrows(d, Init(s));
      if |s| > 1 {
        InitRest(d, s);
      }
      PourAll(DecodeByte(d, s[0]), s[1..], blen);
    }
  }

  lemma {:induction false} PourStops(d: Decoder, s: seq<byte>, blen: nat)
    requires s != [] && |DecodeFrom(d, Init(s)).out| > blen && (|d.out| > blen ==> !d.esc)
    ensures Pour(d, s, blen) == Decoder([], false)
    decreases |s|
  {
    if |d.out| <= blen {
      if |s| > 1 {
        InitRest(d, s);
        PourStops(DecodeByte(d, s[0]), s[1..], blen);
      }
    }
  }

  lemma InitRest(d: Decoder, s: seq<byte>)
    requires |s| > 1
    ensures DecodeFrom(d, Init(s)) == DecodeFrom(DecodeByte(d, s[0]), Init(s[1..]))
  {
    assert Init(s)[1..] == Init(s[1..]);
  }

  lemma {:induction false} PourAtMost(d: Decoder, s: seq<byte>, blen: nat)
    ensures |Pour(d, s, blen).out| <= |DecodeFrom(d, s).out|
    decreases |s|
  {
    if s != [] && |d.out| <= blen {
      PourAtMost(DecodeByte(d, s[0]), s[1..], blen);
    }
  }

  // ------------------------------------------------------------------- packets

  /** The last character of a packet completes its last byte. */
  lemma LastCompletes(p: seq<byte>)
    requires p != []
    ensures Body(p) != [] && |DecodeFrom(Decoder([], false), Init(Body(p))).out| == |p| - 1
  {
    var h, c := p[..|p| - 1], p[|p| - 1];
    DecodeBody(h);
    LastCode(Body(h), c);
    DecodeFromStart(Init(Body(h) + EncodeByte(c)));
  }

  lemma LastCode(b: seq<byte>, c: byte)
    requires !Decode(b).esc
    ensures Decode(Init(b + EncodeByte(c))).out == Decode(b).out
  {
    if c == END || c == ESC {
      DecodeNext(b, ESC);
      assert Init(b + EncodeByte(c)) == b + [ESC];
    } else {
      assert Init(b + EncodeByte(c)) == b;
    }
  }

  /** A packet that lies in one piece. */
  lemma PolledWhole(p: seq<byte>, blen: nat)
    requires p != []
    ensures Pour(Decoder([], false), Body(p), blen).out == if |p| <= blen + 1 then p else []
  {
    var d := Decoder([], false);
    LastCompletes(p);
    DecodeBody(p);
    DecodeFromStart(Body(p));
    if |p| <= blen + 1 {
      PourAll(d, Body(p), blen);
    } else {
      PourStops(d, Body(p), blen);
    }
  }

  /** What has come out before the last characters of the pieces. */
  lemma PiecesBefore(p: seq<byte>, a: seq<byte>, b: seq<byte>)
    requires p != [] && Body(p) == a + b && a != [] && b != []
    ensures |DecodeFrom(DecodeFrom(Decoder([], false), a), Init(b)).out| == |p| - 1
    ensures |DecodeFrom(Decoder([], false), Init(a)).out| <= |p| - 1
  {
    var d := Decoder([], false);
    LastCompletes(p);
    assert Init(Body(p)) == a + Init(b);
    DecodeParts(d, a, Init(b));
    DecodeGrows(DecodeFrom(d, a), Init(b));
    DecodeLast(d, a);
  }

  /** A packet in two pieces that is not too long. */
  lemma PolledParts(p: seq<byte>, a: seq<byte>, b: seq<byte>, blen: nat)
    requires p != [] && Body(p) == a + b && a != [] && b != [] && |p| <= blen + 1
    ensures Pour(Pour(Decoder([], false), a, blen), b, blen) == Decode(Body(p))
  {
    var d := Decoder([], false);
    PiecesBefore(p, a, b);
    DecodeFromStart(Body(p));
    DecodeParts(d, a, b);
    PourAll(d, a, blen);
    PourAll(DecodeFrom(d, a), b, blen);
  }

  /** A packet in two pieces that is too long: the first loop gives up, and the second puts out what is left; or the
      second gives up. */
  lemma TooLongParts(p: seq<byte>, a: seq<byte>, b: seq<byte>, blen: nat)
    requires p != [] && Body(p) == a + b && a != [] && b != [] && |p| > blen + 1
    ensures |Pour(Pour(Decoder([], false), a, blen), b, blen).out| < |p|
  {
    var d := Decoder([], false);
    DecodeLast(d, a);
    if |DecodeFrom(d, Init(a)).out| > blen {
      FirstStops(p, a, b, blen);
    } else {
      SecondStops(p, a, b, blen);
    }
  }

  lemma FirstStops(p: seq<byte>, a: seq<byte>, b: seq<byte>, blen: nat)
    requires Body(p) == a + b && a != [] && b != []
    requires |DecodeFrom(Decoder([], false), Init(a)).out| > blen
    requires |DecodeFrom(Decoder([], false), a).out| > 0
    ensures |Pour(Pour(Decoder([], false), a, blen), b, blen).out| < |p|
  {
    var d := Decoder([], false);
    PourStops(d, a, blen);
    PourAtMost(d, b, blen);
    PieceGain(p, a, b);
  }

  lemma SecondStops(p: seq<byte>, a: seq<byte>, b: seq<byte>, blen: nat)
    requires p != [] && Body(p) == a + b && a != [] && b != [] && |p| > blen + 1
    requires |DecodeFrom(Decoder([], false), Init(a)).out| <= blen
    ensures Pour(Pour(Decoder([], false), a, blen), b, blen).out == []
  {
    var d := Decoder([], false);
    PourAll(d, a, blen);
    PiecesBefore(p, a, b);
    DecodeLast(d, a);
    PourStops(DecodeFrom(d, a), b, blen);
  }

  /** The second piece alone gives what it adds to the first. */
  lemma PieceGain(p: seq<byte>, a: seq<byte>, b: seq<byte>)
    requires Body(p) == a + b && a != [] && b != []
    ensures |DecodeFrom(Decoder([], false), a).out| + |DecodeFrom(Decoder([], false), b).out| == |p|
  {
    var d := Decoder([], false);
    DecodeBody(p);
    DecodeFromStart(Body(p));
    DecodeParts(d, a, b);
    DecodeLast(d, a);
    BodyEscaped(p);
    assert Escaped(Body(p), |a|) && Body(p)[|a|] == b[0] && Body(p)[|a| - 1] == a[|a| - 1];
    GainAnyway(DecodeFrom(d, a), b);
  }

  /** A packet comes out of the loops as it was sent iff it is at most one byte longer than the buffer given; if it lies
      in one piece and is longer, nothing comes out. */
  lemma PolledPacket(buf: seq<byte>, i: nat, j: nat, p: seq<byte>, blen: nat)
    requires i < |buf| && j < |buf| && Span(buf, i, j) == Body(p)
    ensures Polled(buf, i, j, blen).out == p <==> |p| <= blen + 1
    ensures i <= j && |p| > blen + 1 ==> Polled(buf, i, j, blen).out == []
  {
    if i > j && j > 0 {
      DecodeBody(p);
      if |p| <= blen + 1 {
        PolledParts(p, buf[i..], buf[..j], blen);
      } else {
        TooLongParts(p, buf[i..], buf[..j], blen);
      }
    } else if p != [] {
      OnePiece(buf, i, j);
      PolledWhole(p, blen);
    }
  }

  lemma {:induction false} BodyParts(p: seq<byte>, q: seq<byte>)
    ensures Body(p + q) == Body(p) + Body(q)
  {
    if q == [] {
      assert p + q == p;
    } else {
      var h, c := Init(q), q[|q| - 1];
      BodyParts(p, h);
      assert q == h + [c] && p + q == (p + h) + [c];
      BodyLast(h, c, q);
      BodyLast(p + h, c, p + q);
      Regroup(Body(p), Body(h), EncodeByte(c), Body(p + h));
    }
  }

  lemma BodyLast(h: seq<byte>, c: byte, q: seq<byte>)
    requires q == h + [c]
    ensures Body(q) == Body(h) + EncodeByte(c)
  {
    BodyNext(h, c);
  }

  lemma Regroup(x: seq<byte>, y: seq<byte>, z: seq<byte>, xy: seq<byte>)
    requires xy == x + y
    ensures xy + z == x + (y + z)
  {
  }

  /** If it goes around the end of the ring and its part before that is longer already, its other part comes out. */
  lemma TailComesOut(buf: seq<byte>, i: nat, j: nat, p: seq<byte>, q: seq<byte>, blen: nat)
    requires j < i < |buf| && buf[i..] == Body(p) && buf[..j] == Body(q) && |p| > blen + 1 && |q| <= blen + 1
    ensures Span(buf, i, j) == Body(p + q) && Polled(buf, i, j, blen).out == q
  {
    BodyParts(p, q);
    LastCompletes(p);
    PourStops(Decoder([], false), Body(p), blen);
    if q != [] {
      PolledWhole(q, blen);
    }
  }

  lemma OnePiece(buf: seq<byte>, i: nat, j: nat)
    requires i < |buf| && j < |buf| && (i <= j || j == 0)
    ensures forall blen: nat :: Polled(buf, i, j, blen) == Pour(Decoder([], false), Span(buf, i, j), blen)
  {
    if i > j {
      assert buf[..j] == [] && buf[i..] + [] == buf[i..];
    }
  }

  lemma PourShort(d: Decoder, s: seq<byte>, blen: nat)
    requires |DecodeFrom(d, s).out| <= blen
    ensures Pour(d, s, blen) == DecodeFrom(d, s)
  {
    if s != [] {
      DecodeLast(d, s);
    }
    PourAll(d, s, blen);
  }

  /** What the decoder d makes of s stays within size bytes: those before the check, and the one after it. */
  ghost predicate Roomy(d: Decoder, s: seq<byte>, blen: nat, size: nat)
  {
    blen <= size && (blen < size || |DecodeFrom(d, s).out| <= size)
  }

  /** The second loop stays within them as well. */
  lemma RoomyParts(buf: seq<byte>, i: nat, j: nat, blen: nat, size: nat)
    requires j < i < |buf| && blen <= size && (blen < size || |Decode(Span(buf, i, j)).out| <= size)
    ensures Roomy(Decoder([], false), buf[i..], blen, size)
    ensures Roomy(Pour(Decoder([], false), buf[i..], blen), buf[..j], blen, size)
  {
    if blen == size {
      var d := Decoder([], false);
      DecodeFromStart(Span(buf, i, j));
      DecodeParts(d, buf[i..], buf[..j]);
      DecodeGrows(DecodeFrom(d, buf[i..]), buf[..j]);
      PourShort(d, buf[i..], blen);
    }
  }
}
