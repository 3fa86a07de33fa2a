/**
 SLIP (RFC 1055): the encoding and decoding of packets, and the receive ring of os/dev/slip.c as a value.
 */
module SlipSpec {

  type byte = bv8

  const END: byte := 0xC0
  const ESC: byte := 0xDB
  const ESC_END: byte := 0xDC
  const ESC_ESC: byte := 0xDD

  function EncodeByte(c: byte): (s: seq<byte>)
    ensures 1 <= |s| <= 2
  {
    if c == END then [ESC, ESC_END] else if c == ESC then [ESC, ESC_ESC] else [c]
  }

  /** The characters of RFC 1055: 192 is sent as 219 220, 219 as 219 221, and every other one as it is. */
  lemma EncodedBytes(c: byte)
    ensures EncodeByte(192) == [219, 220] && EncodeByte(219) == [219, 221]
    ensures c != 192 && c != 219 ==> EncodeByte(c) == [c]
    ensures forall p {:trigger Encode(p)} :: Encode(p)[0] == 192 && Encode(p)[|Encode(p)| - 1] == 192
  {
  }

  /** The packet between its two END characters. */
  function Body(p: seq<byte>): (s: seq<byte>)
    ensures |p| <= |s| <= 2 * |p|
  {
    if p == [] then [] else Body(p[..|p| - 1]) + EncodeByte(p[|p| - 1])
  }

  function Encode(p: seq<byte>): seq<byte>
  {
    [END] + Body(p) + [END]
  }

  /** A decoder: what it has put out, and whether the last character was an escape. */
  datatype Decoder = Decoder(out: seq<byte>, esc: bool)

  function DecodeByte(d: Decoder, c: byte): Decoder
  {
    if d.esc then
      Decoder(if c == ESC_ESC then d.out + [ESC] else if c == ESC_END then d.out + [END] else d.out, false)
    else if c == ESC then Decoder(d.out, true)
    else Decoder(d.out + [c], false)
  }

  function Decode(s: seq<byte>): (d: Decoder)
  {
    if s == [] then Decoder([], false) else DecodeByte(Decode(s[..|s| - 1]), s[|s| - 1])
  }

  lemma DecodeNext(s: seq<byte>, c: byte)
    ensures Decode(s + [c]) == DecodeByte(Decode(s), c)
  {
    assert (s + [c])[..|s|] == s;
  }

  lemma {:induction false} DecodePrefix(s: seq<byte>, n: nat)
    requires n <= |s|
    ensures Decode(s[..n]).out <= Decode(s).out
  {
    if n < |s| {
      DecodePrefix(s[..|s| - 1], n);
      assert s[..|s| - 1][..n] == s[..n];
    } else {
      assert s[..n] == s;
    }
  }

  lemma DecodeEncoded(s: seq<byte>, c: byte)
    requires !Decode(s).esc
    ensures Decode(s + EncodeByte(c)) == Decoder(Decode(s).out + [c], false)
  {
    if c == END || c == ESC {
      var e := if c == END then ESC_END else ESC_ESC;
      DecodeNext(s, ESC);
      DecodeNext(s + [ESC], e);
      assert s + EncodeByte(c) == s + [ESC] + [e];
    } else {
      DecodeNext(s, c);
    }
  }

  lemma InitAndLast(p: seq<byte>)
    requires p != []
    ensures p == p[..|p| - 1] + [p[|p| - 1]]
  {
  }

  lemma BodyNext(h: seq<byte>, c: byte)
    ensures Body(h + [c]) == Body(h) + EncodeByte(c)
  {
    assert (h + [c])[..|h|] == h;
  }

  lemma DecodeNextOfBody(h: seq<byte>, c: byte)
    requires Decode(Body(h)) == Decoder(h, false)
    ensures Decode(Body(h + [c])) == Decoder(h + [c], false)
  {
    var b := Body(h);
    BodyNext(h, c);
    DecodeEncoded(b, c);
  }

  /** Decoding undoes the encoding. */
  lemma {:induction false} DecodeBody(p: seq<byte>)
    ensures Decode(Body(p)) == Decoder(p, false)
  {
    if p != [] {
      var h, c := p[..|p| - 1], p[|p| - 1];
      InitAndLast(p);
      DecodeBody(h);
      DecodeNextOfBody(h, c);
    }
  }

  // ------------------------------------------------------------------ the ring

  datatype State = TwoPackets | Fine | Escape | Rubbish

  datatype Ring = Ring(state: State, begin: nat, nextFree: nat, pktEnd: nat, buf: seq<byte>)
  {
    predicate Ok()
    {
      |buf| >= 2 && begin < |buf| && nextFree < |buf| && pktEnd < |buf|
    }

    /** Nothing is buffered and nothing is being received; rubbish may still be going by. */
    predicate Idle()
    {
      Ok() && (state == Fine || state == Rubbish) && begin == nextFree == pktEnd
    }
  }

  function Succ(i: nat, n: nat): (j: nat)
    requires i < n
    ensures j < n
  {
    if i + 1 == n then 0 else i + 1
  }

  /** The place i bytes after p. */
  function At(p: nat, i: nat, n: nat): (j: nat)
    requires p < n && i < n
    ensures j < n
  {
    if p + i < n then p + i else p + i - n
  }

  /** The bytes from p up to q, around the end of the buffer if need be. */
  function Span(buf: seq<byte>, p: nat, q: nat): seq<byte>
    requires p < |buf| && q < |buf|
  {
    if p <= q then buf[p..q] else buf[p..] + buf[..q]
  }

  /** slip_input_byte after the state was looked at: the character is stored, and END ends a packet. */
  function Store(r: Ring, c: byte): (Ring, int)
    requires r.Ok()
  {
    var next := Succ(r.nextFree, |r.buf|);
    if next == r.begin then (r.(state := Rubbish, nextFree := r.pktEnd), 0)
    else
      var buf := r.buf[r.nextFree := c];
      if c != END then (r.(nextFree := next, buf := buf), 0)
      else if r.nextFree == r.pktEnd then (r.(buf := buf), 0)
      else (r.(nextFree := next, buf := buf, pktEnd := if r.begin == r.pktEnd then r.nextFree else r.pktEnd), 1)
  }

  /** slip_input_byte: the ring afterwards and the result. */
  function Input(r: Ring, c: byte): (o: (Ring, int))
    requires r.Ok()
    ensures o.0.Ok() && |o.0.buf| == |r.buf|
  {
    if r.state == Rubbish then (if c == END then r.(state := Fine) else r, 0)
    else if r.state == Escape && c != ESC_END && c != ESC_ESC then (r.(state := Rubbish, nextFree := r.pktEnd), 0)
    else
      var s := if c == ESC then Escape else if r.state == Escape then Fine else r.state;
      Store(r.(state := s), c)
  }

  /** The result is one exactly when an END completes a packet that is not empty. */
  lemma InputResult(r: Ring, c: byte)
    requires r.Ok()
    ensures Input(r, c).1 == 0 || Input(r, c).1 == 1
    ensures Input(r, c).1 == 1 <==>
            && c == END && r.state != Rubbish && r.state != Escape
            && Succ(r.nextFree, |r.buf|) != r.begin && r.nextFree != r.pktEnd
  {
  }

  function Feed(r: Ring, s: seq<byte>): (o: Ring)
    requires r.Ok()
    ensures o.Ok() && |o.buf| == |r.buf|
  {
    if s == [] then r else Input(Feed(r, s[..|s| - 1]), s[|s| - 1]).0
  }

  lemma FeedNext(r: Ring, s: seq<byte>, c: byte)
    requires r.Ok()
    ensures Feed(r, s + [c]) == Input(Feed(r, s), c).0
  {
    assert (s + [c])[..|s|] == s;
  }

  /** The bytes of s are stored from p on. */
  ghost predicate Held(buf: seq<byte>, p: nat, s: seq<byte>)
    requires p < |buf| && |s| < |buf|
  {
    forall i: nat {:trigger s[i]} :: i < |s| ==> buf[At(p, i, |buf|)] == s[i]
  }

  /** A packet whose encoded bytes s have come in so far. */
  ghost predicate Receiving(r: Ring, p: nat, n: nat, s: seq<byte>, state: State)
  {
    && p < n && |s| < n && r == Ring(state, p, At(p, |s|, n), p, r.buf) && |r.buf| == n && Held(r.buf, p, s)
  }

  lemma ReceiveOne(r: Ring, p: nat, n: nat, s: seq<byte>, c: byte, state: State)
    requires Receiving(r, p, n, s, state) && |s| + 1 < n && c != END
    requires state == Fine || (state == Escape && (c == ESC_END || c == ESC_ESC))
    ensures Receiving(Input(r, c).0, p, n, s + [c], if c == ESC then Escape else Fine)
  {
    var o := Input(r, c).0;
    var t := s + [c];
    forall i: nat {:trigger t[i]} | i < |t| ensures o.buf[At(p, i, n)] == t[i] {
    }
  }

  /** The character at i is one that an encoder may write there. */
  predicate Escaped(s: seq<byte>, i: nat)
  {
    i < |s| ==> s[i] != END && (i > 0 && s[i - 1] == ESC ==> s[i] == ESC_END || s[i] == ESC_ESC)
  }

  ghost predicate AllEscaped(s: seq<byte>)
  {
    forall i: nat {:trigger Escaped(s, i)} :: Escaped(s, i)
  }

  function StateAfter(s: seq<byte>): State
  {
    if s != [] && s[|s| - 1] == ESC then Escape else Fine
  }

  lemma {:induction false} BodyEscaped(p: seq<byte>)
    ensures AllEscaped(Body(p)) && StateAfter(Body(p)) == Fine
  {
    if p != [] {
      var h, c := p[..|p| - 1], p[|p| - 1];
      BodyEscaped(h);
      ByteEscaped(Body(h), c);
    }
  }

  lemma ByteEscaped(b: seq<byte>, c: byte)
    requires AllEscaped(b) && StateAfter(b) == Fine
    ensures AllEscaped(b + EncodeByte(c)) && StateAfter(b + EncodeByte(c)) == Fine
  {
    var s := b + EncodeByte(c);
    forall i: nat {:trigger Escaped(s, i)} ensures Escaped(s, i) {
      assert Escaped(b, i);
    }
  }

  /** Too much has come in: everything is dropped up to the next END. */
  ghost predicate Dropping(r: Ring, p: nat, n: nat)
  {
    p < n && |r.buf| == n && r == Ring(Rubbish, p, p, p, r.buf)
  }

  lemma Overflows(r: Ring, p: nat, n: nat, s: seq<byte>, c: byte, state: State)
    requires Receiving(r, p, n, s, state) && |s| + 1 == n && n >= 2
    requires state == Fine || (state == Escape && (c == ESC_END || c == ESC_ESC))
    ensures Dropping(Input(r, c).0, p, n)
  {
  }

  lemma PrefixNext(s: seq<byte>, k: nat)
    requires k < |s|
    ensures s[..k + 1] == s[..k] + [s[k]]
  {
  }

  /** The characters go into the ring as they come, as long as there is room. */
  lemma {:induction false} FeedBody(r: Ring, s: seq<byte>, k: nat)
    requires r.Idle() && r.state == Fine && AllEscaped(s) && k <= |s|
    ensures k < |r.buf| ==> Receiving(Feed(r, s[..k]), r.begin, |r.buf|, s[..k], StateAfter(s[..k]))
    ensures k >= |r.buf| ==> Dropping(Feed(r, s[..k]), r.begin, |r.buf|)
  {
    if k > 0 {
      var t, c := s[..k - 1], s[k - 1];
      FeedBody(r, s, k - 1);
      PrefixNext(s, k - 1);
      FeedNext(r, t, c);
      assert Escaped(s, k - 1);
      if k < |r.buf| {
        ReceiveOne(Feed(r, t), r.begin, |r.buf|, t, c, StateAfter(t));
      } else if k == |r.buf| {
        Overflows(Feed(r, t), r.begin, |r.buf|, t, c, StateAfter(t));
      }
    }
  }

  /** The first END finds nothing buffered, and ends the rubbish. */
  lemma FirstEnd(r: Ring)
    requires r.Idle()
    ensures var o := Feed(r, [END]); o.Idle() && o.state == Fine && o.begin == r.begin && |o.buf| == |r.buf|
  {
    assert [END][..0] == [];
  }

  /** The last END completes the packet. */
  lemma LastEnd(r: Ring, p: nat, n: nat, s: seq<byte>)
    requires Receiving(r, p, n, s, Fine) && 0 < |s| <= n - 2
    ensures var o := Input(r, END);
            && o.1 == 1 && o.0 == Ring(Fine, p, At(p, |s| + 1, n), At(p, |s|, n), o.0.buf) && |o.0.buf| == n
            && Span(o.0.buf, p, At(p, |s|, n)) == s
  {
    var o := Input(r, END).0;
    var t := Span(o.buf, p, At(p, |s|, n));
    assert |t| == |s|;
    forall i: nat {:trigger t[i]} | i < |s| ensures t[i] == s[i] {
      assert t[i] == o.buf[At(p, i, n)];
      assert r.buf[At(p, i, n)] == s[i];
    }
  }

  lemma {:induction false} FeedConcat(r: Ring, s: seq<byte>, t: seq<byte>)
    requires r.Ok()
    ensures Feed(r, s + t) == Feed(Feed(r, s), t)
  {
    if t == [] {
      assert s + t == s;
    } else {
      var h := t[..|t| - 1];
      assert (s + t)[..|s + t| - 1] == s + h;
      FeedConcat(r, s, h);
    }
  }

  /** A ring that holds one packet, whose encoded bytes are b, from where it was empty. */
  ghost predicate HoldsPacket(o: Ring, begin: nat, n: nat, b: seq<byte>)
  {
    && begin < n && |b| + 1 < n && |o.buf| == n
    && o == Ring(Fine, begin, At(begin, |b| + 1, n), At(begin, |b|, n), o.buf) && Span(o.buf, o.begin, o.pktEnd) == b
  }

  lemma EndsPacket(r: Ring, begin: nat, n: nat, b: seq<byte>)
    requires Receiving(r, begin, n, b, Fine) && 0 < |b| <= n - 2
    ensures HoldsPacket(Input(r, END).0, begin, n, b)
  {
    LastEnd(r, begin, n, b);
  }

  lemma FeedParts(r: Ring, b: seq<byte>)
    requires r.Ok()
    ensures Feed(r, [END] + b + [END]) == Input(Feed(Feed(r, [END]), b), END).0
  {
    FeedConcat(r, [END], b);
    FeedNext(r, [END] + b, END);
  }

  /** The packet fits into a ring of n bytes. */
  predicate Fits(p: seq<byte>, n: nat)
  {
    p != [] && |Body(p)| + 2 <= n
  }

  /** What the last END makes of what has come in. */
  lemma LastEndOf(r: Ring, p: nat, n: nat, b: seq<byte>)
    requires n >= 2 && if |b| < n then Receiving(r, p, n, b, Fine) else Dropping(r, p, n)
    ensures var o := Input(r, END).0;
            if 0 < |b| && |b| + 2 <= n then HoldsPacket(o, p, n, b) else o.Idle() && o.begin == p && |o.buf| == n
  {
    if 0 < |b| && |b| + 2 <= n {
      EndsPacket(r, p, n, b);
    } else if |b| + 1 == n && n >= 2 {
      Overflows(r, p, n, b, END, Fine);
    }
  }

  /** A packet that fits is held in the ring as it was sent; one that does not leaves nothing behind. */
  lemma PacketArrives(r: Ring, p: seq<byte>)
    requires r.Idle()
    ensures var o, n := Feed(r, Encode(p)), |r.buf|;
            if Fits(p, n) then HoldsPacket(o, r.begin, n, Body(p)) else o.Idle() && o.begin == r.begin && |o.buf| == n
  {
    var b, r1 := Body(p), Feed(r, [END]);
    FirstEnd(r);
    BodyEscaped(p);
    FeedBody(r1, b, |b|);
    assert b[..|b|] == b;
    FeedParts(r, b);
    LastEndOf(Feed(r1, b), r.begin, |r.buf|, b);
  }

  lemma {:induction false} StillDropping(r: Ring, p: nat, n: nat, u: seq<byte>)
    requires n >= 2 && Dropping(r, p, n) && END !in u
    ensures Dropping(Feed(r, u), p, n)
  {
    if u != [] {
      StillDropping(r, p, n, u[..|u| - 1]);
    }
  }

  /** A character after an escape that no encoder writes there, be it an END, drops all of the packet and what comes
      up to the next END; the packet sent then arrives as if nothing had been there. */
  lemma BadEscapeDrops(r: Ring, s: seq<byte>, c: byte, u: seq<byte>, p: seq<byte>)
    requires r.Idle() && r.state == Fine && AllEscaped(s) && StateAfter(s) == Escape && |s| < |r.buf|
    requires c != ESC_END && c != ESC_ESC && END !in u
    ensures Dropping(Feed(r, s + [c] + u), r.begin, |r.buf|)
    ensures var o, n := Feed(r, s + [c] + u + Encode(p)), |r.buf|;
            if Fits(p, n) then HoldsPacket(o, r.begin, n, Body(p)) else o.Idle() && o.begin == r.begin && |o.buf| == n
  {
    FeedBody(r, s, |s|);
    assert s[..|s|] == s;
    FeedNext(r, s, c);
    FeedConcat(r, s + [c], u);
    StillDropping(Feed(r, s + [c]), r.begin, |r.buf|, u);
    FeedConcat(r, s + [c] + u, Encode(p));
    PacketArrives(Feed(r, s + [c] + u), p);
  }

  /** The packets that fit, in order. */
  function Fitting(ps: seq<seq<byte>>, n: nat): (qs: seq<seq<byte>>)
    ensures |qs| <= |ps|
  {
    if ps == [] then []
    else Fitting(ps[..|ps| - 1], n) + if Fits(ps[|ps| - 1], n) then [ps[|ps| - 1]] else []
  }

  // ------------------------------------------------------------------ polling

  /** The first END from i up to q, or q. */
  function FindEnd(buf: seq<byte>, i: nat, q: nat, fuel: nat): (k: nat)
    requires i < |buf| && q < |buf|
    ensures k < |buf|
    decreases fuel
  {
    if i == q || buf[i] == END || fuel == 0 then i else FindEnd(buf, Succ(i, |buf|), q, fuel - 1)
  }

  /** The ring after a packet was taken out: it begins after the packet's END, and ends with the next packet, if there
      is a complete one. */
  function Taken(r: Ring): (o: Ring)
    requires r.Ok()
    ensures o.Ok() && |o.buf| == |r.buf|
  {
    var e := Succ(r.pktEnd, |r.buf|);
    if e == r.nextFree then r.(begin := e, pktEnd := e)
    else
      var k := FindEnd(r.buf, e, r.nextFree, |r.buf|);
      if k == r.nextFree then r.(begin := e, pktEnd := e) else r.(begin := e, pktEnd := k)
  }
}
