/**
 os/dev/slip.c: the encoder, and the decoder that works out of a ring.
 */
module Slip {
  import opened SlipPoll
  import opened SlipSpec

  /** The characters that slip_write sends for one byte. */
  method WriteByte(sent: seq<byte>, b: byte) returns (sent': seq<byte>)
    ensures sent' == sent + EncodeByte(b)
  {
    var c := b;
    sent' := sent;
    if c == END {
      sent' := sent' + [ESC];
      c := ESC_END;
    } else if c == ESC {
      sent' := sent' + [ESC];
      c := ESC_ESC;
    }
    sent' := sent' + [c];
  }

  /** slip_write: what goes to slip_arch_writeb. */
  method Write(p: seq<byte>) returns (sent: seq<byte>)
    requires |p| < 0x1_0000
    ensures sent == Encode(p)
  {
    sent := [END];
    var i := 0;
    assert p[..0] == [];
    while i < |p|
      invariant i <= |p| && sent == [END] + Body(p[..i])
    {
      assert p[..i + 1][..i] == p[..i];
      sent := WriteByte(sent, p[i]);
      i := i + 1;
    }
    assert p[..i] == p;
    sent := sent + [END];
  }

  class Driver {
    const rxbuf: array<byte>
    var state: State
    var begin: nat
    var nextFree: nat
    var pktEnd: nat

    ghost function View(): Ring
      reads this, rxbuf
    {
      Ring(state, begin, nextFree, pktEnd, rxbuf[..])
    }

    ghost predicate Valid()
      reads this, rxbuf
    {
      View().Ok()
    }

    /** The static initial values. */
    constructor (size: nat)
      requires size >= 2
      ensures Valid() && fresh(rxbuf) && rxbuf.Length == size && View().state == TwoPackets
    {
      rxbuf := new byte[size](_ => 0);
      state, begin, nextFree, pktEnd := TwoPackets, 0, 0, 0;
    }

    /** rxbuf_init. */
    method RxbufInit()
      requires Valid()
      modifies this
      ensures Valid() && View().Idle() && View().state == Fine
    {
      begin, nextFree, pktEnd := 0, 0, 0;
      state := Fine;
    }

    /** slip_input_byte. */
    method InputByte(c: byte) returns (ret: int)
      requires Valid()
      modifies this, rxbuf
      ensures Valid() && (View(), ret) == Input(old(View()), c)
    {
      if state == Rubbish {
        if c == END {
          state := Fine;
        }
        return 0;
      }
      if state == Escape {
        if c != ESC_END && c != ESC_ESC {
          state := Rubbish;
          nextFree := pktEnd;
          return 0;
        }
        state := Fine;
      }
      if c == ESC {
        state := Escape;
      }
      ret := AddChar(c);
    }

    /** The part of slip_input_byte from add_char on. */
    method AddChar(c: byte) returns (ret: int)
      requires Valid()
      modifies this, rxbuf
      ensures Valid() && (View(), ret) == Store(old(View()), c)
    {
      var curEnd := nextFree;
      nextFree := nextFree + 1;
      if nextFree == rxbuf.Length {
        nextFree := 0;
      }
      if nextFree == begin {
        state := Rubbish;
        nextFree := pktEnd;
        return 0;
      }
      rxbuf[curEnd] := c;
      if c == END {
        if curEnd != pktEnd {
          if begin == pktEnd {
            pktEnd := curEnd;
          }
          return 1;
        } else {
          nextFree := curEnd;
        }
      }
      return 0;
    }

    /** The body of slip_poll_handler's decoding loops. */
    method DecodeOne(outbuf: array<byte>, len: nat, esc: bool, c: byte, ghost d: Decoder)
      returns (len': nat, esc': bool)
      requires len == |d.out| && esc == d.esc && |DecodeByte(d, c).out| <= outbuf.Length
      requires forall j {:trigger outbuf[j]} :: 0 <= j < len ==> outbuf[j] == d.out[j]
      modifies outbuf
      ensures var e := DecodeByte(d, c);
              len' == |e.out| && esc' == e.esc && forall j {:trigger outbuf[j]} :: 0 <= j < len' ==>
                outbuf[j] == e.out[j]
    {
      len', esc' := len, esc;
      if esc {
        if c == ESC_ESC {
          outbuf[len'] := ESC;
          len' := len' + 1;
        } else if c == ESC_END {
          outbuf[len'] := END;
          len' := len' + 1;
        }
        esc' := false;
      } else if c == ESC {
        esc' := true;
      } else {
        outbuf[len'] := c;
        len' := len' + 1;
      }
    }

    /** A decoding loop over rxbuf[from..to], which goes on where d is. */
    method DecodeSpan(outbuf: array<byte>, blen: nat, from: nat, to: nat, len0: int, esc0: bool, ghost d: Decoder)
      returns (len: int, esc: bool)
      requires outbuf != rxbuf && from <= to <= rxbuf.Length
      requires Decoded(outbuf, d, len0, esc0) && Roomy(d, rxbuf[..][from..to], blen, outbuf.Length)
      modifies outbuf
      ensures Decoded(outbuf, Pour(d, rxbuf[..][from..to], blen), len, esc)
    {
      len, esc := len0, esc0;
      var i := from;
      ghost var e := d;
      while i < to
        invariant from <= i <= to && Decoded(outbuf, e, len, esc) && Roomy(e, rxbuf[..][i..to], blen, outbuf.Length)
        invariant Pour(d, rxbuf[..][from..to], blen) == Pour(e, rxbuf[..][i..to], blen)
      {
        OneFrom(rxbuf[..], i, to, e, blen);
        if len > blen {
          len := 0;
          e := Decoder([], e.esc);
          return;
        }
        len, esc := DecodeOne(outbuf, len, esc, rxbuf[i], e);
        e := DecodeByte(e, rxbuf[i]);
        i := i + 1;
      }
    }

    /** slip_poll_handler. The buffer given has room for blen bytes, and for one more if the packet is too long. */
    method PollHandler(outbuf: array<byte>, blen: nat) returns (len: nat)
      requires Valid() && outbuf != rxbuf && blen <= outbuf.Length
      requires blen < outbuf.Length || |Decode(Span(rxbuf[..], begin, pktEnd)).out| <= blen
      modifies this, outbuf
      ensures Valid()
      ensures old(begin) == old(pktEnd) ==> len == 0 && View() == old(View()) && outbuf[..] == old(outbuf[..])
      ensures old(begin) != old(pktEnd) ==>
                && View() == Taken(old(View()))
                && len <= outbuf.Length && outbuf[..len] == Polled(rxbuf[..], old(begin), old(pktEnd), blen).out
    {
      if begin == pktEnd {
        return 0;
      }
      ghost var d := Polled(rxbuf[..], begin, pktEnd, blen);
      var n, esc := DecodePacket(outbuf, blen);
      assert outbuf[..n] == d.out;
      RemovePacket();
      len := n;
    }

    /** The decoding of the packet at [begin, pktEnd), in one loop or two. */
    method DecodePacket(outbuf: array<byte>, blen: nat) returns (len: int, esc: bool)
      requires Valid() && outbuf != rxbuf && blen <= outbuf.Length && begin != pktEnd
      requires blen < outbuf.Length || |Decode(Span(rxbuf[..], begin, pktEnd)).out| <= blen
      modifies outbuf
      ensures Decoded(outbuf, Polled(rxbuf[..], begin, pktEnd, blen), len, esc)
    {
      ghost var d := Decoder([], false);
      if begin < pktEnd {
        DecodeFromStart(rxbuf[..][begin..pktEnd]);
        len, esc := DecodeSpan(outbuf, blen, begin, pktEnd, 0, false, d);
      } else {
        Slices(rxbuf[..], begin, pktEnd);
        RoomyParts(rxbuf[..], begin, pktEnd, blen, outbuf.Length);
        len, esc := DecodeSpan(outbuf, blen, begin, rxbuf.Length, 0, false, d);
        len, esc := DecodeSpan(outbuf, blen, 0, pktEnd, len, esc, Pour(d, rxbuf[..][begin..], blen));
      }
    }

    /** The end of slip_poll_handler: the packet is removed and the next one, if complete, is found. */
    method RemovePacket()
      requires Valid()
      modifies this
      ensures Valid() && View() == Taken(old(View()))
    {
      pktEnd := pktEnd + 1;
      if pktEnd == rxbuf.Length {
        pktEnd := 0;
      }
      if pktEnd != nextFree {
        var k := SearchEnd(pktEnd, nextFree);
        if k != nextFree {
          begin, pktEnd := pktEnd, k;
        } else {
          begin := pktEnd;
        }
      } else {
        begin := pktEnd;
      }
    }

    /** The loop that looks for one more END. */
    method SearchEnd(from: nat, to: nat) returns (cur: nat)
      requires from < rxbuf.Length && to < rxbuf.Length
      ensures cur == FindEnd(rxbuf[..], from, to, rxbuf.Length)
    {
      cur := from;
      ghost var fuel := rxbuf.Length;
      ghost var left := if from <= to then to - from else to + rxbuf.Length - from;
      while cur != to
        invariant cur < rxbuf.Length && left <= fuel && left == if cur <= to then to - cur else to + rxbuf.Length - cur
        invariant FindEnd(rxbuf[..], from, to, rxbuf.Length) == FindEnd(rxbuf[..], cur, to, fuel)
        decreases left
      {
        if rxbuf[cur] == END {
          break;
        }
        cur := cur + 1;
        if cur == rxbuf.Length {
          cur := 0;
        }
        fuel, left := fuel - 1, left - 1;
      }
    }

    /** The characters of one packet, one by one. */
    method Receive(sent: seq<byte>)
      requires Valid()
      modifies this, rxbuf
      ensures Valid() && View() == Feed(old(View()), sent)
    {
      ghost var r := View();
      assert sent[..0] == [];
      for i := 0 to |sent|
        invariant Valid() && View() == Feed(r, sent[..i])
      {
        assert sent[..i + 1][..i] == sent[..i];
        var ret := InputByte(sent[i]);
      }
      assert sent[..|sent|] == sent;
    }

    /** A packet that is written, received byte by byte from any position of the ring and polled comes out as it was iff
        it fits the ring and is at most one byte longer than the buffer given; if it does not fit the ring, nothing
        comes out. The ring has nothing buffered afterwards. */
    method Exchange(p: seq<byte>, outbuf: array<byte>, blen: nat) returns (len: nat)
      requires Valid() && View().Idle() && outbuf != rxbuf && blen <= outbuf.Length
      requires |p| < 0x1_0000 && (blen < outbuf.Length || (Fits(p, rxbuf.Length) ==> |p| <= blen))
      modifies this, rxbuf, outbuf
      ensures Valid() && View().Idle()
      ensures len <= outbuf.Length && (Fits(p, rxbuf.Length) ==> (outbuf[..len] == p <==> |p| <= blen + 1))
      ensures !Fits(p, rxbuf.Length) ==> len == 0
    {
      ghost var start := begin;
      Transfer(p);
      if Fits(p, rxbuf.Length) {
        DecodeBody(p);
        PacketTaken(View(), start, rxbuf.Length, Body(p));
        PolledPacket(rxbuf[..], begin, pktEnd, p, blen);
      } else {
        SpanEmpty(rxbuf[..], begin);
      }
      len := PollHandler(outbuf, blen);
    }

    /** The first half of that. */
    method Transfer(p: seq<byte>)
      requires Valid() && View().Idle() && |p| < 0x1_0000
      modifies this, rxbuf
      ensures Valid()
      ensures if Fits(p, rxbuf.Length) then HoldsPacket(View(), old(begin), rxbuf.Length, Body(p)) else View().Idle()
    {
      PacketArrives(View(), p);
      var sent := Write(p);
      Receive(sent);
    }

    /** So it goes with every sequence of packets that are polled one by one: exactly those that fit come out. */
    method ExchangeAll(ps: seq<seq<byte>>, outbuf: array<byte>, blen: nat) returns (got: seq<seq<byte>>)
      requires Valid() && View().Idle() && outbuf != rxbuf && blen <= outbuf.Length
      requires forall p {:trigger p in ps} :: p in ps ==> |p| < 0x1_0000 && (Fits(p, rxbuf.Length) ==> |p| <= blen)
      modifies this, rxbuf, outbuf
      ensures Valid() && View().Idle() && got == Fitting(ps, rxbuf.Length)
    {
      got := [];
      assert ps[..0] == [];
      for i := 0 to |ps|
        invariant Valid() && View().Idle() && got == Fitting(ps[..i], rxbuf.Length)
      {
        assert ps[i] in ps && ps[..i + 1][..i] == ps[..i];
        var len := Exchange(ps[i], outbuf, blen);
        assert Fits(ps[i], rxbuf.Length) ==> outbuf[..len] == ps[i] != [];
        if len > 0 {
          got := got + [outbuf[..len]];
        }
      }
      assert ps[..|ps|] == ps;
    }
  }

  lemma SpanEmpty(buf: seq<byte>, p: nat)
    requires p < |buf|
    ensures Decode(Span(buf, p, p)).out == []
  {
  }

  /** What the variables of a decoding loop say. */
  ghost predicate Decoded(outbuf: array<byte>, d: Decoder, len: int, esc: bool)
    reads outbuf
  {
    len == |d.out| <= outbuf.Length && esc == d.esc && forall j {:trigger outbuf[j]} :: 0 <= j < len ==>
      outbuf[j] == d.out[j]
  }

  lemma Slices(buf: seq<byte>, i: nat, j: nat)
    requires i <= |buf| && j <= |buf|
    ensures buf[i..|buf|] == buf[i..] && buf[0..j] == buf[..j]
  {
  }

  /** The loop's next character. */
  lemma OneFrom(buf: seq<byte>, i: nat, to: nat, d: Decoder, blen: nat)
    requires i < to <= |buf|
    ensures |d.out| <= blen ==> Pour(d, buf[i..to], blen) == Pour(DecodeByte(d, buf[i]), buf[i + 1..to], blen)
    ensures |d.out| > blen ==> Pour(d, buf[i..to], blen) == Decoder([], d.esc)
    ensures DecodeFrom(d, buf[i..to]) == DecodeFrom(DecodeByte(d, buf[i]), buf[i + 1..to])
    ensures |DecodeByte(d, buf[i]).out| <= |DecodeFrom(d, buf[i..to]).out|
  {
    assert buf[i..to][1..] == buf[i + 1..to];
    DecodeGrows(DecodeByte(d, buf[i]), buf[i + 1..to]);
  }

  /** Taking the only packet leaves nothing buffered. */
  lemma PacketTaken(o: Ring, begin: nat, n: nat, b: seq<byte>)
    requires HoldsPacket(o, begin, n, b)
    ensures o.Ok() && Taken(o).Idle() && (b != [] ==> o.begin != o.pktEnd) && Span(o.buf, o.begin, o.pktEnd) == b
  {
  }
}
