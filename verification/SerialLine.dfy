/**
 os/lib/ringbuf.c and os/dev/serial-line.c: an interrupt that puts characters into a ring and a process that takes
 them out and delivers lines. Every method is one step of one side that the other cannot interrupt.
 */
module SerialLine {
  import opened Bits
  import opened SerialSpec

  class SerialLine {
    /** BUFSIZE, a power of two, and the width of an int. */
    const size: nat
    const w: nat
    ghost const n: nat
    // the ring
    const mask: nat
    var put: nat
    var get: nat
    var data: seq<byte>
    // the interrupt's side
    var overflow: bool
    var producer: Producer
    // the process's side
    var consumer: Consumer
    var buf: seq<byte>
    var ptr: nat
    /** The lines in the events posted. */
    var delivered: seq<seq<byte>>

    /** The characters that came in, those that were put into the ring, and those that were taken out. */
    ghost var input: seq<byte>
    ghost var accepted: seq<byte>
    ghost var taken: seq<byte>
    ghost var pending: seq<byte>
    /** Where in the input the accepted lines begin, and where the line begins that is being accepted. */
    ghost var from: seq<nat>
    ghost var start: nat

    /** The mask consists of ones. */
    ghost predicate Mask()
    {
      size == Pow2(n) && mask + 1 == size && n <= 8 <= w
    }

    ghost predicate RingValid()
      reads this`put, this`get, this`data, this`producer, this`consumer, this`pending
    {
      Mask() && RingOk(size, put, get, data, producer, consumer, pending)
    }

    ghost predicate InputValid()
      reads this`input, this`accepted, this`from, this`start, this`overflow
    {
      Follows(TextOf(input), TextOf(accepted), from, start, overflow)
    }

    ghost predicate OutputValid()
      reads this`taken, this`delivered, this`buf, this`ptr
    {
      size > 0 && |buf| == size && ptr < size && Delivers(TextOf(taken), delivered, buf[..ptr], size - 1)
    }

    ghost predicate Valid()
      reads this
    {
      && RingValid() && InputValid() && OutputValid()
      && accepted == taken + pending
      && (!producer.PIdle? && overflow ==> Ends(producer.c))
    }

    /** serial_line_init: the size is passed on in eight bits, and so is the mask, one less. */
    constructor (bufsize: nat, intwidth: nat, ghost bits: nat)
      requires bufsize == Pow2(bits) && bits <= 8 <= intwidth
      ensures Valid() && input == [] && accepted == [] && delivered == []
    {
      MaskOfSize(bufsize, bits, 8);
      Initially(bufsize, seq(bufsize, _ => 0));
      size, w, n := bufsize, intwidth, bits;
      mask := (bufsize % 256 + 255) % 256;
      put, get, data := 0, 0, seq(bufsize, _ => 0);
      overflow, producer, consumer := false, PIdle, CIdle;
      buf, ptr, delivered := seq(bufsize, _ => 0), 0, [];
      input, accepted, taken, pending, from, start := [], [], [], [], [], 0;
      new;
      assert buf[..0] == [];
    }

    /** ringbuf_elements. */
    function Elements(): nat
      requires put < size && get < size && size <= Pow2(w)
      reads this`put, this`get
    {
      And(AsBits(put - get, w), mask)
    }

    lemma ElementsPending()
      requires RingValid()
      ensures size <= Pow2(w) && Elements() == |pending|
    {
      Pow2Grows(n, w);
      MaskedPointers(put, get, n, w);
      FullOrEmpty(size, put, get, data, producer, consumer, pending);
    }

    // ------------------------------------------------------------ the interrupt

    /** The check of ringbuf_put. */
    method PutCheck() returns (full: bool)
      requires Valid()
      ensures full <==> |pending| == size - 1
    {
      ElementsPending();
      full := Elements() == mask;
    }

    /** serial_line_input_byte up to the check of ringbuf_put: c is lost, or it will be stored. */
    method InputByte(c: byte)
      requires Valid() && producer.PIdle?
      modifies this`overflow, this`producer, this`input
      ensures Valid() && (producer == PIdle || producer == PChecked(c))
      ensures input == if producer.PIdle? then old(input) + [c] else old(input)
      ensures producer.PIdle? <==> |pending| == size - 1 || (old(overflow) && !Ends(c))
    {
      if !overflow {
        var full := PutCheck();
        if full {
          Lose(c);
        } else {
          producer := PChecked(c);
        }
      } else {
        var full := true;
        if c == LF || c == CR {
          full := PutCheck();
        }
        if full {
          Lose(c);
        } else {
          producer := PChecked(c);
        }
      }
    }

    /** The character is lost and the rest of the line will be. */
    method Lose(c: byte)
      requires Valid() && producer.PIdle?
      modifies this`overflow, this`input
      ensures Valid() && overflow && input == old(input) + [c]
    {
      LoseKeeps(TextOf(input), TextOf(accepted), from, start, overflow, c);
      TextOfNext(input, c);
      overflow := true;
      input := input + [c];
    }

    /** The data step of ringbuf_put. */
    method PutStore()
      requires Valid() && producer.PChecked?
      modifies this`data, this`producer
      ensures Valid() && producer == PStored(old(producer).c)
    {
      StoreKeeps(size, put, get, data, producer.c, consumer, pending);
      data := data[put := producer.c];
      producer := PStored(producer.c);
    }

    /** The pointer step of ringbuf_put. */
    method AdvancePut()
      requires RingValid() && producer.PStored?
      modifies this`put, this`producer, this`pending
      ensures RingValid() && producer == PIdle && pending == old(pending) + [old(producer).c]
    {
      var c := producer.c;
      CommitKeeps(size, put, get, data, c, consumer, pending);
      MaskedPointers(put, get, n, w);
      put := And(put + 1, mask);
      pending, producer := pending + [c], PIdle;
    }

    /** The end of serial_line_input_byte for a character that was stored. */
    method Accept(c: byte)
      requires InputValid() && (overflow ==> Ends(c))
      modifies this`overflow, this`input, this`accepted, this`from, this`start
      ensures InputValid() && !overflow && input == old(input) + [c] && accepted == old(accepted) + [c]
    {
      AcceptedNext(input, accepted, from, start, overflow, c);
      if Ends(c) {
        from, start := from + [start], |TextOf(input).lines| + 1;
      }
      if overflow {
        overflow := false;
      }
      input, accepted := input + [c], accepted + [c];
    }

    /** The last step of serial_line_input_byte. */
    method PutCommit()
      requires Valid() && producer.PStored?
      modifies this`put, this`producer, this`overflow, this`input, this`accepted, this`pending, this`from, this`start
      ensures Valid() && producer == PIdle
      ensures input == old(input) + [old(producer).c] && accepted == old(accepted) + [old(producer).c]
    {
      var c := producer.c;
      GlueAppend(accepted, taken, pending, c);
      AdvancePut();
      Accept(c);
    }

    // -------------------------------------------------------------- the process

    /** The check of ringbuf_get: false is the result -1, after which the process waits. */
    method GetCheck() returns (some: bool)
      requires Valid() && consumer.CIdle?
      modifies this`consumer
      ensures Valid() && (some <==> |pending| > 0) && consumer == if some then CChecked else CIdle
    {
      ElementsPending();
      some := Elements() != 0;
      if some {
        consumer := CChecked;
      }
    }

    /** The data step of ringbuf_get. */
    method GetLoad()
      requires Valid() && consumer.CChecked?
      modifies this`consumer
      ensures Valid() && |pending| > 0 && consumer == CLoaded(pending[0])
    {
      assert LiesAt(size, get, data, pending, 0);
      consumer := CLoaded(data[get]);
    }

    /** The pointer step of ringbuf_get. */
    method AdvanceGet()
      requires RingValid() && consumer.CLoaded?
      modifies this`get, this`consumer, this`pending
      ensures RingValid() && consumer == CIdle && old(pending) == [old(consumer).c] + pending
    {
      TakeKeeps(size, put, get, data, producer, consumer.c, pending);
      MaskedPointers(get, put, n, w);
      get := And(get + 1, mask);
      pending, consumer := pending[1..], CIdle;
    }

    /** The pointer step of ringbuf_get, and what serial_line_process does with the character. */
    method GetCommit()
      requires Valid() && consumer.CLoaded?
      modifies this`get, this`consumer, this`buf, this`ptr, this`delivered, this`taken, this`pending
      ensures Valid() && consumer == CIdle && taken == old(taken) + [old(consumer).c]
      ensures delivered == if Ends(old(consumer).c) then old(delivered) + [old(buf)[..old(ptr)]] else old(delivered)
    {
      var c := consumer.c;
      ghost var p := pending;
      AdvanceGet();
      GlueMove(accepted, taken, p, c, pending);
      Consume(c);
    }

    /** The loop body of serial_line_process for one character. */
    method Consume(c: byte)
      requires OutputValid()
      modifies this`buf, this`ptr, this`delivered, this`taken
      ensures OutputValid() && taken == old(taken) + [c]
      ensures delivered == if Ends(c) then old(delivered) + [old(buf)[..old(ptr)]] else old(delivered)
    {
      TextOfNext(taken, c);
      DeliverKeeps(TextOf(taken), delivered, buf[..ptr], size - 1, c);
      BufferNext(buf, ptr, c);
      BufferNext(buf, ptr, 0);
      if c != LF && c != CR {
        if ptr < size - 1 {
          buf := buf[ptr := c];
          ptr := ptr + 1;
        }
      } else {
        buf := buf[ptr := 0];
        delivered := delivered + [buf[..ptr]];
        ptr := 0;
      }
      taken := taken + [c];
    }

    // -------------------------------------------------------------- all interleavings

    /** One step of either side; a step that is not the next one of its side is skipped. */
    method Step(e: Event)
      requires Valid()
      modifies this
      ensures Valid()
    {
      match e {
        case Arrives(c) => if producer.PIdle? { InputByte(c); }
        case Stores => if producer.PChecked? { PutStore(); }
        case Commits => if producer.PStored? { PutCommit(); }
        case Checks => if consumer.CIdle? { var some := GetCheck(); }
        case Loads => if consumer.CChecked? { GetLoad(); }
        case Takes => if consumer.CLoaded? { GetCommit(); }
      }
    }

    /** Under every interleaving the characters taken out are the first of those put in, in order, and every line that
        is delivered is a beginning of a line of the input, each of a later one. */
    method Run(es: seq<Event>)
      requires Valid()
      modifies this
      ensures Valid() && accepted == taken + pending
      ensures LinesFollow(TextOf(input), delivered, from)
    {
      for i := 0 to |es|
        invariant Valid()
      {
        Step(es[i]);
      }
      DeliveredLines();
    }

    lemma DeliveredLines()
      requires Valid()
      ensures LinesFollow(TextOf(input), delivered, from)
    {
      TextOfPrefix(taken, pending);
      LinesOf(TextOf(input), TextOf(accepted), TextOf(taken), delivered, buf[..ptr], size - 1, from, start, overflow);
    }

    /** While nothing was lost, what is delivered is every line of the input, cut to what the buffer holds. */
    lemma NothingLost()
      requires Valid() && pending == [] && accepted == input
      ensures |delivered| == |TextOf(input).lines|
      ensures forall k: nat :: k < |delivered| ==> delivered[k] == Cut(TextOf(input).lines[k], size - 1)
    {
      assert taken == input;
      forall k: nat | k < |delivered| ensures delivered[k] == Cut(TextOf(input).lines[k], size - 1) {
        assert CutAt(TextOf(taken).lines, delivered, size - 1, k);
      }
    }
  }

  lemma MaskOfSize(size: nat, bits: nat, eight: nat)
    requires size == Pow2(bits) && bits <= eight == 8
    ensures 1 <= size <= 256 && (size % 256 + 255) % 256 == size - 1
  {
    Pow2Grows(bits, eight);
    assert Pow2(8) == 256;
  }

  lemma BufferNext(buf: seq<byte>, ptr: nat, c: byte)
    requires ptr < |buf|
    ensures buf[ptr := c][..ptr] == buf[..ptr] && buf[ptr := c][..ptr + 1] == buf[..ptr] + [c] && buf[..0] == []
  {
  }

  lemma GlueAppend(accepted: seq<byte>, taken: seq<byte>, pending: seq<byte>, c: byte)
    requires accepted == taken + pending
    ensures accepted + [c] == taken + (pending + [c])
  {
  }

  lemma GlueMove(accepted: seq<byte>, taken: seq<byte>, pending: seq<byte>, c: byte, rest: seq<byte>)
    requires accepted == taken + pending && pending == [c] + rest
    ensures accepted == (taken + [c]) + rest
  {
  }

  /** One more character on both sides. */
  lemma AcceptedNext(input: seq<byte>, accepted: seq<byte>, from: seq<nat>, start: nat, overflow: bool, c: byte)
    requires Follows(TextOf(input), TextOf(accepted), from, start, overflow) && (overflow ==> Ends(c))
    ensures var i, a := TextOf(input + [c]), TextOf(accepted + [c]);
            && (Ends(c) ==> Follows(i, a, from + [start], |TextOf(input).lines| + 1, false))
            && (!Ends(c) ==> Follows(i, a, from, start, overflow))
  {
    TextOfNext(input, c);
    TextOfNext(accepted, c);
    AcceptKeeps(TextOf(input), TextOf(accepted), from, start, overflow, c);
  }

  datatype Event = Arrives(c: byte) | Stores | Commits | Checks | Loads | Takes
}
