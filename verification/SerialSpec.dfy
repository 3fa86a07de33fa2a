/**
 The ring of os/lib/ringbuf.c under interleaved steps of one producer and one consumer, and lines of characters.
 */
module SerialSpec {
  import opened Arith
  import opened Bits

  type byte = c: int | 0 <= c < 256

  // ------------------------------------------------------------------ pointers

  /** The place after p. */
  function Next(p: nat, size: nat): (q: nat)
    requires p < size
    ensures q < size
  {
    if p + 1 == size then 0 else p + 1
  }

  /** How far it is from g to p. */
  function Distance(p: nat, g: nat, size: nat): (d: nat)
    requires p < size && g < size
    ensures d < size
  {
    if p >= g then p - g else p + size - g
  }

  /** An int of w bits, as its bits. */
  function AsBits(d: int, w: nat): nat
    requires 0 - Pow2(w) <= d
  {
    if d >= 0 then d else d + Pow2(w)
  }

  /** A mask of n ones makes the pointers, and their difference as an int of any width, wrap at the size. */
  lemma MaskedPointers(p: nat, g: nat, n: nat, w: nat)
    requires n <= w && p < Pow2(n) && g < Pow2(n)
    ensures And(p + 1, Pow2(n) - 1) == Next(p, Pow2(n))
    ensures g - p <= Pow2(w) && And(AsBits(p - g, w), Pow2(n) - 1) == Distance(p, g, Pow2(n))
  {
    Pow2Grows(n, w);
    MaskedNext(p, n);
    AndMod(AsBits(p - g, w), n);
    if p >= g {
      SmallMod(p - g, Pow2(n));
    } else {
      Pow2Add(w - n, n);
      WrappedMod(Pow2(w - n), Pow2(n), p, g);
    }
  }

  lemma MaskedNext(p: nat, n: nat)
    requires p < Pow2(n)
    ensures And(p + 1, Pow2(n) - 1) == Next(p, Pow2(n))
  {
    AndMod(p + 1, n);
    ModUnique(p + 1, Pow2(n), if p + 1 == Pow2(n) then 1 else 0, Next(p, Pow2(n)));
  }

  lemma WrappedMod(q: nat, size: nat, p: nat, g: nat)
    requires p < g < size && q > 0
    ensures q * size >= g && (p - g + q * size) % size == p + size - g
  {
    assert q * size == (q - 1) * size + size;
    ModUnique(p - g + q * size, size, q - 1, p + size - g);
  }

  /** The place i bytes after g. */
  function At(g: nat, i: nat, size: nat): (j: nat)
    requires g < size && i < size
    ensures j < size
  {
    if g + i < size then g + i else g + i - size
  }

  datatype Producer = PIdle | PChecked(c: byte) | PStored(c: byte)

  datatype Consumer = CIdle | CChecked | CLoaded(c: byte)

  /** The i-th pending byte is where it should be. */
  ghost predicate LiesAt(size: nat, get: nat, data: seq<byte>, pending: seq<byte>, i: nat)
    requires get < size && i < size
  {
    i < |pending| ==> |data| == size && data[At(get, i, size)] == pending[i]
  }

  /** The pending bytes lie in the buffer from get to put; what either side knows after its check stays true whatever
      the other side does. */
  ghost predicate RingOk(size: nat, put: nat, get: nat, data: seq<byte>, p: Producer, c: Consumer, pending: seq<byte>)
  {
    && |data| == size && put < size && get < size && |pending| < size && put == At(get, |pending|, size)
    && (forall i: nat {:trigger LiesAt(size, get, data, pending, i)} :: i < size ==>
      LiesAt(size, get, data, pending, i))
    && (!p.PIdle? ==> |pending| + 1 < size)
    && (p.PStored? ==> data[put] == p.c)
    && (!c.CIdle? ==> |pending| > 0)
    && (c.CLoaded? ==> c.c == pending[0])
  }

  lemma FullOrEmpty(size: nat, put: nat, get: nat, data: seq<byte>, p: Producer, c: Consumer, pending: seq<byte>)
    requires RingOk(size, put, get, data, p, c, pending)
    ensures Distance(put, get, size) == |pending|
  {
  }

  lemma StoreKeeps(size: nat, put: nat, get: nat, data: seq<byte>, x: byte, c: Consumer, pending: seq<byte>)
    requires RingOk(size, put, get, data, PChecked(x), c, pending)
    ensures RingOk(size, put, get, data[put := x], PStored(x), c, pending)
  {
    forall i: nat {:trigger LiesAt(size, get, data[put := x], pending, i)} | i < size
      ensures LiesAt(size, get, data[put := x], pending, i)
    {
      assert LiesAt(size, get, data, pending, i);
    }
  }

  lemma CommitKeeps(size: nat, put: nat, get: nat, data: seq<byte>, x: byte, c: Consumer, pending: seq<byte>)
    requires RingOk(size, put, get, data, PStored(x), c, pending)
    ensures RingOk(size, Next(put, size), get, data, PIdle, c, pending + [x])
  {
    var q := pending + [x];
    forall i: nat {:trigger LiesAt(size, get, data, q, i)} | i < size ensures LiesAt(size, get, data, q, i) {
      assert LiesAt(size, get, data, pending, i);
    }
    if c.CLoaded? { assert q[0] == pending[0]; }
  }

  lemma TakeKeeps(size: nat, put: nat, get: nat, data: seq<byte>, p: Producer, x: byte, pending: seq<byte>)
    requires RingOk(size, put, get, data, p, CLoaded(x), pending)
    ensures RingOk(size, put, Next(get, size), data, p, CIdle, pending[1..])
  {
    var q, g := pending[1..], Next(get, size);
    forall i: nat {:trigger LiesAt(size, g, data, q, i)} | i < size ensures LiesAt(size, g, data, q, i) {
      if i < |q| {
        assert LiesAt(size, get, data, pending, i + 1);
      }
    }
  }

  // -------------------------------------------------------------------- lines

  const LF: byte := 0x0a
  const CR: byte := 0x0d

  predicate Ends(c: byte)
  {
    c == LF || c == CR
  }

  /** A line ends with a line feed, 10, or a carriage return, 13. */
  lemma Terminators(c: byte)
    ensures Ends(c) <==> c == 10 || c == 13
  {
  }

  /** Characters cut into lines at the terminators, and the line that is not yet terminated. */
  datatype Text = Text(lines: seq<seq<byte>>, rest: seq<byte>)

  function TextNext(t: Text, c: byte): Text
  {
    if Ends(c) then Text(t.lines + [t.rest], []) else Text(t.lines, t.rest + [c])
  }

  function TextUpTo(s: seq<byte>, n: nat): Text
    requires n <= |s|
  {
    if n == 0 then Text([], []) else TextNext(TextUpTo(s, n - 1), s[n - 1])
  }

  function TextOf(s: seq<byte>): Text
  {
    TextUpTo(s, |s|)
  }

  lemma {:induction false} UpToOnly(s: seq<byte>, t: seq<byte>, n: nat)
    requires n <= |s| && s <= t
    ensures TextUpTo(s, n) == TextUpTo(t, n)
  {
    if n > 0 {
      UpToOnly(s, t, n - 1);
    }
  }

  lemma TextOfNext(s: seq<byte>, c: byte)
    ensures TextOf(s + [c]) == TextNext(TextOf(s), c)
  {
    UpToOnly(s, s + [c], |s|);
  }

  /** More characters leave the lines before as they are. */
  lemma {:induction false} TextOfPrefix(s: seq<byte>, t: seq<byte>)
    ensures TextOf(s).lines <= TextOf(s + t).lines
  {
    if t == [] {
      assert s + t == s;
    } else {
      var h := t[..|t| - 1];
      assert s + t == (s + h) + [t[|t| - 1]];
      TextOfPrefix(s, h);
      TextOfNext(s + h, t[|t| - 1]);
    }
  }

  /** The j-th line of a text, the last one perhaps not terminated. */
  function LineAt(t: Text, j: nat): seq<byte>
    requires j <= |t.lines|
  {
    if j < |t.lines| then t.lines[j] else t.rest
  }

  /** Entry j is before entry k. */
  ghost predicate Before(from: seq<nat>, j: nat, k: nat)
  {
    j < k < |from| ==> from[j] < from[k]
  }

  /** No two lines begin the same line, and their order is kept. */
  ghost predicate Rising(from: seq<nat>)
  {
    forall j: nat, k: nat {:trigger Before(from, j, k)} :: Before(from, j, k)
  }

  /** Line k begins line from[k] of the input, which is before line start. */
  ghost predicate Begins(lines: seq<seq<byte>>, input: seq<seq<byte>>, from: seq<nat>, start: nat, k: nat)
  {
    k < |lines| ==> k < |from| && from[k] < start && from[k] < |input| && lines[k] <= input[from[k]]
  }

  ghost predicate AllBegin(lines: seq<seq<byte>>, input: seq<seq<byte>>, from: seq<nat>, start: nat)
  {
    forall k: nat {:trigger Begins(lines, input, from, start, k)} :: Begins(lines, input, from, start, k)
  }

  /** Line k of what was accepted begins line from[k] of the input; the line that is being accepted begins
      line start. */
  ghost predicate Follows(input: Text, accepted: Text, from: seq<nat>, start: nat, overflow: bool)
  {
    && |from| == |accepted.lines| && start <= |input.lines|
    && Rising(from) && AllBegin(accepted.lines, input.lines, from, start)
    && accepted.rest <= LineAt(input, start)
    && (!overflow ==> start == |input.lines| && accepted.rest == input.rest)
  }

  lemma RisingNext(from: seq<nat>, lines: seq<seq<byte>>, input: seq<seq<byte>>, start: nat)
    requires Rising(from) && |from| == |lines| && AllBegin(lines, input, from, start)
    ensures Rising(from + [start])
  {
    var f := from + [start];
    forall j: nat, k: nat {:trigger Before(f, j, k)} ensures Before(f, j, k) {
      assert Before(from, j, k) && Begins(lines, input, from, start, j);
    }
  }

  /** The next line begins line start. */
  lemma BeginNext(lines: seq<seq<byte>>, input: seq<seq<byte>>, from: seq<nat>, start: nat, line: seq<byte>, end: nat)
    requires AllBegin(lines, input, from, start) && |from| == |lines| && start < |input| && start < end
    requires line <= input[start]
    ensures AllBegin(lines + [line], input, from + [start], end)
  {
    var l, f := lines + [line], from + [start];
    forall k: nat {:trigger Begins(l, input, f, end, k)} ensures Begins(l, input, f, end, k) {
      assert Begins(lines, input, from, start, k);
    }
  }

  /** A longer input. */
  lemma BeginMore(lines: seq<seq<byte>>, input: seq<seq<byte>>, from: seq<nat>, start: nat, more: seq<seq<byte>>)
    requires AllBegin(lines, input, from, start) && start <= |input|
    ensures AllBegin(lines, input + more, from, start)
  {
    var i := input + more;
    forall k: nat {:trigger Begins(lines, i, from, start, k)} ensures Begins(lines, i, from, start, k) {
      assert Begins(lines, input, from, start, k);
    }
  }

  /** A character that is accepted: all are while nothing is lost, terminators only afterwards. */
  lemma AcceptKeeps(input: Text, accepted: Text, from: seq<nat>, start: nat, overflow: bool, c: byte)
    requires Follows(input, accepted, from, start, overflow) && (overflow ==> Ends(c))
    ensures Ends(c) ==> Follows(TextNext(input, c), TextNext(accepted, c), from + [start], |input.lines| + 1, false)
    ensures !Ends(c) ==> Follows(TextNext(input, c), TextNext(accepted, c), from, start, overflow)
  {
    if Ends(c) {
      BeginMore(accepted.lines, input.lines, from, start, [input.rest]);
      RisingNext(from, accepted.lines, input.lines, start);
      BeginNext(accepted.lines, input.lines + [input.rest], from, start, accepted.rest, |input.lines| + 1);
    }
  }

  /** A character that is lost. */
  lemma LoseKeeps(input: Text, accepted: Text, from: seq<nat>, start: nat, overflow: bool, c: byte)
    requires Follows(input, accepted, from, start, overflow)
    ensures Follows(TextNext(input, c), accepted, from, start, true)
  {
    BeginMore(accepted.lines, input.lines, from, start, [input.rest]);
  }

  /** The delivered lines are the taken ones, cut to what the buffer holds. */
  function Cut(s: seq<byte>, n: nat): (r: seq<byte>)
    ensures r <= s
  {
    if |s| <= n then s else s[..n]
  }

  ghost predicate CutAt(lines: seq<seq<byte>>, delivered: seq<seq<byte>>, n: nat, k: nat)
  {
    k < |delivered| ==> k < |lines| && delivered[k] == Cut(lines[k], n)
  }

  ghost predicate AllCut(lines: seq<seq<byte>>, delivered: seq<seq<byte>>, n: nat)
  {
    forall k: nat {:trigger CutAt(lines, delivered, n, k)} :: CutAt(lines, delivered, n, k)
  }

  ghost predicate Delivers(taken: Text, delivered: seq<seq<byte>>, line: seq<byte>, n: nat)
  {
    |delivered| == |taken.lines| && line == Cut(taken.rest, n) && AllCut(taken.lines, delivered, n)
  }

  lemma CutNext(lines: seq<seq<byte>>, delivered: seq<seq<byte>>, n: nat, line: seq<byte>)
    requires |delivered| == |lines| && AllCut(lines, delivered, n)
    ensures AllCut(lines + [line], delivered + [Cut(line, n)], n)
  {
    var l, d := lines + [line], delivered + [Cut(line, n)];
    forall k: nat {:trigger CutAt(l, d, n, k)} ensures CutAt(l, d, n, k) {
      assert CutAt(lines, delivered, n, k);
    }
  }

  lemma DeliverKeeps(taken: Text, delivered: seq<seq<byte>>, line: seq<byte>, n: nat, c: byte)
    requires Delivers(taken, delivered, line, n)
    ensures Ends(c) ==> Delivers(TextNext(taken, c), delivered + [line], [], n)
    ensures !Ends(c) ==> Delivers(TextNext(taken, c), delivered, if |line| < n then line + [c] else line, n)
  {
    CutNext(taken.lines, delivered, n, taken.rest);
  }

  /** Delivered line k is a prefix of line from[k] of the input; these lines are distinct and in order. */
  ghost predicate LinesFollow(input: Text, delivered: seq<seq<byte>>, from: seq<nat>)
  {
    Rising(from) && AllBegin(delivered, input.lines, from, |input.lines|)
  }

  /** What is delivered is what was taken, what was taken begins what was accepted, and that follows the input. */
  lemma LinesOf(input: Text, accepted: Text, taken: Text, delivered: seq<seq<byte>>, line: seq<byte>, n: nat,
      from: seq<nat>, start: nat, overflow: bool)
    requires Follows(input, accepted, from, start, overflow) && Delivers(taken, delivered, line, n)
    requires taken.lines <= accepted.lines
    ensures LinesFollow(input, delivered, from)
  {
    forall k: nat {:trigger Begins(delivered, input.lines, from, |input.lines|, k)}
      ensures Begins(delivered, input.lines, from, |input.lines|, k)
    {
      assert Begins(accepted.lines, input.lines, from, start, k) && CutAt(taken.lines, delivered, n, k);
    }
  }

  /** Nothing has come in. */
  lemma Initially(size: nat, data: seq<byte>)
    requires size > 0 && |data| == size
    ensures RingOk(size, 0, 0, data, PIdle, CIdle, [])
    ensures Follows(TextOf([]), TextOf([]), [], 0, false) && Delivers(TextOf([]), [], [], size - 1)
  {
  }
}
