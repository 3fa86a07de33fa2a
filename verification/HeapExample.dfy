/**
 An input on which heapmem_free takes a pointer that was freed before, and on which the heap is lost. Pointers and sizes
 have four bytes here, little end first, and NULL is all ones.
 */
module HeapExample {
  import opened ByteFacts
  import opened HeapCodec
  import opened HeapLayout
  import opened HeapMem

  function Digit(n: nat): byte
  {
    (n % 0x100) as bv8
  }

  function Word(n: nat): seq<byte>
  {
    [Digit(n), Digit(n / 0x100), Digit(n / 0x1_0000), Digit(n / 0x100_0000)]
  }

  function WordOf(w: seq<byte>): nat
  {
    if |w| != 4 then 0
    else w[0] as nat + 0x100 * w[1] as nat + 0x1_0000 * w[2] as nat + 0x100_0000 * w[3] as nat
  }

  function FourBytes(): Codec
  {
    Codec(4, (p: int) => Word(if p < 0 then 0xFFFF_FFFF else p),
          w => if WordOf(w) == 0xFFFF_FFFF then NULL else WordOf(w), 4, Word, WordOf)
  }

  lemma DigitOf(n: nat)
    ensures Digit(n) as nat == n % 0x100
  {
    ByteRoundTrip(n % 0x100);
  }

  lemma Digits(n: nat, a: nat, b: nat, c: nat)
    requires n <= 0xFFFF_FFFF && a == n / 0x100 && b == n / 0x1_0000 && c == n / 0x100_0000
    ensures n % 0x100 + 0x100 * (a % 0x100) + 0x1_0000 * (b % 0x100) + 0x100_0000 * (c % 0x100) == n
  {
    assert b == a / 0x100 && c == b / 0x100 && c < 0x100;
  }

  lemma WordRead(n: nat)
    requires n <= 0xFFFF_FFFF
    ensures WordOf(Word(n)) == n
  {
    var a, b, c := n / 0x100, n / 0x1_0000, n / 0x100_0000;
    DigitOf(n);
    DigitOf(a);
    DigitOf(b);
    DigitOf(c);
    Digits(n, a, b, c);
  }

  lemma FourBytesFaithful(arena: nat)
    requires arena < 0xFFFF_FFFF
    ensures Faithful(FourBytes(), arena)
  {
    var k := FourBytes();
    forall p: int {:trigger k.pointer(p)} | NULL <= p < arena
      ensures |k.pointer(p)| == k.pointerWidth && k.pointerOf(k.pointer(p)) == p
    {
      WordRead(if p < 0 then 0xFFFF_FFFF else p);
    }
    forall n: nat {:trigger k.size(n)} | n <= arena
      ensures |k.size(n)| == k.sizeWidth && k.sizeOf(k.size(n)) == n
    {
      WordRead(n);
    }
  }

  /** A write to the header at 0 is none to a header at `o`. */
  lemma HeaderKept(k: Codec, m: seq<byte>, m': seq<byte>, H: nat, o: nat)
    requires SameBytes(m, m', {0}, H) && k.FlagsAt() < H <= o && o + H <= |m|
    ensures HeaderAt(k, m', o) == HeaderAt(k, m, o)
  {
    forall i | H <= i < |m|
      ensures m'[i] == m[i]
    {
      assert Clear({0}, H, i, 1);
    }
    HeaderBeside(k, m, m', H, o, 0, H);
  }

  ghost predicate Fresh(h: Heap)
    reads h, h.mem
  {
    h.Valid() && h.usage == 0 && h.objs == map[] && h.fl == [] && h.H + h.A + h.H + h.A <= h.arena
  }

  /** Two objects of A bytes in an empty heap. */
  method AllocateTwo(h: Heap)
    requires Fresh(h)
    modifies h, h.mem
    ensures h.Valid() && h.fl == [] && h.usage == h.H + h.A + h.H + h.A && h.objs.Keys == {0, h.H + h.A}
    ensures |h.objs[0]| == |h.objs[h.H + h.A]| == h.A
  {
    AlignedAlready(h.A, h.A);
    var b := h.Alloc(h.A, true);
    var c := h.Alloc(h.A, true);
  }

  /** Both are freed, the second first. */
  method FreeTwo(h: Heap)
    requires h.Valid() && h.fl == [] && h.usage == h.H + h.A + h.H + h.A && h.objs.Keys == {0, h.H + h.A}
    requires |h.objs[0]| == |h.objs[h.H + h.A]| == h.A
    modifies h, h.mem
    ensures Fresh(h)
  {
    h.OwnedPointer(h.H + h.A);
    var ok := h.Free(h.H + h.A + h.H);
    h.OwnedPointer(0);
    ok := h.Free(h.H);
  }

  lemma Marked(k: Codec, m: seq<byte>, o: nat)
    requires o + k.FlagsAt() < |m| && m[o + k.FlagsAt()] == 1
    ensures HeaderAt(k, m, o).used
  {
  }

  /** A larger object takes their place and writes a 1 where the flags of the second object's header were. With 4 bytes
      for pointers and sizes, headers of 16 bytes and an alignment of 8, the index is 20. */
  method AllocateAndMark(h: Heap)
    requires Fresh(h)
    modifies h, h.mem
    ensures h.Valid() && h.fl == [] && h.usage == h.H + h.A + h.H + h.A && h.objs.Keys == {0}
    ensures |h.objs[0]| == h.A + h.H + h.A && h.bytes[h.H + h.A + h.codec.FlagsAt()] == 1
  {
    var size := h.A + h.H + h.A;
    MultipleAdd(h.A, h.H, h.A);
    MultipleAdd(h.A + h.H, h.A, h.A);
    AlignedAlready(size, h.A);
    var d := h.Alloc(size, true);
    h.Write(0, h.A + h.codec.FlagsAt(), 1);
  }

  /** The only object is freed. */
  method FreeOnly(h: Heap)
    requires h.Valid() && h.fl == [] && h.objs.Keys == {0} && h.usage == h.H + |h.objs[0]|
    requires h.H + h.A + h.H + h.A <= h.arena
    modifies h, h.mem
    ensures Fresh(h) && SameBytes(old(h.bytes), h.bytes, {0}, h.H)
  {
    h.OwnedPointer(0);
    var ok := h.Free(h.H);
  }

  /** All that, and the larger object is freed too. */
  method MarkAndFree(h: Heap)
    requires Fresh(h)
    modifies h, h.mem
    ensures Fresh(h) && HeaderAt(h.codec, h.bytes, h.H + h.A).used
  {
    AllocateAndMark(h);
    ghost var m := h.bytes;
    Marked(h.codec, m, h.H + h.A);
    FreeOnly(h);
    HeaderKept(h.codec, m, h.bytes, h.H, h.H + h.A);
  }

  /** Freeing the second object once more is not refused, and leaves no heap. */
  method FreedTwice(h: Heap) returns (ok: bool)
    requires Fresh(h)
    modifies h, h.mem
    ensures ok && h.A > 0 && !h.IsHeapNow()
  {
    AllocateTwo(h);
    FreeTwo(h);
    MarkAndFree(h);
    ok := h.Free(h.H + h.A + h.H);
  }

  /** So it is in an arena of 64 bytes. */
  method FreedTwiceIn64() returns (h: Heap, ok: bool)
    ensures fresh(h) && h.arena == 64 && h.H == 16 && h.A == 8 && h.codec == FourBytes()
    ensures ok && !h.IsHeapNow()
  {
    FourBytesFaithful(64);
    assert Multiple(16, 8) by {
      assert Multiple(8, 8);
    }
    h := new Heap(64, 16, 8, 16, FourBytes());
    ok := FreedTwice(h);
  }
}
