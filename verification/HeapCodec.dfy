/**
 How chunk headers lie in the bytes of the arena, os/lib/heapmem.c:165-175: two pointers, a size and a byte of flags,
 and behind them whatever else the struct holds. How the platform writes a pointer or a size is not fixed.
 */
module HeapCodec {
  import opened HeapLayout

  type byte = bv8

  /** The platform's representation of pointers to chunks, given as offsets, and of sizes. */
  datatype Codec = Codec(
    pointerWidth: nat, pointer: int -> seq<byte>, pointerOf: seq<byte> -> int,
    sizeWidth: nat, size: nat -> seq<byte>, sizeOf: seq<byte> -> nat)
  {
    /** offsetof(chunk_t, flags); the fields before it are prev, next and size. */
    function FlagsAt(): nat {
      pointerWidth + pointerWidth + sizeWidth
    }

    function SizeAt(): nat {
      pointerWidth + pointerWidth
    }
  }

  /** Pointers into an arena of `arena` bytes, NULL and sizes up to that of the arena are read as they were written. */
  ghost predicate Faithful(k: Codec, arena: nat)
  {
    && (forall p: int {:trigger k.pointer(p)} :: NULL <= p < arena ==>
          |k.pointer(p)| == k.pointerWidth && k.pointerOf(k.pointer(p)) == p)
    && (forall n: nat {:trigger k.size(n)} :: n <= arena ==>
          |k.size(n)| == k.sizeWidth && k.sizeOf(k.size(n)) == n)
  }

  /** CHUNK_ALLOCATED */
  predicate Allocated(flags: byte)
  {
    flags & 1 == 1
  }

  /** flags &= ~CHUNK_FLAG_ALLOCATED */
  function Freed(flags: byte): (r: byte)
    ensures !Allocated(r)
  {
    flags & 0xFE
  }

  /** What the bytes at `o` say when they are read as a header. */
  ghost function HeaderAt(k: Codec, m: seq<byte>, o: nat): Chunk
    requires o + k.FlagsAt() < |m|
  {
    Chunk(k.pointerOf(m[o..o + k.pointerWidth]),
          k.pointerOf(m[o + k.pointerWidth..o + k.SizeAt()]),
          k.sizeOf(m[o + k.SizeAt()..o + k.FlagsAt()]),
          Allocated(m[o + k.FlagsAt()]))
  }

  ghost predicate RecordedAt(k: Codec, m: seq<byte>, hdr: seq<Chunk>, H: nat, o: nat)
  {
    k.FlagsAt() < H && o + H <= |m| && o < |hdr| && hdr[o] == HeaderAt(k, m, o)
  }

  ghost predicate SpacedAt(o: nat, p: nat, H: nat)
  {
    o < p ==> o + H <= p
  }

  /** Headers at different places of `S` do not overlap. */
  ghost predicate Spaced(S: set<nat>, H: nat)
  {
    forall o, p {:trigger SpacedAt(o, p, H)} :: o in S && p in S ==> SpacedAt(o, p, H)
  }

  /** `hdr` is what the bytes say about the headers at `S`, which do not overlap. */
  ghost predicate Recorded(k: Codec, m: seq<byte>, hdr: seq<Chunk>, S: set<nat>, H: nat)
  {
    Spaced(S, H) && forall o {:trigger RecordedAt(k, m, hdr, H, o)} :: o in S ==> RecordedAt(k, m, hdr, H, o)
  }

  /** `m'` is `m` with `w` written at `p`. */
  ghost predicate Written(m: seq<byte>, m': seq<byte>, p: nat, w: seq<byte>)
  {
    && p + |w| <= |m| == |m'|
    && forall i {:trigger m'[i]} :: 0 <= i < |m| ==> m'[i] == if p <= i < p + |w| then w[i - p] else m[i]
  }

  lemma SliceSame(m: seq<byte>, m': seq<byte>, p: nat, w: seq<byte>, a: nat, b: nat)
    requires Written(m, m', p, w) && a <= b <= |m| && (b <= p || p + |w| <= a)
    ensures m'[a..b] == m[a..b]
  {
  }

  lemma SliceNew(m: seq<byte>, m': seq<byte>, p: nat, w: seq<byte>)
    requires Written(m, m', p, w)
    ensures m'[p..p + |w|] == w
  {
  }

  // ------------------------------------------------------------- field writes

  lemma PrevWritten(k: Codec, m: seq<byte>, m': seq<byte>, o: nat, arena: nat, v: int)
    requires Faithful(k, arena) && NULL <= v < arena
    requires o + k.FlagsAt() < |m| && Written(m, m', o, k.pointer(v))
    ensures HeaderAt(k, m', o) == HeaderAt(k, m, o).(prev := v)
  {
    SliceNew(m, m', o, k.pointer(v));
    SliceSame(m, m', o, k.pointer(v), o + k.pointerWidth, o + k.SizeAt());
    SliceSame(m, m', o, k.pointer(v), o + k.SizeAt(), o + k.FlagsAt());
  }

  lemma NextWritten(k: Codec, m: seq<byte>, m': seq<byte>, o: nat, arena: nat, v: int)
    requires Faithful(k, arena) && NULL <= v < arena
    requires o + k.FlagsAt() < |m| && Written(m, m', o + k.pointerWidth, k.pointer(v))
    ensures HeaderAt(k, m', o) == HeaderAt(k, m, o).(next := v)
  {
    SliceNew(m, m', o + k.pointerWidth, k.pointer(v));
    SliceSame(m, m', o + k.pointerWidth, k.pointer(v), o, o + k.pointerWidth);
    SliceSame(m, m', o + k.pointerWidth, k.pointer(v), o + k.SizeAt(), o + k.FlagsAt());
  }

  lemma SizeWritten(k: Codec, m: seq<byte>, m': seq<byte>, o: nat, arena: nat, n: nat)
    requires Faithful(k, arena) && n <= arena
    requires o + k.FlagsAt() < |m| && Written(m, m', o + k.SizeAt(), k.size(n))
    ensures HeaderAt(k, m', o) == HeaderAt(k, m, o).(size := n)
  {
    SliceNew(m, m', o + k.SizeAt(), k.size(n));
    SliceSame(m, m', o + k.SizeAt(), k.size(n), o, o + k.pointerWidth);
    SliceSame(m, m', o + k.SizeAt(), k.size(n), o + k.pointerWidth, o + k.SizeAt());
  }

  lemma FlagsWritten(k: Codec, m: seq<byte>, m': seq<byte>, o: nat, b: byte)
    requires o + k.FlagsAt() < |m| && Written(m, m', o + k.FlagsAt(), [b])
    ensures HeaderAt(k, m', o) == HeaderAt(k, m, o).(used := Allocated(b))
  {
    SliceSame(m, m', o + k.FlagsAt(), [b], o, o + k.pointerWidth);
    SliceSame(m, m', o + k.FlagsAt(), [b], o + k.pointerWidth, o + k.SizeAt());
    SliceSame(m, m', o + k.FlagsAt(), [b], o + k.SizeAt(), o + k.FlagsAt());
  }

  // ------------------------------------------------- what keeps headers intact

  lemma RecordedRead(k: Codec, m: seq<byte>, hdr: seq<Chunk>, S: set<nat>, H: nat, o: nat)
    requires Recorded(k, m, hdr, S, H) && o in S
    ensures k.FlagsAt() < H && o + H <= |m| && o < |hdr| && hdr[o] == HeaderAt(k, m, o)
  {
    assert RecordedAt(k, m, hdr, H, o);
  }

  /** Writing a part of the header at `o` leaves all other headers as they are. */
  lemma RecordedStore(k: Codec, m: seq<byte>, m': seq<byte>, hdr: seq<Chunk>, S: set<nat>, H: nat, o: nat,
                      p: nat, w: seq<byte>, c: Chunk)
    requires Recorded(k, m, hdr, S, H) && o in S && Written(m, m', p, w) && o <= p && p + |w| <= o + H
    requires o + k.FlagsAt() < |m| && c == HeaderAt(k, m', o) && o < |hdr|
    ensures Recorded(k, m', hdr[o := c], S, H)
    ensures SameBytes(m, m', {o}, H)
  {
    RecordedRead(k, m, hdr, S, H, o);
    forall q {:trigger RecordedAt(k, m', hdr[o := c], H, q)} | q in S
      ensures RecordedAt(k, m', hdr[o := c], H, q)
    {
      assert RecordedAt(k, m, hdr, H, q) && SpacedAt(o, q, H) && SpacedAt(q, o, H);
      if q != o {
        HeaderBeside(k, m, m', H, q, p, |w|);
      }
    }
    forall i {:trigger Clear({o}, H, i, 1)} | 0 <= i < |m| && Clear({o}, H, i, 1)
      ensures m[i] == m'[i]
    {
      assert o in {o};
    }
  }

  lemma HeaderBeside(k: Codec, m: seq<byte>, m': seq<byte>, H: nat, q: nat, p: nat, n: nat)
    requires k.FlagsAt() < H && q + H <= |m| == |m'| && (q + H <= p || p + n <= q)
    requires forall i {:trigger m'[i]} :: 0 <= i < |m| && !(p <= i < p + n) ==> m'[i] == m[i]
    ensures HeaderAt(k, m', q) == HeaderAt(k, m, q)
  {
    assert m'[q..q + k.pointerWidth] == m[q..q + k.pointerWidth];
    assert m'[q + k.pointerWidth..q + k.SizeAt()] == m[q + k.pointerWidth..q + k.SizeAt()];
    assert m'[q + k.SizeAt()..q + k.FlagsAt()] == m[q + k.SizeAt()..q + k.FlagsAt()];
  }

  /** Writing where no header lies leaves all headers as they are. */
  lemma RecordedBeside(k: Codec, m: seq<byte>, m': seq<byte>, hdr: seq<Chunk>, S: set<nat>, H: nat, p: nat, n: nat)
    requires Recorded(k, m, hdr, S, H) && Clear(S, H, p, n) && |m| == |m'|
    requires forall i {:trigger m'[i]} :: 0 <= i < |m| && !(p <= i < p + n) ==> m'[i] == m[i]
    ensures Recorded(k, m', hdr, S, H)
  {
    forall q {:trigger RecordedAt(k, m', hdr, H, q)} | q in S
      ensures RecordedAt(k, m', hdr, H, q)
    {
      assert RecordedAt(k, m, hdr, H, q);
      HeaderBeside(k, m, m', H, q, p, n);
    }
  }

  lemma RecordedFewer(k: Codec, m: seq<byte>, hdr: seq<Chunk>, S: set<nat>, S': set<nat>, H: nat)
    requires Recorded(k, m, hdr, S, H) && S' <= S
    ensures Recorded(k, m, hdr, S', H)
  {
    forall o, p {:trigger SpacedAt(o, p, H)} | o in S' && p in S'
      ensures SpacedAt(o, p, H)
    {
    }
    forall o {:trigger RecordedAt(k, m, hdr, H, o)} | o in S'
      ensures RecordedAt(k, m, hdr, H, o)
    {
    }
  }

  /** Whatever the bytes at `n` say becomes a header. */
  lemma RecordedAlso(k: Codec, m: seq<byte>, hdr: seq<Chunk>, S: set<nat>, H: nat, n: nat)
    requires Recorded(k, m, hdr, S, H) && k.FlagsAt() < H && n + H <= |m| && n < |hdr| && n !in S
    requires forall o :: o in S ==> SpacedAt(o, n, H) && SpacedAt(n, o, H)
    ensures Recorded(k, m, hdr[n := HeaderAt(k, m, n)], S + {n}, H)
  {
    var h := hdr[n := HeaderAt(k, m, n)];
    forall o {:trigger RecordedAt(k, m, h, H, o)} | o in S + {n}
      ensures RecordedAt(k, m, h, H, o)
    {
      assert o != n ==> RecordedAt(k, m, hdr, H, o);
    }
  }

  /** A header inside the payload of a tile lies beside all headers. */
  lemma InsidePayload(hdr: seq<Chunk>, T: set<nat>, usage: nat, H: nat, c: nat, n: nat)
    requires H > 0 && Tiled(hdr, T, usage, H) && c in T && c + H <= n && n + H <= NextOf(hdr, c, H)
    ensures n !in T && forall o :: o in T ==> SpacedAt(o, n, H) && SpacedAt(n, o, H)
  {
    assert n in T ==> Apart(hdr, c, n, H);
    forall o | o in T
      ensures SpacedAt(o, n, H) && SpacedAt(n, o, H)
    {
      assert Apart(hdr, o, c, H) && Apart(hdr, c, o, H);
    }
  }

  /** So does one behind all tiles. */
  lemma BehindTiles(hdr: seq<Chunk>, T: set<nat>, usage: nat, H: nat)
    requires Tiled(hdr, T, usage, H)
    ensures usage !in T && forall o :: o in T ==> SpacedAt(o, usage, H) && SpacedAt(usage, o, H)
  {
    forall o | o in T
      ensures o != usage && SpacedAt(o, usage, H) && SpacedAt(usage, o, H)
    {
      assert Fits(hdr, o, usage, H);
    }
  }
}
