/**
 os/lib/heapmem.c: the heap allocator. The chunk headers lie in the arena itself and are read from and written to its
 bytes, field by field; `hdr` is what they say where a header lies. The zone limit check is an admission guard chosen
 by the caller.
 */
module HeapMem {
  import opened HeapCodec
  import opened HeapLayout
  import opened HeapObjects
  import opened HeapSteps
  import opened HeapViews

  /** The state between the defragmentation and the search of an allocation. */
  datatype Snapshot = Snapshot(hdr: seq<Chunk>, T: set<nat>, fl: seq<nat>)

  /** What a client can ask for; an object is named by the offset of its chunk. */
  datatype Request =
    | AllocRequest(size: nat, admitted: bool)
    | CallocRequest(nmemb: nat, size: nat, admitted: bool)
    | FreeRequest(c: nat)
    | ReallocRequest(c: nat, size: nat, admitted: bool)
    | WriteRequest(c: nat, i: nat, b: byte)
    | StatsRequest

  function Higher(a: nat, b: nat): nat
  {
    if a < b then b else a
  }

  /** What a client sees of the allocator: the live objects, the payloads that the pieces of memory which an allocation
      looks at could hold, the footprint and its high-water mark. */
  datatype Store = Store(objs: map<nat, seq<byte>>, spare: set<nat>, footprint: nat, peak: nat)

  ghost predicate NoneHolds(spare: set<nat>, n: nat)
  {
    forall s {:trigger s in spare} :: s in spare ==> s < n
  }

  ghost predicate ZeroPrefix(b: seq<byte>, n: nat)
  {
    n <= |b| && forall i :: 0 <= i < n ==> b[i] == 0
  }

  class Heap {
    /** HEAPMEM_ARENA_SIZE, sizeof(chunk_t), HEAPMEM_ALIGNMENT and CHUNK_SEARCH_MAX. */
    const arena: nat
    const H: nat
    const A: nat
    const searchMax: nat
    const codec: Codec

    const mem: array<byte>
    var usage: nat
    var maxUsage: nat
    var freeList: int

    /** The bytes of the arena. */
    ghost var bytes: seq<byte>

    /** The offsets where headers lie, which are those of the chunks that tile the footprint, and what they say. */
    ghost var T: set<nat>
    ghost var hdr: seq<Chunk>

    /** The free list from its head. */
    ghost var fl: seq<nat>

    /** The live objects by the offset of their chunk; the pointer handed out lies H bytes further. */
    ghost var objs: map<nat, seq<byte>>

    ghost predicate InSync()
      reads this, mem
    {
      |bytes| == mem.Length == arena && forall i {:trigger mem[i]} :: 0 <= i < arena ==> mem[i] == bytes[i]
    }

    ghost predicate Shape()
      reads this, mem
    {
      && H > 0 && A > 0 && Multiple(H, A) && |hdr| == arena && usage <= arena && InSync()
      && Faithful(codec, arena) && codec.FlagsAt() < H && Recorded(codec, bytes, hdr, T, H)
      && (forall o {:trigger o in T} :: o in T ==> o + H <= arena)
    }

    /** The invariant while the tile `limbo` is neither on the free list nor marked as allocated. */
    ghost predicate Between(limbo: int)
      reads this, mem
    {
      Shape() && Laid(hdr, T, usage, fl, H, A, limbo) && Linked(hdr, fl, freeList)
    }

    ghost predicate Sound()
      reads this, mem
    {
      Between(NULL) && usage <= maxUsage <= arena
    }

    ghost predicate Valid()
      reads this, mem
    {
      Sound() && Matches(hdr, T, H, bytes, objs)
    }

    constructor (arenaSize: nat, headerSize: nat, alignment: nat, search: nat, k: Codec)
      requires alignment > 0 && Multiple(headerSize, alignment)
      requires k.FlagsAt() < headerSize && Faithful(k, arenaSize)
      ensures Valid() && objs == map[] && usage == 0 == maxUsage && fl == [] && fresh(mem)
      ensures arena == arenaSize && H == headerSize && A == alignment && searchMax == search && codec == k
    {
      arena, H, A, searchMax, codec := arenaSize, headerSize, alignment, search, k;
      mem := new byte[arenaSize](_ => 0);
      usage, maxUsage, freeList := 0, 0, NULL;
      T, hdr, fl, objs := {}, seq(arenaSize, _ => Chunk(NULL, NULL, 0, false)), [], map[];
      bytes := seq(arenaSize, _ => 0);
    }

    // ----------------------------------------------------- headers in the arena

    method LoadBytes(p: nat, n: nat) returns (w: seq<byte>)
      requires InSync() && p + n <= arena
      ensures w == bytes[p..p + n]
    {
      w := mem[p..p + n];
    }

    method StoreBytes(p: nat, w: seq<byte>)
      requires InSync() && p + |w| <= arena
      modifies this`bytes, mem
      ensures InSync() && Written(old(bytes), bytes, p, w)
    {
      for i := 0 to |w|
        modifies mem
        invariant forall j :: 0 <= j < arena ==> mem[j] == if p <= j < p + i then w[j - p] else old(mem[j])
      {
        mem[p + i] := w[i];
      }
      bytes := mem[..];
    }

    method LoadPrev(o: nat) returns (v: int)
      requires Shape() && o in T
      ensures v == hdr[o].prev
    {
      RecordedRead(codec, bytes, hdr, T, H, o);
      var w := LoadBytes(o, codec.pointerWidth);
      v := codec.pointerOf(w);
    }

    method LoadNext(o: nat) returns (v: int)
      requires Shape() && o in T
      ensures v == hdr[o].next
    {
      RecordedRead(codec, bytes, hdr, T, H, o);
      var w := LoadBytes(o + codec.pointerWidth, codec.pointerWidth);
      v := codec.pointerOf(w);
    }

    method LoadSize(o: nat) returns (n: nat)
      requires Shape() && o in T
      ensures n == hdr[o].size
    {
      RecordedRead(codec, bytes, hdr, T, H, o);
      var w := LoadBytes(o + codec.SizeAt(), codec.sizeWidth);
      n := codec.sizeOf(w);
    }

    method LoadFlags(o: nat) returns (b: byte)
      requires Shape() && o in T
      ensures Allocated(b) <==> hdr[o].used
    {
      RecordedRead(codec, bytes, hdr, T, H, o);
      b := mem[o + codec.FlagsAt()];
    }

    method StorePrev(o: nat, v: int)
      requires Shape() && o in T && NULL <= v < arena
      modifies this`hdr, this`bytes, mem
      ensures Shape() && hdr == old(hdr)[o := old(hdr)[o].(prev := v)]
      ensures SameBytes(old(bytes), bytes, {o}, H)
    {
      ghost var m := bytes;
      RecordedRead(codec, m, hdr, T, H, o);
      var w := codec.pointer(v);
      StoreBytes(o, w);
      PrevWritten(codec, m, bytes, o, arena, v);
      RecordedStore(codec, m, bytes, hdr, T, H, o, o, w, hdr[o].(prev := v));
      hdr := hdr[o := hdr[o].(prev := v)];
    }

    method StoreNext(o: nat, v: int)
      requires Shape() && o in T && NULL <= v < arena
      modifies this`hdr, this`bytes, mem
      ensures Shape() && hdr == old(hdr)[o := old(hdr)[o].(next := v)]
      ensures SameBytes(old(bytes), bytes, {o}, H)
    {
      ghost var m := bytes;
      RecordedRead(codec, m, hdr, T, H, o);
      var w := codec.pointer(v);
      StoreBytes(o + codec.pointerWidth, w);
      NextWritten(codec, m, bytes, o, arena, v);
      RecordedStore(codec, m, bytes, hdr, T, H, o, o + codec.pointerWidth, w, hdr[o].(next := v));
      hdr := hdr[o := hdr[o].(next := v)];
    }

    method StoreSize(o: nat, n: nat)
      requires Shape() && o in T && n <= arena
      modifies this`hdr, this`bytes, mem
      ensures Shape() && hdr == old(hdr)[o := old(hdr)[o].(size := n)]
      ensures SameBytes(old(bytes), bytes, {o}, H)
    {
      ghost var m := bytes;
      RecordedRead(codec, m, hdr, T, H, o);
      var w := codec.size(n);
      StoreBytes(o + codec.SizeAt(), w);
      SizeWritten(codec, m, bytes, o, arena, n);
      RecordedStore(codec, m, bytes, hdr, T, H, o, o + codec.SizeAt(), w, hdr[o].(size := n));
      hdr := hdr[o := hdr[o].(size := n)];
    }

    method StoreFlags(o: nat, b: byte)
      requires Shape() && o in T
      modifies this`hdr, this`bytes, mem
      ensures Shape() && hdr == old(hdr)[o := old(hdr)[o].(used := Allocated(b))]
      ensures SameBytes(old(bytes), bytes, {o}, H)
    {
      ghost var m, c := bytes, hdr[o].(used := Allocated(b));
      RecordedRead(codec, m, hdr, T, H, o);
      StoreBytes(o + codec.FlagsAt(), [b]);
      FlagsWritten(codec, m, bytes, o, b);
      RecordedStore(codec, m, bytes, hdr, T, H, o, o + codec.FlagsAt(), [b], c);
      hdr := hdr[o := c];
    }

    method StoreLinks(o: nat, prev: int, next: int)
      requires Shape() && o in T && NULL <= prev < arena && NULL <= next < arena
      modifies this`hdr, this`bytes, mem
      ensures Shape() && hdr == old(hdr)[o := old(hdr)[o].(prev := prev, next := next)]
      ensures SameBytes(old(bytes), bytes, {o}, H)
    {
      ghost var m0 := bytes;
      StorePrev(o, prev);
      ghost var m1 := bytes;
      StoreNext(o, next);
      SameBytesStep(m0, m1, bytes, {o}, o, H);
    }

    /** From now on the bytes at `n` are looked at as a header, whatever they say. */
    ghost method Adopt(n: nat)
      requires Shape() && n + H <= arena && n !in T
      requires forall o :: o in T ==> SpacedAt(o, n, H) && SpacedAt(n, o, H)
      modifies this`hdr, this`T
      ensures Shape() && T == old(T) + {n} && hdr == old(hdr)[n := hdr[n]]
    {
      RecordedAlso(codec, bytes, hdr, T, H, n);
      hdr := hdr[n := HeaderAt(codec, bytes, n)];
      T := T + {n};
    }

    /** The header at `n` is no longer one. */
    ghost method Abandon(n: nat)
      requires Shape()
      modifies this`T
      ensures Shape() && T == old(T) - {n}
    {
      RecordedFewer(codec, bytes, hdr, T, T - {n}, H);
      T := T - {n};
    }

    /** NEXT_CHUNK */
    method NextChunk(o: nat) returns (n: nat)
      requires Shape() && o in T
      ensures n == NextOf(hdr, o, H)
    {
      var size := LoadSize(o);
      n := o + H + size;
    }

    /** Whether there is a chunk at `o`, the end of another one, and it is free. */
    method IsFreeChunk(o: nat) returns (b: bool)
      requires Shape() && (o < usage ==> o in T)
      ensures b <==> o < usage && !hdr[o].used
    {
      b := o < usage;
      if b {
        var flags := LoadFlags(o);
        b := !Allocated(flags);
      }
    }

    // -------------------------------------------------- the parts of the allocator

    /** extend_space: the old end of the footprint, or NULL. */
    method ExtendSpace(size: nat) returns (end: int)
      requires Shape()
      modifies this`usage, this`maxUsage
      ensures end == NULL <==> size > arena - old(usage)
      ensures end != NULL ==> end == old(usage) && usage == old(usage) + size
      ensures end == NULL ==> usage == old(usage)
      ensures usage <= arena && maxUsage == if end != NULL then Higher(old(maxUsage), usage) else old(maxUsage)
      ensures Shape()
    {
      if size > arena - usage {
        return NULL;
      }
      end := usage;
      usage := usage + size;
      if usage > maxUsage {
        maxUsage := usage;
      }
    }

    /** remove_chunk_from_free_list */
    method RemoveChunkFromFreeList(c: nat, ghost k: nat)
      requires Shape() && Linked(hdr, fl, freeList) && k < |fl| && fl[k] == c && ListedIn(fl, T)
      modifies this`hdr, this`freeList, this`fl, this`bytes, mem
      ensures Shape() && hdr == Unlink(old(hdr), c) && fl == Without(old(fl), k)
      ensures Linked(hdr, fl, freeList)
      ensures SameBytes(old(bytes), bytes, Elements(old(fl)), H)
    {
      LinkedAt(hdr, fl, freeList, k);
      UnlinkKeepsLinks(hdr, fl, freeList, k);
      assert c in fl && (k > 0 ==> fl[k - 1] in fl) && (k + 1 < |fl| ==> fl[k + 1] in fl);
      ghost var m0 := bytes;
      ghost var W := Elements(fl);
      if c == freeList {
        freeList := LoadNext(c);
        if freeList != NULL {
          StorePrev(freeList, NULL);
          SameBytesStep(m0, m0, bytes, W, freeList, H);
        }
      } else {
        var prev := LoadPrev(c);
        var next := LoadNext(c);
        StoreNext(prev, next);
        SameBytesStep(m0, m0, bytes, W, prev, H);
      }
      ghost var m1 := bytes;
      var next := LoadNext(c);
      if next != NULL {
        var prev := LoadPrev(c);
        StorePrev(next, prev);
        SameBytesStep(m0, m1, bytes, W, next, H);
      }
      fl := Without(fl, k);
    }

    /** The part of free_chunk that puts the chunk on the front of the list. */
    method PushChunk(c: nat)
      requires Shape() && Linked(hdr, fl, freeList) && c !in fl && c in T && ListedIn(fl, T)
      modifies this`hdr, this`freeList, this`fl, this`bytes, mem
      ensures Shape() && Linked(hdr, fl, freeList) && fl == [c] + old(fl)
      ensures hdr == Push(old(hdr), c, old(freeList))
      ensures SameBytes(old(bytes), bytes, Elements(old(fl)) + {c}, H)
    {
      ghost var m0 := bytes;
      ghost var W := Elements(fl) + {c};
      PushKeepsLinks(hdr, fl, freeList, c);
      StoreLinks(c, NULL, freeList);
      SameBytesStep(m0, m0, bytes, W, c, H);
      if freeList != NULL {
        assert fl[0] in fl;
        ghost var m2 := bytes;
        StorePrev(freeList, c);
        SameBytesStep(m0, m2, bytes, W, freeList, H);
      }
      freeList := c;
      fl := [c] + fl;
    }

    /** free_chunk: the last chunk is given back to the unused end of the arena, any other
        goes to the front of the free list. */
    method FreeChunk(c: nat)
      requires Shape() && Linked(hdr, fl, freeList) && c !in fl && c in T && ListedIn(fl, T)
      requires NextOf(hdr, c, H) <= usage
      modifies this`hdr, this`freeList, this`fl, this`usage, this`bytes, mem
      ensures Shape() && Linked(hdr, fl, freeList)
      ensures old(NextOf(hdr, c, H) == usage) ==>
                usage == c && fl == old(fl) && hdr == old(hdr)[c := old(hdr)[c].(used := false)]
      ensures old(NextOf(hdr, c, H) != usage) ==>
                && usage == old(usage) && fl == [c] + old(fl)
                && hdr == Push(old(hdr)[c := old(hdr)[c].(used := false)], c, old(freeList))
      ensures SameBytes(old(bytes), bytes, Elements(old(fl)) + {c}, H)
    {
      ghost var m0 := bytes;
      ghost var W := Elements(fl) + {c};
      var flags := LoadFlags(c);
      StoreFlags(c, Freed(flags));
      SameBytesStep(m0, m0, bytes, W, c, H);
      TagsKeepLinks(old(hdr), hdr, fl, freeList);
      var next := NextChunk(c);
      if next == usage {
        var size := LoadSize(c);
        usage := usage - (H + size);
      } else {
        ghost var m1 := bytes;
        PushChunk(c);
        SameBytesTrans(m0, m1, bytes, W, W, W, H);
      }
    }

    /** The first header writes of split_chunk: a header of a free chunk where there was none. */
    method StartHeader(n: nat, size: nat)
      requires Shape() && n + H <= arena && n !in T && size <= arena
      requires forall o :: o in T ==> SpacedAt(o, n, H) && SpacedAt(n, o, H)
      modifies this`hdr, this`T, this`bytes, mem
      ensures Shape() && T == old(T) + {n} && hdr == old(hdr)[n := hdr[n]] && hdr[n].size == size && !hdr[n].used
      ensures SameBytes(old(bytes), bytes, {n}, H)
    {
      Adopt(n);
      ghost var m0 := bytes;
      StoreSize(n, size);
      ghost var m1 := bytes;
      StoreFlags(n, 0);
      SameBytesStep(m0, m1, bytes, {n}, n, H);
    }

    /** The first part of split_chunk: what lies behind the first `a` bytes becomes a chunk and is freed. */
    method FreeRest(c: nat, a: nat)
      requires Shape() && Linked(hdr, fl, freeList) && ListedIn(fl, T)
      requires c in T && a + H < hdr[c].size && NextOf(hdr, c, H) <= usage
      requires c + H + a !in T && forall o :: o in T ==> SpacedAt(o, c + H + a, H) && SpacedAt(c + H + a, o, H)
      modifies this`hdr, this`freeList, this`fl, this`usage, this`T, this`bytes, mem
      ensures Shape() && Linked(hdr, fl, freeList) && T == old(T) + {c + H + a}
      ensures TagsExcept(old(hdr), hdr, {c + H + a})
      ensures hdr[c + H + a].size == old(hdr)[c].size - H - a && !hdr[c + H + a].used
      ensures if old(NextOf(hdr, c, H) == usage) then usage == c + H + a && fl == old(fl)
              else usage == old(usage) && fl == [c + H + a] + old(fl)
      ensures SameBytes(old(bytes), bytes, Elements(old(fl)) + {c + H + a}, H)
    {
      var n := c + H + a;
      ghost var m0, h0 := bytes, hdr;
      ghost var W := Elements(fl) + {n};
      var size := LoadSize(c);
      StartHeader(n, size - H - a);
      TagsKeepLinks(h0, hdr, fl, freeList);
      ghost var m1 := bytes;
      FreeChunk(n);
      SameBytesTrans(m0, m1, bytes, {n}, W, W, H);
    }

    /** The last header writes of split_chunk. */
    method ShortenHeader(c: nat, a: nat)
      requires Shape() && c in T && a <= arena
      modifies this`hdr, this`bytes, mem
      ensures Shape() && hdr == old(hdr)[c := old(hdr)[c].(size := a, next := NULL, prev := NULL)]
      ensures SameBytes(old(bytes), bytes, {c}, H)
    {
      ghost var m0 := bytes;
      StoreSize(c, a);
      ghost var m1 := bytes;
      StoreLinks(c, NULL, NULL);
      SameBytesStep(m0, m1, bytes, {c}, c, H);
    }

    /** The header writes of split_chunk: the chunk at `c` keeps `a` bytes and the rest is freed. */
    method CarveRest(c: nat, a: nat)
      requires Shape() && Linked(hdr, fl, freeList) && ListedIn(fl, T)
      requires c in T && c !in fl && a + H < hdr[c].size && NextOf(hdr, c, H) <= usage
      requires c + H + a !in T && forall o :: o in T ==> SpacedAt(o, c + H + a, H) && SpacedAt(c + H + a, o, H)
      modifies this`hdr, this`freeList, this`fl, this`usage, this`T, this`bytes, mem
      ensures Shape() && Linked(hdr, fl, freeList) && T == old(T) + {c + H + a}
      ensures TagsExcept(old(hdr), hdr, {c, c + H + a}) && hdr[c].size == a && hdr[c].used == old(hdr)[c].used
      ensures hdr[c + H + a].size == old(hdr)[c].size - H - a && !hdr[c + H + a].used
      ensures if old(NextOf(hdr, c, H) == usage) then usage == c + H + a && fl == old(fl)
              else usage == old(usage) && fl == [c + H + a] + old(fl)
      ensures SameBytes(old(bytes), bytes, Elements(old(fl)) + {c, c + H + a}, H)
    {
      ghost var m0, h0, fl0 := bytes, hdr, fl;
      FreeRest(c, a);
      ghost var h1, m1 := hdr, bytes;
      assert TagsAt(h0, h1, c) && c !in fl;
      ShortenHeader(c, a);
      TagsCompose(h0, h1, hdr, {c + H + a}, {c});
      assert {c + H + a} + {c} == {c, c + H + a};
      TagsKeepLinks(h1, hdr, fl, freeList);
      SameBytesTrans(m0, m1, bytes, Elements(fl0) + {c + H + a}, {c}, Elements(fl0) + {c, c + H + a}, H);
    }

    /** split_chunk: the chunk at `c` keeps `offset` bytes, rounded up, if the rest can hold a
        header and at least one byte; the rest becomes a free chunk. */
    method SplitChunk(c: nat, offset: nat, ghost limbo: int)
      requires Between(limbo) && c in T && c !in fl && offset > 0
      requires c == limbo || (limbo == NULL && hdr[c].used)
      modifies this`hdr, this`freeList, this`fl, this`usage, this`T, this`bytes, mem
      ensures Between(limbo) && c in T && c !in fl && usage <= old(usage)
      ensures var a := Align(offset, A);
              && hdr[c].size == (if a + H < old(hdr)[c].size then a else old(hdr)[c].size)
              && hdr[c].used == old(hdr)[c].used
              && SameBytes(old(bytes), bytes, old(T) + {c + H + a}, H)
              && (hdr[c].size == old(hdr)[c].size ==>
                    hdr == old(hdr) && fl == old(fl) && usage == old(usage) && bytes == old(bytes))
      ensures KeptExcept(old(hdr), old(T), hdr, T, c)
      ensures old(T) <= T
    {
      var a := Align(offset, A);
      AlignIsMultiple(offset, A);
      var size := LoadSize(c);
      if a + H < size {
        ghost var h0, T0, u0, fl0, m0 := hdr, T, usage, fl, bytes;
        ghost var n := c + H + a;
        InsidePayload(hdr, T, usage, H, c, n);
        assert Fits(hdr, c, usage, H);
        CarveRest(c, a);
        if usage != u0 {
          Abandon(n);
        }
        assert n !in T0 && T == if usage == u0 then T0 + {n} else T0;
        SplitLaid(h0, hdr, T0, T, u0, usage, fl0, fl, H, A, limbo, c, a);
        SameBytesWiden(m0, bytes, Elements(fl0) + {c, n}, T0 + {n}, H);
      }
    }

    /** The header writes of one turn of coalesce_chunks, and the step to the chunk after the one absorbed. */
    method AbsorbWrites(c: nat, n: nat, ghost j: nat) returns (next: nat)
      requires Shape() && Linked(hdr, fl, freeList) && ListedIn(fl, T)
      requires c in T && n in T && c != n && j < |fl| && fl[j] == n
      requires NextOf(hdr, c, H) == n && NextOf(hdr, n, H) <= usage
      modifies this`hdr, this`freeList, this`fl, this`bytes, mem
      ensures Shape() && Linked(hdr, fl, freeList) && fl == Without(old(fl), j)
      ensures TagsExcept(old(hdr), hdr, {c}) && hdr[c].used == old(hdr)[c].used
      ensures hdr[c].size == old(hdr)[c].size + H + old(hdr)[n].size
      ensures next == NextOf(hdr, n, H)
      ensures SameBytes(old(bytes), bytes, {c} + Elements(old(fl)), H)
    {
      ghost var h0, fl0, m0 := hdr, fl, bytes;
      var size := LoadSize(c);
      var more := LoadSize(n);
      StoreSize(c, size + H + more);
      TagsKeepLinks(h0, hdr, fl, freeList);
      ghost var h1, m1 := hdr, bytes;
      RemoveChunkFromFreeList(n, j);
      SameBytesTrans(m0, m1, bytes, {c}, Elements(fl0), {c} + Elements(fl0), H);
      assert TagsExcept(h0, h1, {c}) && TagsAt(h1, hdr, c);
      TagsCompose(h0, h1, hdr, {c}, {});
      assert {c} + {} == {c};
      next := NextChunk(n);
    }

    /** One turn of coalesce_chunks: the chunk at `c` absorbs the free chunk `n` that follows it. */
    method AbsorbNext(c: nat, n: nat, ghost k: int) returns (next: nat, ghost k': int)
      requires Between(NULL) && c in T && n == NextOf(hdr, c, H) < usage && !hdr[n].used && PosOf(fl, k, c)
      modifies this`hdr, this`freeList, this`fl, this`T, this`bytes, mem
      ensures Between(NULL) && Merged(old(hdr), old(T), hdr, T, usage, H, c) && next == NextOf(hdr, c, H) > n
      ensures Thinned(old(fl), k, fl, k', c)
      ensures SameBytes(old(bytes), bytes, old(T), H)
    {
      ghost var h0, T0, fl0, m0 := hdr, T, fl, bytes;
      assert Fits(hdr, c, usage, H) && n in T && OwnedAt(hdr, fl, n) && Fits(hdr, n, usage, H);
      ghost var j: nat :| j < |fl| && fl[j] == n;
      next := AbsorbWrites(c, n, j);
      Abandon(n);
      SameBytesWiden(m0, bytes, {c} + Elements(fl0), T0, H);
      MergeLaid(h0, hdr, T0, usage, fl0, H, A, c, j);
      MergedOne(h0, T0, hdr, T, usage, H, c, n);
      k' := if k > j then k - 1 else k;
      PosAfterRemoval(fl0, j, k, c);
    }

    /** coalesce_chunks: merges the chunk at `c` with all the free chunks that follow it. */
    method CoalesceChunks(c: nat, ghost k: int) returns (ghost k': int)
      requires Between(NULL) && c in T && PosOf(fl, k, c)
      modifies this`hdr, this`freeList, this`fl, this`T, this`bytes, mem
      ensures Between(NULL) && Merged(old(hdr), old(T), hdr, T, usage, H, c) && Settled(hdr, c, usage, H)
      ensures NextOf(hdr, c, H) == old(FreeRunEnd(hdr, usage, H, NextOf(hdr, c, H)))
      ensures Thinned(old(fl), k, fl, k', c)
      ensures SameBytes(old(bytes), bytes, old(T), H)
    {
      ghost var h0, T0, fl0, m0 := hdr, T, fl, bytes;
      k' := k;
      var next := NextChunk(c);
      assert Fits(hdr, c, usage, H);
      MergedNone(hdr, T, usage, H, c);
      ThinnedNone(fl, k, c);
      var more := IsFreeChunk(next);
      while more
        invariant Between(NULL) && Merged(h0, T0, hdr, T, usage, H, c)
        invariant next == NextOf(hdr, c, H) && (more <==> next < usage && !hdr[next].used)
        invariant Thinned(fl0, k, fl, k', c)
        invariant SameBytes(m0, bytes, T0, H)
        decreases usage - next
      {
        ghost var h1, T1, fl1, k1, m1 := hdr, T, fl, k', bytes;
        next, k' := AbsorbNext(c, next, k');
        MergedTrans(h0, T0, h1, T1, hdr, T, usage, H, c);
        ThinnedTrans(fl0, k, fl1, k1, fl, k', c);
        SameBytesTrans(m0, m1, bytes, T0, T1, T0, H);
        assert Fits(hdr, c, usage, H);
        more := IsFreeChunk(next);
      }
      assert Fits(hdr, c, usage, H);
    }

    /** Coalesces the chunk at position `k` of the free list. */
    method CoalesceEntry(chunk: nat, ghost k: nat, ghost visited: set<nat>) returns (ghost k': nat)
      requires Between(NULL) && k < |fl| && fl[k] == chunk && Visited(hdr, fl, k, visited, usage, H)
      modifies this`hdr, this`freeList, this`fl, this`T, this`bytes, mem
      ensures Between(NULL) && k' < |fl| && fl[k'] == chunk && chunk in Elements(old(fl)) && chunk !in visited
      ensures Visited(hdr, fl, k' + 1, visited + {chunk}, usage, H)
      ensures Defragged(old(hdr), old(T), old(fl), old(bytes), hdr, T, fl, bytes, H)
    {
      ghost var h1, T1, fl1 := hdr, T, fl;
      assert chunk in fl && OwnedAt(hdr, fl, chunk);
      ghost var p := CoalesceChunks(chunk, k);
      k' := p;
      DefragAdvances(h1, hdr, fl1, fl, usage, H, k, k', visited);
      KeptWhenFree(h1, T1, hdr, T, chunk);
    }

    /** One turn of the loop of defrag_chunks. */
    method DefragStep(chunk: nat, ghost k: nat, ghost visited: set<nat>, ghost start: Snapshot, ghost m0: seq<byte>)
        returns (next: int, ghost k': nat)
      requires Between(NULL) && k < |fl| && fl[k] == chunk && Visited(hdr, fl, k, visited, usage, H)
      requires Defragged(start.hdr, start.T, start.fl, m0, hdr, T, fl, bytes, H)
      modifies this`hdr, this`freeList, this`fl, this`T, this`bytes, mem
      ensures Between(NULL) && k' <= |fl| && next == At(fl, k')
      ensures chunk in Elements(start.fl) && chunk !in visited
      ensures Visited(hdr, fl, k', visited + {chunk}, usage, H)
      ensures Defragged(start.hdr, start.T, start.fl, m0, hdr, T, fl, bytes, H)
    {
      ghost var h1, T1, fl1, m1 := hdr, T, fl, bytes;
      k' := CoalesceEntry(chunk, k, visited);
      DefraggedTrans(start.hdr, start.T, start.fl, m0, h1, T1, fl1, m1, hdr, T, fl, bytes, H);
      LinkedAt(hdr, fl, freeList, k');
      assert chunk in fl;
      next := LoadNext(chunk);
      k' := k' + 1;
    }

    /** defrag_chunks: coalesces the chunks on the free list, at most CHUNK_SEARCH_MAX of them. */
    method DefragChunks()
      requires Between(NULL)
      modifies this`hdr, this`freeList, this`fl, this`T, this`bytes, mem
      ensures Between(NULL) && Defragged(old(hdr), old(T), old(fl), old(bytes), hdr, T, fl, bytes, H)
      ensures |old(fl)| <= searchMax ==> forall o :: o in fl ==> o < |hdr| && Settled(hdr, o, usage, H)
      ensures old(fl) == [] ==> fl == [] && T == old(T) && hdr == old(hdr) && bytes == old(bytes)
    {
      ghost var start, m0 := Snapshot(hdr, T, fl), bytes;
      DefraggedNone(hdr, T, fl, bytes, H);
      var i: int := searchMax;
      var chunk := freeList;
      ghost var k, visited: set<nat> := 0, {};
      while chunk != NULL
        invariant Between(NULL) && Defragged(start.hdr, start.T, start.fl, m0, hdr, T, fl, bytes, H)
        invariant 0 <= k <= |fl| && chunk == At(fl, k)
        invariant visited <= Elements(start.fl) && |visited| == searchMax - i && 0 <= i
        invariant Visited(hdr, fl, k, visited, usage, H)
        invariant start.fl == [] ==> chunk == NULL && Snapshot(hdr, T, fl) == start && bytes == m0
        decreases i
      {
        if i == 0 {
          break;
        }
        i := i - 1;
        ghost var visited' := visited + {chunk as nat};
        chunk, k := DefragStep(chunk, k, visited, start, m0);
        visited := visited';
      }
      if |start.fl| <= searchMax {
        DefragDone(hdr, start.fl, fl, k, visited, searchMax, usage, H);
      }
    }

    /** The search of get_free_chunk: a smallest chunk among the first CHUNK_SEARCH_MAX that can hold `size` bytes. */
    method FindBest(size: nat) returns (best: int, ghost b: nat)
      requires Shape() && Linked(hdr, fl, freeList) && ListedIn(fl, T)
      ensures best == NULL ==> NoFit(hdr, fl, Searched(fl, searchMax), size)
      ensures best != NULL ==> BestFit(hdr, fl, Searched(fl, searchMax), size, b) && fl[b] == best
    {
      best, b := NULL, 0;
      var bestSize := 0;
      var i: int := searchMax;
      var chunk := freeList;
      ghost var k := 0;
      while chunk != NULL
        invariant k <= |fl| && chunk == At(fl, k) && k == searchMax - i && 0 <= i
        invariant BestSoFar(hdr, fl, k, size, best, b, bestSize)
        decreases i
      {
        if i == 0 {
          break;
        }
        i := i - 1;
        LinkedAt(hdr, fl, freeList, k);
        assert chunk in fl;
        var here := LoadSize(chunk);
        BestNext(hdr, fl, k, size, best, b, bestSize);
        BestPossible(hdr, fl, k + 1, Searched(fl, searchMax), size);
        if size <= here {
          if best == NULL || here < bestSize {
            best, b := chunk, k;
            bestSize := here;
          }
          if bestSize == size {
            break;
          }
        }
        chunk := LoadNext(chunk);
        k := k + 1;
      }
    }

    /** Takes the `b`-th chunk from the list and splits it, the last part of get_free_chunk. */
    method TakeChunk(best: nat, size: nat, ghost b: nat)
      requires Between(NULL) && size > 0 && b < |fl| && fl[b] == best && hdr[best].size >= size
      modifies this`hdr, this`freeList, this`fl, this`usage, this`T, this`bytes, mem
      ensures Between(best) && best in T && usage <= old(usage) && !hdr[best].used && !old(hdr)[best].used
      ensures hdr[best].size == if Align(size, A) + H < old(hdr)[best].size then Align(size, A) else old(hdr)[best].size
      ensures KeptExcept(old(hdr), old(T), hdr, T, NULL)
      ensures BytesKept(old(hdr), old(T), H, old(bytes), bytes, NULL)
    {
      ghost var h0, T0, fl0, m0 := hdr, T, fl, bytes;
      assert best in fl && OwnedAt(hdr, fl, best);
      RemoveChunkFromFreeList(best, b);
      LimboLaid(h0, hdr, T, usage, fl0, H, A, b);
      ghost var h1, m1 := hdr, bytes;
      assert SameBytes(m0, m1, T, H) by {
        SameBytesWiden(m0, m1, Elements(fl0), T, H);
      }
      assert TagsAt(h0, h1, best);
      SplitChunk(best, size, best);
      KeptWhenFree(h1, T0, hdr, T, best);
      KeptTrans(h0, T0, h1, T0, hdr, T, NULL);
      TakeKeepsBytes(h0, T0, old(usage), H, m0, m1, bytes, best, Align(size, A));
    }

    /** get_free_chunk: a best fitting chunk of the free list, taken from the list and split, or NULL. */
    method GetFreeChunk(size: nat) returns (best: int, ghost b: nat, ghost mid: Snapshot)
      requires Between(NULL) && size > 0
      modifies this`hdr, this`freeList, this`fl, this`usage, this`T, this`bytes, mem
      ensures usage <= old(usage)
      ensures (forall o :: o in mid.fl ==> o < |mid.hdr|) && forall i :: 0 <= i < |mid.fl| ==> mid.fl[i] < |mid.hdr|
      ensures |old(fl)| <= searchMax ==> forall o :: o in mid.fl ==> Settled(mid.hdr, o, old(usage), H)
      ensures best == NULL ==>
                Between(NULL) && mid == Snapshot(hdr, T, fl) && usage == old(usage) &&
                  NoFit(hdr, fl, Searched(fl, searchMax), size)
      ensures best != NULL ==>
                && BestFit(mid.hdr, mid.fl, Searched(mid.fl, searchMax), size, b) && mid.fl[b] == best
                && Between(best) && best in T && !hdr[best].used && size <= hdr[best].size <= Align(size, A) + H
                && (best !in old(T) || !old(hdr)[best].used)
      ensures old(fl) == [] ==> best == NULL && fl == [] && T == old(T) && hdr == old(hdr) && bytes == old(bytes)
      ensures KeptExcept(old(hdr), old(T), hdr, T, NULL)
      ensures BytesKept(old(hdr), old(T), H, old(bytes), bytes, NULL)
    {
      ghost var h0, T0, m0 := hdr, T, bytes;
      DefragChunks();
      mid := Snapshot(hdr, T, fl);
      HeaderWritesKeepBytes(h0, T0, usage, H, m0, bytes);
      best, b := FindBest(size);
      if best != NULL {
        ghost var h1, T1, m1 := hdr, T, bytes;
        TakeChunk(best, size, b);
        KeptTrans(h0, T0, h1, T1, hdr, T, NULL);
        BytesKeptTrans(h0, T0, h1, T1, H, m0, m1, bytes, NULL);
        assert LiveAt(h0, T0, best) <==> LiveAt(h1, T1, best);
      }
    }

    /** Takes a new chunk from the unused end of the arena. */
    method ExtendChunk(size: nat) returns (chunk: int)
      requires Between(NULL) && usage <= maxUsage <= arena && size > 0 && Multiple(size, A)
      modifies this`hdr, this`usage, this`maxUsage, this`T, this`bytes, mem
      ensures usage <= maxUsage <= arena && maxUsage == Higher(old(maxUsage), usage)
      ensures chunk == NULL <==> H + size > arena - old(usage)
      ensures chunk == NULL ==>
              Between(NULL) && hdr == old(hdr) && T == old(T) && usage == old(usage) && bytes == old(bytes)
      ensures chunk != NULL ==>
                && Between(chunk) && chunk == old(usage) && chunk in T && chunk !in old(T) && hdr[chunk].size == size
                && usage == old(usage) + H + size
                && TagsExcept(old(hdr), hdr, {old(usage)}) && SameBytes(old(bytes), bytes, {old(usage)}, H)
      ensures KeptExcept(old(hdr), old(T), hdr, T, chunk)
      ensures BytesKept(old(hdr), old(T), H, old(bytes), bytes, NULL)
    {
      ghost var h0, T0, u0, m0 := hdr, T, usage, bytes;
      chunk := ExtendSpace(H + size);
      if chunk == NULL {
        OneHeaderKeepsBytes(h0, T0, u0, H, m0, m0, u0);
        return;
      }
      BehindTiles(h0, T0, u0, H);
      Adopt(u0);
      StoreSize(chunk, size);
      TagsKeepLinks(h0, hdr, fl, freeList);
      AppendLaid(h0, hdr, T0, u0, fl, H, A);
      OneHeaderKeepsBytes(h0, T0, u0, H, m0, bytes, u0);
    }

    /** Marks the chunk in limbo as allocated. */
    method MarkAllocated(chunk: nat)
      requires Between(chunk) && chunk in T
      modifies this`hdr, this`bytes, mem
      ensures Between(NULL) && hdr[chunk].used && hdr[chunk].size == old(hdr)[chunk].size
      ensures TagsExcept(old(hdr), hdr, {chunk})
      ensures KeptExcept(old(hdr), T, hdr, T, chunk)
      ensures BytesKept(old(hdr), T, H, old(bytes), bytes, NULL) && SameBytes(old(bytes), bytes, {chunk}, H)
    {
      ghost var h0, m0 := hdr, bytes;
      assert Fits(hdr, chunk, usage, H);
      StoreFlags(chunk, 1);
      TagsKeepLinks(h0, hdr, fl, freeList);
      MarkLaid(h0, hdr, T, usage, fl, H, A, chunk);
      OneHeaderKeepsBytes(h0, T, usage, H, m0, bytes, chunk);
    }

    /** The part of heapmem_zone_alloc after the request checks: a chunk from the free list or, as
        a last resort, a new one at the end of the footprint, marked as allocated. */
    method PlaceChunk(size: nat) returns (chunk: int)
      requires Sound() && size > 0 && Multiple(size, A)
      modifies this`hdr, this`freeList, this`fl, this`usage, this`maxUsage, this`T, this`bytes, mem
      ensures Sound()
      ensures chunk == NULL ==> H + size > arena - usage && NoFit(hdr, fl, Searched(fl, searchMax), size)
      ensures chunk != NULL ==>
                && LiveAt(hdr, T, chunk) && !LiveAt(old(hdr), old(T), chunk)
                && size <= hdr[chunk].size <= size + H
      ensures usage > old(usage) ==> NoFit(hdr, fl, Searched(fl, searchMax), size)
      ensures usage > old(usage) ==> chunk != NULL && NextOf(hdr, chunk, H) == usage
      ensures maxUsage == Higher(old(maxUsage), usage)
      ensures old(fl) == [] && H + size <= arena - old(usage) ==>
                && chunk == old(usage) && fl == [] && usage == old(usage) + H + size
                && hdr[chunk].size == size && SameBytes(old(bytes), bytes, {old(usage)}, H)
      ensures KeptExcept(old(hdr), old(T), hdr, T, chunk)
      ensures BytesKept(old(hdr), old(T), H, old(bytes), bytes, chunk)
    {
      ghost var h0, T0, m0 := hdr, T, bytes;
      AlignedAlready(size, A);
      ghost var b, mid;
      chunk, b, mid := GetFreeChunk(size);
      ghost var h1, T1, m1 := hdr, T, bytes;
      if chunk == NULL {
        chunk := ExtendChunk(size);
        if chunk == NULL {
          return;
        }
        NoFitKept(h1, hdr, fl, Searched(fl, searchMax), size, chunk);
        BytesKeptTrans(h0, T0, h1, T1, H, m0, m1, bytes, chunk);
        KeptTrans(h0, T0, h1, T1, hdr, T, chunk);
        assert LiveAt(h0, T0, chunk) <==> LiveAt(h1, T1, chunk);
      }
      ghost var h2, m2 := hdr, bytes;
      MarkAllocated(chunk);
      if old(fl) == [] {
        SameBytesStep(m0, m2, bytes, {chunk}, chunk, H);
      }
      if usage > old(usage) {
        NoFitKept(h2, hdr, fl, Searched(fl, searchMax), size, chunk);
      }
      KeptTrans(h0, T0, h2, T, hdr, T, chunk);
      BytesKeptTrans(h0, T0, h2, T, H, m0, m2, bytes, chunk);
    }

    /** Neither the unused end of the arena nor a chunk among those that are searched can hold `size` bytes. */
    ghost predicate NoRoom(size: nat)
      requires Valid()
      reads this, mem
    {
      H + size > arena - usage && NoFit(hdr, fl, Searched(fl, searchMax), size)
    }

    lemma NoRoomBeyond(size: nat)
      requires Valid() && size > arena
      ensures NoRoom(size)
    {
      forall i {:trigger EntrySize(hdr, fl, i)} | 0 <= i < Searched(fl, searchMax)
        ensures EntrySize(hdr, fl, i) < size
      {
        assert fl[i] in fl && Fits(hdr, fl[i], usage, H);
      }
    }

    /** heapmem_zone_alloc. `admitted` is the outcome of the zone checks. */
    method Alloc(request: nat, admitted: bool) returns (ptr: int)
      requires Valid()
      modifies this`hdr, this`freeList, this`fl, this`usage, this`maxUsage, this`T, this`objs, this`bytes, mem
      ensures Valid()
      ensures ptr == NULL ==> objs == old(objs)
      ensures usage > old(usage) ==> NoFit(hdr, fl, Searched(fl, searchMax), Align(request, A))
      ensures usage > old(usage) ==> ptr - H in objs && ptr + |objs[ptr - H]| == usage
      ensures maxUsage == Higher(old(maxUsage), usage)
      ensures ptr == NULL && admitted && 0 < request <= arena ==> NoRoom(Align(request, A))
      ensures ptr != NULL ==>
                && admitted && 0 < request <= arena && ptr >= H && Multiple(ptr, A)
                && AddsObject(old(objs), objs, ptr - H, Align(request, A), Align(request, A) + H)
      ensures old(fl) == [] && admitted && 0 < request <= arena && H + Align(request, A) <= arena - old(usage) ==>
                && ptr == old(usage) + H && fl == [] && usage == ptr + Align(request, A)
                && |objs[ptr - H]| == Align(request, A) && SameBytes(old(bytes), bytes, {old(usage)}, H)
    {
      if !admitted || request > arena || request == 0 {
        return NULL;
      }
      var size := Align(request, A);
      AlignIsMultiple(request, A);
      ghost var h0, T0, m0 := hdr, T, bytes;
      var chunk := PlaceChunk(size);
      if chunk == NULL {
        MatchesSame(h0, T0, m0, hdr, T, bytes, H, objs);
        return NULL;
      }
      assert Fits(hdr, chunk, usage, H);
      objs := MatchesUpdated(h0, T0, m0, hdr, T, bytes, H, objs, chunk);
      PointerAligned(hdr, T, usage, H, A, chunk);
      return chunk + H;
    }

    /** free_chunk on a live object. */
    method FreeObject(c: nat)
      requires Sound() && LiveAt(hdr, T, c)
      modifies this`hdr, this`freeList, this`fl, this`usage, this`T, this`bytes, mem
      ensures Sound() && !LiveAt(hdr, T, c)
      ensures KeptExcept(old(hdr), old(T), hdr, T, c)
      ensures BytesKept(old(hdr), old(T), H, old(bytes), bytes, c)
      ensures old(NextOf(hdr, c, H) != usage) ==> usage == old(usage)
      ensures old(NextOf(hdr, c, H) == usage) ==>
                && usage == c && fl == old(fl) && SameBytes(old(bytes), bytes, Elements(old(fl)) + {c}, H)
                && HeaderAt(codec, bytes, c).size == old(hdr[c].size)
    {
      ghost var h0, T0, u0, fl0, m0 := hdr, T, usage, fl, bytes;
      assert Fits(hdr, c, usage, H) && OwnedAt(hdr, fl, c);
      FreeChunk(c);
      RecordedRead(codec, bytes, hdr, T, H, c);
      if usage != u0 {
        Abandon(c);
      }
      FreedLaid(h0, hdr, T0, T, u0, usage, fl0, fl, H, A, c);
      SameBytesWiden(m0, bytes, Elements(fl0) + {c}, T0, H);
      HeaderWritesKeepBytes(h0, T0, u0, H, m0, bytes);
    }

    method FreeLive(c: nat)
      requires Valid() && c in objs
      modifies this`hdr, this`freeList, this`fl, this`usage, this`T, this`objs, this`bytes, mem
      ensures Valid() && objs == old(objs) - {c}
      ensures old(fl) == [] && c + H + |old(objs)[c]| == old(usage) ==>
                && usage == c && fl == [] && SameBytes(old(bytes), bytes, {usage}, H)
                && HeaderAt(codec, bytes, c).size == |old(objs)[c]|
    {
      ghost var h0, T0, m0 := hdr, T, bytes;
      MatchesAt(hdr, T, H, bytes, objs, c);
      FreeObject(c);
      MatchesRemoved(h0, T0, m0, hdr, T, bytes, H, objs, c);
      objs := objs - {c};
      assert Elements([]) + {c} == {c};
    }

    // ------------------------------------------- pointers behind the footprint

    /** The bytes where the chunk of `ptr` would begin lie in the arena and are marked as allocated. */
    ghost predicate MarkedBehind(ptr: int)
      requires Shape() && (ptr >= usage ==> H <= ptr <= arena)
      reads this, mem
    {
      ptr >= usage && HeaderAt(codec, bytes, ptr - H).used
    }

    ghost predicate IsHeapNow()
      requires A > 0
      reads this
    {
      IsHeap(codec, bytes, usage, freeList, H, A)
    }

    /** free_chunk at a place behind the footprint that is marked as allocated. */
    method FreeBehind(q: nat)
      requires Sound() && usage <= q + H <= arena
      modifies this`freeList, this`usage, this`bytes, mem
      ensures InSync() && !IsHeapNow()
    {
      ghost var m0, u0 := bytes, usage;
      StoreBytes(q + codec.FlagsAt(), [Freed(mem[q + codec.FlagsAt()])]);
      var w := LoadBytes(q + codec.SizeAt(), codec.sizeWidth);
      var size := codec.sizeOf(w);
      if q + H + size == usage {
        usage := usage - (H + size);
        NoHeapWhenShorter(codec, m0, bytes, hdr, T, u0, fl, freeList, H, A, usage);
      } else {
        assert freeList != NULL ==> fl[0] in fl;
        StoreBytes(q, codec.pointer(NULL));
        StoreBytes(q + codec.pointerWidth, codec.pointer(freeList));
        if freeList != NULL {
          StoreBytes(freeList, codec.pointer(q));
        }
        freeList := q;
        NoHeapWhenListed(codec, bytes, usage, q, H, A);
      }
    }

    /** split_chunk at a place behind the footprint. */
    method SplitBehind(q: nat, a: nat, size: nat)
      requires Sound() && usage <= q + H && q + H + size <= arena && a + H < size
      modifies this`freeList, this`bytes, mem
      ensures InSync() && !IsHeapNow()
    {
      var n := q + H + a;
      assert freeList != NULL ==> fl[0] in fl;
      StoreBytes(n + codec.SizeAt(), codec.size(size - H - a));
      StoreBytes(n + codec.FlagsAt(), [0]);
      StoreBytes(n, codec.pointer(NULL));
      StoreBytes(n + codec.pointerWidth, codec.pointer(freeList));
      if freeList != NULL {
        StoreBytes(freeList, codec.pointer(n));
      }
      freeList := n;
      StoreBytes(q + codec.SizeAt(), codec.size(a));
      StoreBytes(q + codec.pointerWidth, codec.pointer(NULL));
      StoreBytes(q, codec.pointer(NULL));
      NoHeapWhenListed(codec, bytes, usage, n, H, A);
    }

    /** heapmem_free. A pointer into the footprint must be one that was handed out, freed or not. A pointer behind the
        footprint is not refused; whether it does harm depends on what the bytes there say. */
    method Free(ptr: int) returns (ok: bool)
      requires Valid() && (0 <= ptr < usage ==> ptr - H in T) && (ptr >= usage ==> H <= ptr <= arena)
      modifies this`hdr, this`freeList, this`fl, this`usage, this`T, this`objs, this`bytes, mem
      ensures !old(MarkedBehind(ptr)) ==>
                && Valid() && (ok <==> 0 <= ptr < old(usage) && ptr - H in old(objs))
                && objs == if ok then old(objs) - {ptr - H} else old(objs)
      ensures old(MarkedBehind(ptr)) ==> ok && !IsHeapNow()
      ensures ok && ptr < old(usage) && old(fl) == [] && ptr + |old(objs)[ptr - H]| == old(usage) ==>
                && usage == ptr - H && fl == [] && SameBytes(old(bytes), bytes, {usage}, H)
                && HeaderAt(codec, bytes, ptr - H).size == |old(objs)[ptr - H]|
    {
      if Refused(ptr, usage) {
        return false;
      }
      var chunk := ptr - H;
      if chunk in T {
        RecordedRead(codec, bytes, hdr, T, H, chunk);
      }
      MatchesAt(hdr, T, H, bytes, objs, chunk);
      if !Allocated(mem[chunk + codec.FlagsAt()]) {
        return false;
      }
      if ptr >= usage {
        FreeBehind(chunk);
      } else {
        FreeLive(chunk);
      }
      return true;
    }

    /** A client's write into an object it owns. */
    method Write(c: nat, i: nat, b: byte)
      requires Valid() && c in objs && i < |objs[c]|
      modifies this`objs, this`bytes, mem
      ensures Valid() && objs == old(objs)[c := old(objs)[c][i := b]]
      ensures Written(old(bytes), bytes, c + H + i, [b])
    {
      ghost var m0 := bytes;
      MatchesAt(hdr, T, H, m0, objs, c);
      mem[c + H + i] := b;
      bytes := mem[..];
      PayloadClear(hdr, T, usage, H, c);
      RecordedBeside(codec, m0, bytes, hdr, T, H, c + H, hdr[c].size);
      PayloadWriteKeepsBytes(hdr, T, usage, H, m0, bytes, c);
      assert Fits(hdr, c, usage, H);
      ghost var O' := MatchesUpdated(hdr, T, m0, hdr, T, bytes, H, objs, c);
      assert O'[c] == objs[c][i := b];
      objs := O';
    }

    /** memcpy of `len` bytes between regions that do not overlap. */
    method CopyBytes(dst: nat, src: nat, len: nat)
      requires InSync() && dst + len <= |bytes| && src + len <= |bytes| && (dst + len <= src || src + len <= dst)
      modifies this`bytes, mem
      ensures InSync()
      ensures forall j {:trigger bytes[j]} :: dst <= j < dst + len ==> bytes[j] == old(bytes)[j - dst + src]
      ensures forall j {:trigger bytes[j]} :: 0 <= j < |bytes| && !(dst <= j < dst + len) ==> bytes[j] == old(bytes)[j]
    {
      for i := 0 to len
        modifies mem
        invariant forall j :: 0 <= j < mem.Length && !(dst <= j < dst + i) ==> mem[j] == old(mem[j])
        invariant forall j :: dst <= j < dst + i ==> mem[j] == old(mem[j - dst + src])
      {
        mem[dst + i] := mem[src + i];
      }
      bytes := mem[..];
    }

    /** memcpy of the payload of the chunk at `c` to the payload of the chunk at `n`. */
    method CopyPayload(c: nat, n: nat)
      requires Sound() && c != n && c in T && n in T && hdr[c].size <= hdr[n].size
      modifies this`bytes, mem
      ensures Sound() && BytesKept(hdr, T, H, old(bytes), bytes, n) && |bytes| == |old(bytes)|
      ensures NextOf(hdr, c, H) <= |bytes| && NextOf(hdr, n, H) <= |bytes|
      ensures forall j {:trigger bytes[j]} :: n + H <= j < n + H + hdr[c].size ==>
                bytes[j] == old(bytes)[j - (n + H) + (c + H)]
      ensures forall j {:trigger bytes[j]} :: 0 <= j < |bytes| && !(n + H <= j < n + H + hdr[c].size) ==>
                bytes[j] == old(bytes)[j]
    {
      ghost var m0 := bytes;
      assert Apart(hdr, c, n, H) && Apart(hdr, n, c, H) && Fits(hdr, c, usage, H) && Fits(hdr, n, usage, H);
      var size := LoadSize(c);
      CopyBytes(n + H, c + H, size);
      PayloadClear(hdr, T, usage, H, n);
      RecordedBeside(codec, m0, bytes, hdr, T, H, n + H, hdr[n].size);
      PayloadWriteKeepsBytes(hdr, T, usage, H, m0, bytes, n);
    }

    /** memcpy of the whole object `c` to the start of the object `n`. */
    method CopyObject(c: nat, n: nat)
      requires Valid() && c != n && c in objs && n in objs && |objs[c]| <= |objs[n]|
      modifies this`objs, this`bytes, mem
      ensures Valid() && objs == old(objs)[n := old(objs)[c] + old(objs)[n][|old(objs)[c]|..]]
    {
      ghost var m0 := bytes;
      MatchesAt(hdr, T, H, m0, objs, c);
      MatchesAt(hdr, T, H, m0, objs, n);
      CopyPayload(c, n);
      ghost var O' := MatchesUpdated(hdr, T, m0, hdr, T, bytes, H, objs, n);
      ContentCopied(m0, bytes, c + H, objs[c], n + H, objs[n], O'[n]);
      objs := O';
    }

    /** Copies the object `c` to the start of the object `n` and frees it. */
    method CopyAndFree(c: nat, n: nat)
      requires Valid() && c != n && c in objs && n in objs && |objs[c]| <= |objs[n]|
      modifies this`hdr, this`freeList, this`fl, this`usage, this`T, this`objs, this`bytes, mem
      ensures Valid() && objs == old(objs)[n := old(objs)[c] + old(objs)[n][|old(objs)[c]|..]] - {c}
      ensures n + H + |old(objs)[n]| == old(usage) ==> usage == old(usage)
    {
      CopyObject(c, n);
      ghost var h2, T2, m2 := hdr, T, bytes;
      MatchesAt(hdr, T, H, bytes, objs, c);
      MatchesAt(hdr, T, H, bytes, objs, n);
      assert Apart(hdr, c, n, H) && Apart(hdr, n, c, H);
      FreeObject(c);
      MatchesRemoved(h2, T2, m2, hdr, T, bytes, H, objs, c);
      objs := objs - {c};
    }

    /** Places the object elsewhere, the last resort of heapmem_realloc. */
    method MoveObject(c: nat, size: nat, admitted: bool) returns (ptr: int)
      requires Valid() && c in objs && |objs[c]| < size && Multiple(size, A)
      modifies this`hdr, this`freeList, this`fl, this`usage, this`maxUsage, this`T, this`objs, this`bytes, mem
      ensures Valid()
      ensures ptr == NULL ==> objs == old(objs)
      ensures ptr == NULL && admitted ==> NoRoom(size)
      ensures ptr != NULL ==> ptr >= H && Multiple(ptr, A) && ResizesObject(old(objs), objs, c, ptr - H, size)
      ensures ptr != NULL ==> |objs[ptr - H]| <= size + H
      ensures ptr != c + H
      ensures maxUsage == Higher(old(maxUsage), usage)
    {
      ghost var O0 := objs;
      AlignedAlready(size, A);
      ptr := Alloc(size, admitted);
      if ptr == NULL {
        if size > arena {
          NoRoomBeyond(size);
        }
        return;
      }
      ghost var O1 := objs;
      CopyAndFree(c, ptr - H);
      MoveResizes(O0, O1, objs, c, ptr - H, size, size + H);
    }

    /** Keeps the object at `c` in place with `size` bytes, splitting its chunk if possible. */
    method ShrinkInPlace(c: nat, size: nat)
      requires Sound() && LiveAt(hdr, T, c) && 0 < size <= hdr[c].size && Multiple(size, A)
      modifies this`hdr, this`freeList, this`fl, this`usage, this`T, this`bytes, mem
      ensures Sound() && LiveAt(hdr, T, c)
      ensures hdr[c].size == if size + H < old(hdr)[c].size then size else old(hdr)[c].size
      ensures KeptExcept(old(hdr), old(T), hdr, T, c)
      ensures BytesKept(old(hdr), old(T), H, old(bytes), bytes, c)
      ensures SamePrefix(old(bytes), bytes, c + H, hdr[c].size)
    {
      ghost var h0, T0, u0, m0 := hdr, T, usage, bytes;
      assert OwnedAt(hdr, fl, c) && Fits(hdr, c, usage, H);
      AlignedAlready(size, A);
      SplitChunk(c, size, NULL);
      ShrinkKeepsBytes(h0, T0, u0, H, m0, bytes, c, size, hdr[c].size);
    }

    /** Enlarges the object in the last chunk by extending the footprint. */
    method GrowLast(c: nat, size: nat) returns (ok: bool)
      requires Sound() && LiveAt(hdr, T, c) && hdr[c].size < size && Multiple(size, A) && NextOf(hdr, c, H) == usage
      modifies this`hdr, this`usage, this`maxUsage, this`bytes, mem
      ensures Sound() && LiveAt(hdr, T, c)
      ensures maxUsage == Higher(old(maxUsage), usage)
      ensures ok <==> size - old(hdr)[c].size <= arena - old(usage)
      ensures !ok ==> maxUsage == old(maxUsage)
      ensures hdr[c].size == if ok then size else old(hdr)[c].size
      ensures KeptExcept(old(hdr), T, hdr, T, c)
      ensures BytesKept(old(hdr), T, H, old(bytes), bytes, c)
      ensures SamePrefix(old(bytes), bytes, c + H, old(hdr)[c].size)
    {
      ghost var h0, u0, m0 := hdr, usage, bytes;
      assert Fits(hdr, c, usage, H) && OwnedAt(hdr, fl, c);
      var room := LoadSize(c);
      var end := ExtendSpace(size - room);
      ok := end != NULL;
      if ok {
        StoreSize(c, size);
        TagsKeepLinks(h0, hdr, fl, freeList);
        StretchedLaid(h0, hdr, T, u0, fl, H, A, c);
      }
      assert SameBytes(m0, bytes, {c}, H);
      OneHeaderKeepsBytes(h0, T, u0, H, m0, bytes, c);
      assert LiveAt(h0, T, c);
    }

    /** Merges the object's chunk with the free chunks after it. */
    method GrowCoalescing(c: nat)
      requires Sound() && LiveAt(hdr, T, c)
      modifies this`hdr, this`freeList, this`fl, this`T, this`bytes, mem
      ensures Sound() && LiveAt(hdr, T, c) && hdr[c].size >= old(hdr)[c].size
      ensures NextOf(hdr, c, H) == old(FreeRunEnd(hdr, usage, H, NextOf(hdr, c, H)))
      ensures KeptExcept(old(hdr), old(T), hdr, T, c)
      ensures BytesKept(old(hdr), old(T), H, old(bytes), bytes, c)
      ensures SamePrefix(old(bytes), bytes, c + H, old(hdr)[c].size)
    {
      ghost var h0, T0, m0 := hdr, T, bytes;
      assert OwnedAt(hdr, fl, c);
      ghost var k := CoalesceChunks(c, NULL);
      HeaderWritesKeepBytes(h0, T0, usage, H, m0, bytes);
      assert LiveAt(h0, T0, c);
    }

    /** The part of heapmem_realloc that tries to enlarge the object without moving it. */
    method GrowInPlace(c: nat, size: nat) returns (ok: bool)
      requires Sound() && LiveAt(hdr, T, c) && hdr[c].size < size && Multiple(size, A)
      modifies this`hdr, this`freeList, this`fl, this`usage, this`maxUsage, this`T, this`bytes, mem
      ensures maxUsage == Higher(old(maxUsage), usage)
      ensures Sound() && LiveAt(hdr, T, c) && hdr[c].size >= old(hdr)[c].size && (ok <==> hdr[c].size >= size)
      ensures if ok then hdr[c].size <= size + H else maxUsage == old(maxUsage)
      ensures ok <==> old(FitsInPlace(hdr, usage, arena, H, c, size))
      ensures KeptExcept(old(hdr), old(T), hdr, T, c)
      ensures BytesKept(old(hdr), old(T), H, old(bytes), bytes, c)
      ensures SamePrefix(old(bytes), bytes, c + H, old(hdr)[c].size)
    {
      var next := NextChunk(c);
      if next == usage {
        ok := GrowLast(c, size);
      } else {
        GrowCoalescing(c);
        var room := LoadSize(c);
        ok := room >= size;
        if ok {
          ghost var h1, T1, m1 := hdr, T, bytes;
          ShrinkInPlace(c, size);
          KeptTrans(old(hdr), old(T), h1, T1, hdr, T, c);
          BytesKeptTrans(old(hdr), old(T), h1, T1, H, old(bytes), m1, bytes, c);
        }
      }
    }

    /** The in-place cases of heapmem_realloc, as far as the chunks are concerned. */
    method RefitChunk(c: nat, size: nat) returns (ok: bool)
      requires Sound() && LiveAt(hdr, T, c) && size > 0 && Multiple(size, A)
      modifies this`hdr, this`freeList, this`fl, this`usage, this`maxUsage, this`T, this`bytes, mem
      ensures maxUsage == Higher(old(maxUsage), usage)
      ensures Sound() && LiveAt(hdr, T, c) && (ok <==> size <= hdr[c].size)
      ensures if ok then hdr[c].size <= size + H else maxUsage == old(maxUsage)
      ensures ok || old(hdr)[c].size <= hdr[c].size
      ensures ok <==> old(FitsInPlace(hdr, usage, arena, H, c, size))
      ensures KeptExcept(old(hdr), old(T), hdr, T, c)
      ensures BytesKept(old(hdr), old(T), H, old(bytes), bytes, c)
      ensures SamePrefix(old(bytes), bytes, c + H,
                         if hdr[c].size < old(hdr)[c].size then hdr[c].size else old(hdr)[c].size)
    {
      assert Fits(hdr, c, usage, H);
      var room := LoadSize(c);
      if size <= room {
        ShrinkInPlace(c, size);
        ok := true;
      } else {
        ok := GrowInPlace(c, size);
      }
    }

    /** The in-place cases of heapmem_realloc. */
    method ResizeInPlace(c: nat, size: nat) returns (ok: bool)
      requires Valid() && c in objs && size > 0 && Multiple(size, A)
      modifies this`hdr, this`freeList, this`fl, this`usage, this`maxUsage, this`T, this`objs, this`bytes, mem
      ensures maxUsage == Higher(old(maxUsage), usage)
      ensures Valid() && c in objs
      ensures if ok then size <= |objs[c]| <= size + H
              else |old(objs)[c]| <= |objs[c]| < size && maxUsage == old(maxUsage)
      ensures c < |old(hdr)| && (ok <==> old(FitsInPlace(hdr, usage, arena, H, c, size)))
      ensures objs == old(objs)[c := objs[c]] && KeepsPrefix(old(objs)[c], objs[c])
    {
      ghost var h0, T0, m0 := hdr, T, bytes;
      MatchesAt(hdr, T, H, bytes, objs, c);
      ok := RefitChunk(c, size);
      assert Fits(hdr, c, usage, H);
      ghost var O' := MatchesUpdated(h0, T0, m0, hdr, T, bytes, H, objs, c);
      PrefixKept(m0, bytes, c + H, if hdr[c].size < h0[c].size then hdr[c].size else h0[c].size, objs[c], O'[c]);
      objs := O';
    }

    /** heapmem_realloc of a live object to `size` bytes, a multiple of the alignment. */
    method Resize(c: nat, size: nat, admitted: bool) returns (ptr: int)
      requires Valid() && c in objs && size > 0 && Multiple(size, A)
      modifies this`hdr, this`freeList, this`fl, this`usage, this`maxUsage, this`T, this`objs, this`bytes, mem
      ensures Valid()
      ensures ptr == NULL ==> ResizesObject(old(objs), objs, c, c, |old(objs)[c]|)
      ensures ptr == NULL && admitted ==> NoRoom(size)
      ensures c < |old(hdr)| && (ptr == c + H <==> old(FitsInPlace(hdr, usage, arena, H, c, size)))
      ensures ptr != NULL ==> ptr >= H && Multiple(ptr, A) && ResizesObject(old(objs), objs, c, ptr - H, size)
      ensures ptr != NULL ==> |objs[ptr - H]| <= size + H
      ensures maxUsage == Higher(old(maxUsage), usage)
    {
      ghost var O0 := objs;
      var ok := ResizeInPlace(c, size);
      ghost var O1 := objs;
      assert O1 == (O0 - {c})[c := O1[c]];
      if ok {
        MatchesAt(hdr, T, H, bytes, objs, c);
        PointerAligned(hdr, T, usage, H, A, c);
        return c + H;
      }
      ptr := MoveObject(c, size, admitted);
      if ptr != NULL {
        ResizesCompose(O0, O1, objs, c, ptr - H, |O1[c]|, size);
      }
    }

    /** heapmem_realloc for a pointer behind the footprint whose bytes are marked as allocated, if it can stay. */
    method ReallocBehind(ptr: nat, request: nat) returns (r: int)
      requires Valid() && usage <= ptr && H <= ptr <= arena && 0 < request
      requires Align(request, A) <= HeaderAt(codec, bytes, ptr - H).size <= arena - ptr
      modifies this`freeList, this`bytes, mem
      ensures r == ptr && InSync()
      ensures old(HeaderAt(codec, bytes, ptr - H).size) <= Align(request, A) + H ==> Valid()
      ensures old(HeaderAt(codec, bytes, ptr - H).size) > Align(request, A) + H ==> !IsHeapNow()
    {
      var a := Align(request, A);
      var w := LoadBytes(ptr - H + codec.SizeAt(), codec.sizeWidth);
      var size := codec.sizeOf(w);
      if a + H < size {
        SplitBehind(ptr - H, a, size);
      }
      return ptr;
    }

    /** What is demanded of a pointer passed to heapmem_realloc: it was handed out, or it lies behind the footprint and,
        if the bytes there are marked as allocated, they name a chunk inside the arena that need not grow. */
    ghost predicate Reallocable(ptr: int, request: nat)
      requires Shape()
      reads this, mem
    {
      && (0 <= ptr < usage ==> ptr - H in T)
      && (ptr >= usage ==> H <= ptr <= arena)
      && (MarkedBehind(ptr) && 0 < request <= arena ==>
            Align(request, A) <= HeaderAt(codec, bytes, ptr - H).size <= arena - ptr)
    }

    /** The part of heapmem_realloc after the special cases. */
    method ReallocChunk(ptr: nat, request: nat, admitted: bool) returns (r: int)
      requires Valid() && Reallocable(ptr, request) && 0 < request <= arena
      modifies this`hdr, this`freeList, this`fl, this`usage, this`maxUsage, this`T, this`objs, this`bytes, mem
      ensures !old(MarkedBehind(ptr)) ==> Valid() && (r != NULL ==> r >= H && Multiple(r, A))
      ensures !old(MarkedBehind(ptr)) ==> ReallocOutcome(old(objs), objs, ptr < old(usage), ptr, request, r)
      ensures !old(MarkedBehind(ptr)) ==> maxUsage == Higher(old(maxUsage), usage)
      ensures ptr < old(usage) && ptr - H in old(objs) ==>
                && (admitted ==> r != NULL || NoRoom(Align(request, A)))
                && (r == ptr <==> old(FitsInPlace(hdr, usage, arena, H, ptr - H, Align(request, A))))
      ensures old(MarkedBehind(ptr)) ==>
                && r == ptr
                && if old(HeaderAt(codec, bytes, ptr - H).size) <= Align(request, A) + H
                   then Valid() && objs == old(objs)
                   else !IsHeapNow()
    {
      var c := ptr - H;
      if c in T {
        RecordedRead(codec, bytes, hdr, T, H, c);
      }
      MatchesAt(hdr, T, H, bytes, objs, c);
      if !Allocated(mem[c + codec.FlagsAt()]) {
        return NULL;
      }
      if ptr >= usage {
        r := ReallocBehind(ptr, request);
      } else {
        AlignIsMultiple(request, A);
        r := Resize(c, Align(request, A), admitted);
      }
    }

    /** heapmem_realloc */
    method Realloc(ptr: int, request: nat, admitted: bool) returns (r: int)
      requires Valid() && Reallocable(ptr, request)
      modifies this`hdr, this`freeList, this`fl, this`usage, this`maxUsage, this`T, this`objs, this`bytes, mem
      ensures !old(MarkedBehind(ptr)) ==> Valid() && (r != NULL ==> r >= H && Multiple(r, A))
      ensures !old(MarkedBehind(ptr)) ==> ReallocOutcome(old(objs), objs, 0 <= ptr < old(usage), ptr, request, r)
      ensures !old(MarkedBehind(ptr)) ==> maxUsage == Higher(old(maxUsage), usage)
      ensures ptr == NULL && r == NULL && admitted && 0 < request <= arena ==> NoRoom(Align(request, A))
      ensures 0 <= ptr < old(usage) && ptr - H in old(objs) && 0 < request <= arena ==>
                && (admitted ==> r != NULL || NoRoom(Align(request, A)))
                && (r == ptr <==> old(FitsInPlace(hdr, usage, arena, H, ptr - H, Align(request, A))))
      ensures old(MarkedBehind(ptr)) ==>
                && r == (if 0 < request <= arena then ptr else NULL)
                && var intact := request > arena ||
                     (request > 0 && old(HeaderAt(codec, bytes, ptr - H).size) <= Align(request, A) + H);
                   if intact then Valid() && objs == old(objs) else !IsHeapNow()
    {
      if ptr != NULL && Refused(ptr, usage) {
        return NULL;
      }
      if request > arena {
        return NULL;
      }
      if ptr == NULL {
        r := Alloc(request, admitted);
      } else if request == 0 {
        var ok := Free(ptr);
        r := NULL;
      } else {
        r := ReallocChunk(ptr, request, admitted);
      }
    }

    /** What heapmem_realloc promises of the objects before and after, for each kind of request. */
    ghost predicate ReallocOutcome(before: map<nat, seq<byte>>, after: map<nat, seq<byte>>, inHeap: bool, ptr: int,
        request: nat, r: int)
      requires A > 0
    {
      if (ptr != NULL && !inHeap) || request > arena then
        r == NULL && after == before
      else if ptr == NULL then
        if r == NULL then after == before
        else r >= H && AddsObject(before, after, r - H, Align(request, A), Align(request, A) + H)
      else if request == 0 then
        r == NULL && after == before - {ptr - H}
      else if ptr < H || ptr - H !in before then
        r == NULL && after == before
      else if r == NULL then
        ResizesObject(before, after, ptr - H, ptr - H, |before[ptr - H]|)
      else
        && r >= H && ResizesObject(before, after, ptr - H, r - H, Align(request, A))
        && |after[r - H]| <= Align(request, A) + H
    }

    /** The visit of a free chunk in heapmem_stats. */
    method SurveyFree(chunk: nat, ghost L: set<nat>, ghost F: set<nat>,
                      ghost inUse: nat, ghost overhead: nat, ghost available: nat) returns (size: nat)
      requires Valid() && chunk in T && !hdr[chunk].used
      requires Totals(hdr, T, usage, H, chunk, L, F, inUse, overhead, available)
      modifies this`hdr, this`freeList, this`fl, this`T, this`bytes, mem
      ensures Valid() && chunk in T
      ensures Totals(hdr, T, usage, H, NextOf(hdr, chunk, H), L, F + {chunk}, inUse, overhead, available + size)
    {
      ghost var h1, T1, m1 := hdr, T, bytes;
      assert OwnedAt(hdr, fl, chunk);
      ghost var k: nat :| k < |fl| && fl[k] == chunk;
      k := CoalesceChunks(chunk, k);
      TotalsFree(h1, hdr, T1, T, usage, H, chunk, L, F, inUse, overhead, available);
      KeptWhenFree(h1, T1, hdr, T, chunk);
      HeaderWritesKeepBytes(h1, T1, usage, H, m1, bytes);
      MatchesSame(h1, T1, m1, hdr, T, bytes, H, objs);
      size := LoadSize(chunk);
    }

    /** The visit of an allocated chunk. */
    method SurveyUsed(chunk: nat, ghost L: set<nat>, ghost F: set<nat>,
                      ghost inUse: nat, ghost overhead: nat, ghost available: nat) returns (size: nat)
      requires Valid() && chunk in T && hdr[chunk].used
      requires Totals(hdr, T, usage, H, chunk, L, F, inUse, overhead, available)
      ensures Totals(hdr, T, usage, H, NextOf(hdr, chunk, H), L + {chunk}, F, inUse + size, overhead + H, available)
    {
      TotalsUsed(hdr, T, usage, H, chunk, L, F, inUse, overhead, available);
      size := LoadSize(chunk);
    }

    /** One turn of the loop of heapmem_stats. */
    method SurveyStep(chunk: nat, ghost L: set<nat>, ghost F: set<nat>, inUse: nat, overhead: nat, available: nat)
        returns (next: nat, inUse': nat, overhead': nat, available': nat, ghost L': set<nat>, ghost F': set<nat>)
      requires Valid() && chunk in T && Totals(hdr, T, usage, H, chunk, L, F, inUse, overhead, available)
      modifies this`hdr, this`freeList, this`fl, this`T, this`bytes, mem
      ensures Valid() && (next == usage || next in T) && chunk < next <= usage
      ensures Totals(hdr, T, usage, H, next, L', F', inUse', overhead', available')
    {
      inUse', overhead', available', L', F' := inUse, overhead, available, L, F;
      var flags := LoadFlags(chunk);
      if Allocated(flags) {
        var size := SurveyUsed(chunk, L, F, inUse, overhead, available);
        inUse', overhead', L' := inUse + size, overhead + H, L + {chunk};
      } else {
        var size := SurveyFree(chunk, L, F, inUse, overhead, available);
        available', F' := available + size, F + {chunk};
      }
      assert Fits(hdr, chunk, usage, H);
      next := NextChunk(chunk);
    }

    /** The loop of heapmem_stats, which coalesces every free chunk on the way. */
    method Survey() returns (inUse: nat, overhead: nat, available: nat, ghost L: set<nat>, ghost F: set<nat>)
      requires Valid()
      modifies this`hdr, this`freeList, this`fl, this`T, this`bytes, mem
      ensures Valid() && Totals(hdr, T, usage, H, usage, L, F, inUse, overhead, available)
    {
      L, F := {}, {};
      inUse, overhead, available := 0, 0, 0;
      var chunk: nat := 0;
      while chunk < usage
        invariant Valid() && (chunk == usage || chunk in T) && chunk <= usage
        invariant Totals(hdr, T, usage, H, chunk, L, F, inUse, overhead, available)
        decreases usage - chunk
      {
        chunk, inUse, overhead, available, L, F := SurveyStep(chunk, L, F, inUse, overhead, available);
      }
    }

    /** heapmem_stats. */
    method Stats() returns (inUse: nat, overhead: nat, available: nat, footprint: nat, maxFootprint: nat, chunks: nat)
      requires Valid()
      modifies this`hdr, this`freeList, this`fl, this`T, this`bytes, mem
      ensures Valid() && NoAdjacentFree(hdr, T, H)
      ensures (forall o {:trigger o in objs} :: o in objs ==> o < |hdr|) && inUse == SizeSum(hdr, objs.Keys)
      ensures (forall o {:trigger o in fl} :: o in fl ==> o < |hdr|) &&
              available == SizeSum(hdr, Elements(fl)) + arena - usage
      ensures chunks == |objs| && overhead == Headers(H, |objs|)
      ensures inUse + overhead + available + Headers(H, |fl|) == arena
      ensures footprint == usage && maxFootprint == maxUsage
    {
      ghost var L, F;
      inUse, overhead, available, L, F := Survey();
      available := available + (arena - usage);
      footprint, maxFootprint := usage, maxUsage;
      HeadersCounted(H, |L|);
      chunks := HeaderCount(overhead, H);
      SurveyDone(hdr, T, usage, fl, H, A, L, F);
      DistinctSize(fl);
      assert L == objs.Keys by {
        assert forall o: nat {:trigger o in objs} :: LiveAt(hdr, T, o) <==> o in objs;
      }
    }

    /** memset of the first `n` bytes of an object to zero. */
    method ZeroObject(c: nat, n: nat)
      requires Valid() && c in objs && n <= |objs[c]|
      modifies this`objs, this`bytes, mem
      ensures Valid() && c in objs && objs == old(objs)[c := objs[c]] && |objs[c]| == |old(objs)[c]|
      ensures forall i :: 0 <= i < |objs[c]| ==> objs[c][i] == if i < n then 0 else old(objs)[c][i]
    {
      for i := 0 to n
        invariant Valid() && c in objs && objs == old(objs)[c := objs[c]] && |objs[c]| == |old(objs)[c]|
        invariant forall j :: 0 <= j < |objs[c]| ==> objs[c][j] == if j < i then 0 else old(objs)[c][j]
      {
        Write(c, i, 0);
      }
    }

    /** heapmem_calloc, for a size_t of `M` values. */
    method Calloc(nmemb: nat, size: nat, M: nat, admitted: bool) returns (ptr: int)
      requires Valid() && arena < M && nmemb < M && size < M
      modifies this`hdr, this`freeList, this`fl, this`usage, this`maxUsage, this`T, this`objs, this`bytes, mem
      ensures Valid()
      ensures maxUsage == Higher(old(maxUsage), usage)
      ensures ptr == NULL ==> objs == old(objs)
      ensures ptr == NULL && admitted && 0 < nmemb * size <= arena ==> NoRoom(Align(nmemb * size, A))
      ensures ptr != NULL ==>
                && admitted && 0 < nmemb * size <= arena && ptr >= H && Multiple(ptr, A)
                && AddsObject(old(objs), objs, ptr - H, nmemb * size, Align(nmemb * size, A) + H)
                && ZeroPrefix(objs[ptr - H], nmemb * size)
    {
      CheckedProductIsExact(nmemb, size, M);
      var total := CheckedProduct(nmemb, size, M);
      if total == 0 {
        return NULL;
      }
      ptr := Alloc(total, admitted);
      if ptr != NULL {
        ZeroObject(ptr - H, total);
      }
    }

    ghost predicate AddsZeroed(before: map<nat, seq<byte>>, after: map<nat, seq<byte>>, n: nat)
      requires A > 0
    {
      exists c: nat {:trigger c in after} :: AddsObject(before, after, c, n, Align(n, A) + H) && ZeroPrefix(after[c], n)
    }

    /** What the client sees now. */
    ghost function View(): Store
      requires Valid()
      reads this, mem
    {
      Store(objs, Spare(), usage, maxUsage)
    }

    /** The sizes of the free chunks that are searched, and what a chunk at the unused end could hold. */
    ghost function Spare(): set<nat>
      requires Valid()
      reads this, mem
    {
      (set k | 0 <= k < Searched(fl, searchMax) :: EntrySize(hdr, fl, k)) +
      if usage + H <= arena then {arena - usage - H} else {}
    }

    lemma NoRoomSpare(n: nat)
      requires Valid()
      ensures NoRoom(n) <==> NoneHolds(Spare(), n)
    {
      if NoneHolds(Spare(), n) {
        forall i {:trigger EntrySize(hdr, fl, i)} | 0 <= i < Searched(fl, searchMax)
          ensures EntrySize(hdr, fl, i) < n
        {
          assert EntrySize(hdr, fl, i) in Spare();
        }
        assert usage + H <= arena ==> arena - usage - H in Spare();
      }
    }

    /** A request for n bytes is refused for want of memory: none of the pieces that are left could hold them. */
    ghost predicate Refusal(n: nat, admitted: bool, after: Store)
      requires A > 0
    {
      admitted && 0 < n <= arena ==> NoneHolds(after.spare, Align(n, A))
    }

    /** The abstract store: what each request does to the map of objects, given that the client frees,
        reallocates and writes only objects it owns. No request changes an object it does not name, and none is
        refused as long as one of the pieces of free memory that are looked at can hold it. */
    ghost predicate StoreStep(r: Request, before: Store, after: Store)
      requires A > 0
    {
      && after.peak == Higher(before.peak, after.footprint)
      && match r
         case AllocRequest(size, admitted) =>
           if after.objs == before.objs then Refusal(size, admitted, after)
           else admitted && 0 < size <= arena && AddsSome(before.objs, after.objs, Align(size, A), Align(size, A) + H)
         case CallocRequest(nmemb, size, admitted) =>
           if after.objs == before.objs then Refusal(nmemb * size, admitted, after)
           else admitted && 0 < nmemb * size <= arena && AddsZeroed(before.objs, after.objs, nmemb * size)
         case FreeRequest(c) =>
           after.objs == before.objs - {c}
         case ReallocRequest(c, size, admitted) =>
           if c !in before.objs || size > arena then after.objs == before.objs
           else if size == 0 then after.objs == before.objs - {c}
           else
             || Resized(before.objs, after.objs, c, Align(size, A))
             || (|before.objs[c]| < Align(size, A) && Refusal(size, admitted, after) &&
                 ResizesObject(before.objs, after.objs, c, c, |before.objs[c]|))
         case WriteRequest(c, i, b) =>
           after.objs ==
           if c in before.objs && i < |before.objs[c]| then before.objs[c := before.objs[c][i := b]] else before.objs
         case StatsRequest =>
           after.objs == before.objs
    }

    /** The object at c has room for n bytes now, and at most a header more; it stays where it is if it did before. */
    ghost predicate Resized(before: map<nat, seq<byte>>, after: map<nat, seq<byte>>, c: nat, n: nat)
    {
      exists c': nat {:trigger c' in after} ::
        && ResizesObject(before, after, c, c', n) && |after[c']| <= n + H
        && (n <= |before[c]| ==> c' == c)
    }

    /** Serves one request of a client that keeps track of the objects it owns. */
    method Serve(r: Request, M: nat, owned: set<nat>) returns (owned': set<nat>)
      requires Valid() && arena < M && (r.CallocRequest? ==> r.nmemb < M && r.size < M) && owned == objs.Keys
      modifies this`hdr, this`freeList, this`fl, this`usage, this`maxUsage, this`T, this`objs, this`bytes, mem
      ensures Valid() && StoreStep(r, old(View()), View()) && owned' == objs.Keys
    {
      match r
      case AllocRequest(size, admitted) =>
        owned' := ServeAlloc(size, admitted, owned);
      case CallocRequest(nmemb, size, admitted) =>
        owned' := ServeCalloc(nmemb, size, M, admitted, owned);
      case FreeRequest(c) =>
        owned' := ServeFree(c, owned);
      case ReallocRequest(c, size, admitted) =>
        owned' := ServeRealloc(c, size, admitted, owned);
      case WriteRequest(c, i, b) =>
        owned' := ServeWrite(c, i, b, owned);
      case StatsRequest =>
        var inUse, overhead, available, footprint, maxFootprint, chunks := Stats();
        owned' := owned;
    }

    method ServeAlloc(size: nat, admitted: bool, owned: set<nat>) returns (owned': set<nat>)
      requires Valid() && owned == objs.Keys
      modifies this`hdr, this`freeList, this`fl, this`usage, this`maxUsage, this`T, this`objs, this`bytes, mem
      ensures Valid() && StoreStep(AllocRequest(size, admitted), old(View()), View()) && owned' == objs.Keys
    {
      var p := Alloc(size, admitted);
      NoRoomSpare(Align(size, A));
      owned' := if p != NULL then owned + {p - H} else owned;
    }

    method ServeCalloc(nmemb: nat, size: nat, M: nat, admitted: bool, owned: set<nat>) returns (owned': set<nat>)
      requires Valid() && owned == objs.Keys && arena < M && nmemb < M && size < M
      modifies this`hdr, this`freeList, this`fl, this`usage, this`maxUsage, this`T, this`objs, this`bytes, mem
      ensures Valid() && StoreStep(CallocRequest(nmemb, size, admitted), old(View()), View()) && owned' == objs.Keys
    {
      var p := Calloc(nmemb, size, M, admitted);
      NoRoomSpare(Align(nmemb * size, A));
      owned' := if p != NULL then owned + {p - H} else owned;
    }

    method ServeFree(c: nat, owned: set<nat>) returns (owned': set<nat>)
      requires Valid() && owned == objs.Keys
      modifies this`hdr, this`freeList, this`fl, this`usage, this`maxUsage, this`T, this`objs, this`bytes, mem
      ensures Valid() && StoreStep(FreeRequest(c), old(View()), View()) && owned' == objs.Keys
    {
      owned' := owned;
      if c in owned {
        OwnedPointer(c);
        var ok := Free(c + H);
        owned' := owned - {c};
      }
    }

    method ServeRealloc(c: nat, size: nat, admitted: bool, owned: set<nat>) returns (owned': set<nat>)
      requires Valid() && owned == objs.Keys
      modifies this`hdr, this`freeList, this`fl, this`usage, this`maxUsage, this`T, this`objs, this`bytes, mem
      ensures Valid() && StoreStep(ReallocRequest(c, size, admitted), old(View()), View()) && owned' == objs.Keys
    {
      owned' := owned;
      if c in owned {
        OwnedPointer(c);
        ShorterFits(c, Align(size, A));
        var p := Realloc(c + H, size, admitted);
        NoRoomSpare(Align(size, A));
        owned' := if p != NULL then owned - {c} + {p - H} else if size == 0 then owned - {c} else owned;
        if p != NULL {
          assert p - H in objs;
        }
      }
    }

    method ServeWrite(c: nat, i: nat, b: byte, owned: set<nat>) returns (owned': set<nat>)
      requires Valid() && owned == objs.Keys
      modifies this`hdr, this`freeList, this`fl, this`usage, this`maxUsage, this`T, this`objs, this`bytes, mem
      ensures Valid() && StoreStep(WriteRequest(c, i, b), old(View()), View()) && owned' == objs.Keys
    {
      owned' := owned;
      if c in owned {
        OwnedPointer(c);
        var size := LoadSize(c);
        if i < size {
          Write(c, i, b);
        }
      }
    }

    /** An object that is long enough stays in place. */
    lemma ShorterFits(c: nat, n: nat)
      requires Valid() && c in objs
      ensures c < |hdr| && (n <= |objs[c]| ==> FitsInPlace(hdr, usage, arena, H, c, n))
    {
      MatchesAt(hdr, T, H, bytes, objs, c);
      assert Fits(hdr, c, usage, H);
    }

    lemma OwnedPointer(c: nat)
      requires Valid() && c in objs
      ensures c in T && c + H < usage && c < |hdr| && |objs[c]| == hdr[c].size
    {
      MatchesAt(hdr, T, H, bytes, objs, c);
      assert Fits(hdr, c, usage, H);
    }

    /** Every run of the allocator is a run of the abstract store, and keeps the allocator's invariant. */
    method Run(script: seq<Request>, M: nat, owned: set<nat>)
        returns (ghost trace: seq<Store>, owned': set<nat>)
      requires Valid() && arena < M
      requires forall i :: 0 <= i < |script| && script[i].CallocRequest? ==> script[i].nmemb < M && script[i].size < M
      requires owned == objs.Keys
      modifies this`hdr, this`freeList, this`fl, this`usage, this`maxUsage, this`T, this`objs, this`bytes, mem
      ensures Valid() && |trace| == |script| + 1 && trace[0] == old(View()) && trace[|script|] == View()
      ensures owned' == objs.Keys
      ensures forall i {:trigger script[i]} :: 0 <= i < |script| ==> StoreStep(script[i], trace[i], trace[i + 1])
    {
      trace, owned' := [View()], owned;
      for k := 0 to |script|
        invariant Valid() && |trace| == k + 1 && trace[0] == old(View()) && trace[k] == View() && owned' == objs.Keys
        invariant forall i {:trigger script[i]} :: 0 <= i < k ==> StoreStep(script[i], trace[i], trace[i + 1])
      {
        owned' := Serve(script[k], M, owned');
        trace := trace + [View()];
      }
    }
  }
}
