/**
 Which arenas are heaps at all, whatever is taken for the chunks, and the guard against pointers from elsewhere.
 */
module HeapViews {
  import opened HeapCodec
  import opened HeapLayout
  import opened HeapSteps

  /** `!IN_HEAP(ptr)` as the macro expands: its body has no outer parentheses, so the `!` takes the first part only.
      Addresses are relative to the arena; those below it, other than NULL, are less than -1. */
  predicate Refused(ptr: int, usage: nat)
  {
    !(ptr != NULL && ptr >= 0) && ptr < usage
  }

  /** What the name of the macro says. */
  predicate InHeap(ptr: int, usage: nat)
  {
    ptr != NULL && 0 <= ptr < usage
  }

  /** The guard refuses exactly NULL and what lies below the arena; it differs from what the macro's name says exactly
      for pointers at or behind the end of the footprint. */
  lemma GuardRefuses(ptr: int, usage: nat)
    ensures Refused(ptr, usage) <==> ptr < 0
    ensures (Refused(ptr, usage) <==> !InHeap(ptr, usage)) <==> ptr < usage
  {
  }

  ghost predicate IsView(k: Codec, m: seq<byte>, usage: nat, freeList: int, H: nat, A: nat,
                         hdr: seq<Chunk>, T: set<nat>, fl: seq<nat>)
    requires A > 0
  {
    Recorded(k, m, hdr, T, H) && Laid(hdr, T, usage, fl, H, A, NULL) && Linked(hdr, fl, freeList)
  }

  /** The bytes, the end of the footprint and the head of the list are those of a heap: some choice of chunks tiles the
      footprint, and the list holds exactly the free ones among them. */
  ghost predicate IsHeap(k: Codec, m: seq<byte>, usage: nat, freeList: int, H: nat, A: nat)
    requires A > 0
  {
    exists hdr: seq<Chunk>, T: set<nat>, fl: seq<nat> :: IsView(k, m, usage, freeList, H, A, hdr, T, fl)
  }

  lemma FreeChunkFits(hdr: seq<Chunk>, T: set<nat>, usage: nat, fl: seq<nat>, q: nat, H: nat, A: nat)
    requires A > 0 && Laid(hdr, T, usage, fl, H, A, NULL) && Linked(hdr, fl, q)
    ensures q + H < usage
  {
    assert q == At(fl, 0) && fl[0] in fl;
    assert Fits(hdr, q, usage, H);
  }

  lemma TileFits(k: Codec, m: seq<byte>, hdr: seq<Chunk>, T: set<nat>, usage: nat, H: nat, o: nat)
    requires Tiled(hdr, T, usage, H) && Recorded(k, m, hdr, T, H) && o in T
    ensures o + k.FlagsAt() < |m| && o + H + HeaderAt(k, m, o).size <= usage
  {
    RecordedRead(k, m, hdr, T, H, o);
    assert Fits(hdr, o, usage, H);
  }

  /** No heap has a free chunk whose payload begins at or behind the end of the footprint. */
  lemma NoHeapWhenListed(k: Codec, m: seq<byte>, usage: nat, q: nat, H: nat, A: nat)
    requires A > 0 && usage <= q + H
    ensures !IsHeap(k, m, usage, q, H, A)
  {
    forall hdr: seq<Chunk>, T: set<nat>, fl: seq<nat> | IsView(k, m, usage, q, H, A, hdr, T, fl)
      ensures false
    {
      FreeChunkFits(hdr, T, usage, fl, q, H, A);
      assert false;
    }
  }

  /** The sizes in memory decide where the chunks are: a tile below which no size has changed is one in every view. */
  lemma {:induction false} TilesAreForced(k: Codec, m': seq<byte>, hdr: seq<Chunk>, T: set<nat>, usage: nat,
      hdr': seq<Chunk>, T': set<nat>, usage': nat, H: nat, i: nat)
    requires Tiled(hdr, T, usage, H) && Tiled(hdr', T', usage', H) && Recorded(k, m', hdr', T', H)
    requires usage == 0 || 0 in T
    requires i < |Walk(hdr, T, usage, H, 0)|
    requires Walk(hdr, T, usage, H, 0)[i] < usage'
    requires forall o {:trigger o in T} :: o in T && o < Walk(hdr, T, usage, H, 0)[i] ==>
               o + k.FlagsAt() < |m'| && HeaderAt(k, m', o).size == hdr[o].size
    ensures Walk(hdr, T, usage, H, 0)[i] in T'
    decreases i
  {
    var w := Walk(hdr, T, usage, H, 0);
    if i > 0 {
      WalkVisitsEveryTile(hdr, T, usage, H, 0);
      assert w[i - 1] < w[i] && w[i - 1] in w;
      TilesAreForced(k, m', hdr, T, usage, hdr', T', usage', H, i - 1);
      WalkLandsOnUsage(hdr, T, usage, H, 0, i - 1);
      RecordedRead(k, m', hdr', T', H, w[i - 1]);
      assert NextOf(hdr', w[i - 1], H) == w[i];
    }
  }

  /** Giving back the last H bytes of the footprint, after a write to the flags that would be there, leaves no heap:
      the last chunk would reach beyond the end. */
  lemma NoHeapWhenShorter(k: Codec, m: seq<byte>, m': seq<byte>, hdr: seq<Chunk>, T: set<nat>, usage: nat,
      fl: seq<nat>, freeList: int, H: nat, A: nat, usage': nat)
    requires A > 0 && IsView(k, m, usage, freeList, H, A, hdr, T, fl) && k.FlagsAt() < H
    requires usage > 0 && usage == usage' + H && usage <= |m|
    requires |m| == |m'| && forall j {:trigger m'[j]} :: 0 <= j < usage' + k.FlagsAt() ==> m'[j] == m[j]
    ensures !IsHeap(k, m', usage', freeList, H, A)
  {
    var w := Walk(hdr, T, usage, H, 0);
    var i := |w| - 1;
    WalkVisitsEveryTile(hdr, T, usage, H, 0);
    WalkLandsOnUsage(hdr, T, usage, H, 0, i);
    var last := w[i];
    assert Fits(hdr, last, usage, H);
    forall o {:trigger o in T} | o in T && o <= last
      ensures o + k.FlagsAt() < |m'| && HeaderAt(k, m', o).size == hdr[o].size
    {
      RecordedRead(k, m, hdr, T, H, o);
      assert m'[o + k.SizeAt()..o + k.FlagsAt()] == m[o + k.SizeAt()..o + k.FlagsAt()];
    }
    forall hdr': seq<Chunk>, T': set<nat>, fl': seq<nat> | IsView(k, m', usage', freeList, H, A, hdr', T', fl')
      ensures false
    {
      TilesAreForced(k, m', hdr, T, usage, hdr', T', usage', H, i);
      TileFits(k, m', hdr', T', usage', H, last);
      assert false;
    }
  }
}
