/**
 The two views of the heap memory kept by os/lib/heapmem.c: a chain of chunks that tiles
 the arena from offset 0 to the current usage, and a doubly-linked list threaded through
 the free chunks. Everything here is about values, so that the methods of HeapMem.Heap
 can be proved one header write at a time.

 A chunk is named by the offset of its header in the arena. NULL is -1.
 */
module HeapLayout {
  const NULL: int := -1

  /** The chunk header; `H` below is its size in bytes. */
  datatype Chunk = Chunk(prev: int, next: int, size: nat, used: bool)

  /** NEXT_CHUNK: the offset just after the payload of the chunk at `o`. */
  function NextOf(hdr: seq<Chunk>, o: nat, H: nat): nat
    requires o < |hdr|
  {
    o + H + hdr[o].size
  }

  // ---------------------------------------------------------------- alignment

  /** `x` is a multiple of the alignment. */
  ghost predicate Multiple(x: nat, A: nat)
    requires A > 0
  {
    x == 0 || (x >= A && Multiple(x - A, A))
  }

  /** x & ~(A - 1), for an alignment that is a power of two: rounds down to a multiple of the alignment. */
  function RoundDown(x: nat, A: nat): (r: nat)
    requires A > 0
    ensures r <= x < r + A
  {
    if x < A then 0 else A + RoundDown(x - A, A)
  }

  /** ALIGN: rounds up to the next multiple of the alignment. */
  function Align(n: nat, A: nat): (r: nat)
    requires A > 0
    ensures n <= r < n + A
  {
    RoundDown(n + A - 1, A)
  }

  lemma {:induction false} MultipleAdd(x: nat, y: nat, A: nat)
    requires A > 0 && Multiple(x, A) && Multiple(y, A)
    ensures Multiple(x + y, A)
    decreases x
  {
    if x > 0 {
      MultipleAdd(x - A, y, A);
    }
  }

  lemma {:induction false} MultipleSub(x: nat, y: nat, A: nat)
    requires A > 0 && Multiple(x, A) && Multiple(y, A) && y <= x
    ensures Multiple(x - y, A)
    decreases y
  {
    if y > 0 {
      MultipleSub(x - A, y - A, A);
    }
  }

  lemma {:induction false} RoundedDown(x: nat, A: nat)
    requires A > 0
    ensures Multiple(RoundDown(x, A), A)
  {
    if x >= A {
      RoundedDown(x - A, A);
    }
  }

  /** ALIGN returns the least multiple of the alignment that is not below its argument. */
  lemma AlignIsLeast(n: nat, A: nat)
    requires A > 0
    ensures Multiple(Align(n, A), A)
    ensures forall m: nat :: Multiple(m, A) && n <= m ==> Align(n, A) <= m
  {
    var r := Align(n, A);
    RoundedDown(n + A - 1, A);
    forall m: nat | Multiple(m, A) && n <= m
      ensures r <= m
    {
      if m < r {
        MultipleSub(r, m, A);
      }
    }
  }

  lemma AlignIsMultiple(n: nat, A: nat)
    requires A > 0
    ensures Multiple(Align(n, A), A)
  {
    AlignIsLeast(n, A);
  }

  lemma AlignedAlready(n: nat, A: nat)
    requires A > 0 && Multiple(n, A)
    ensures Align(n, A) == n
  {
    AlignIsLeast(n, A);
  }

  // ------------------------------------------------------------- the two views

  ghost predicate Fits(hdr: seq<Chunk>, o: nat, usage: nat, H: nat)
  {
    o < |hdr| && o + H + hdr[o].size <= usage && hdr[o].size > 0
  }

  /** The chunk at `o`, when it lies below `p`, ends at or below `p`. */
  ghost predicate Apart(hdr: seq<Chunk>, o: nat, p: nat, H: nat)
    requires o < |hdr|
  {
    o < p ==> o + H + hdr[o].size <= p
  }

  /** The chunks in `T` tile the arena from 0 to `usage` without gap or overlap. */
  ghost predicate Tiled(hdr: seq<Chunk>, T: set<nat>, usage: nat, H: nat)
  {
    && usage <= |hdr|
    && (usage > 0 ==> 0 in T)
    && (forall o {:trigger o in T} :: o in T ==> o < |hdr|)
    && (forall o {:trigger Fits(hdr, o, usage, H)} :: o in T ==> Fits(hdr, o, usage, H))
    && (forall o {:trigger NextOf(hdr, o, H)} :: o in T ==> NextOf(hdr, o, H) == usage || NextOf(hdr, o, H) in T)
    && (forall o, p {:trigger Apart(hdr, o, p, H)} :: o in T && p in T ==> Apart(hdr, o, p, H))
  }

  /** Chunks and their payload sizes are aligned. */
  ghost predicate Aligned(hdr: seq<Chunk>, T: set<nat>, usage: nat, A: nat)
    requires A > 0
  {
    && Multiple(usage, A)
    && forall o {:trigger AlignedAt(hdr, o, A)} :: o in T ==> AlignedAt(hdr, o, A)
  }

  ghost predicate AlignedAt(hdr: seq<Chunk>, o: nat, A: nat)
    requires A > 0
  {
    o < |hdr| && Multiple(o, A) && Multiple(hdr[o].size, A)
  }

  function At(fl: seq<nat>, i: int): int
  {
    if 0 <= i < |fl| then fl[i] else NULL
  }

  /** `fl` is the list that starts at `head`, linked correctly in both directions. */
  ghost predicate Linked(hdr: seq<Chunk>, fl: seq<nat>, head: int)
  {
    && (forall i :: 0 <= i < |fl| ==> fl[i] < |hdr|)
    && head == At(fl, 0)
    && (forall i {:trigger hdr[fl[i]]} :: 0 <= i < |fl| ==>
      hdr[fl[i]].prev == At(fl, i - 1) && hdr[fl[i]].next == At(fl, i + 1))
    && (forall i, j :: 0 <= i < j < |fl| ==> fl[i] != fl[j])
  }

  /** Only chunks in `T` are on the list. */
  ghost predicate ListedIn(fl: seq<nat>, T: set<nat>)
  {
    forall o {:trigger o in fl} :: o in fl ==> o in T
  }

  /** The list holds exactly the unallocated tiles, leaving aside a tile `limbo` that is
      being taken from the list and is not marked as allocated yet. */
  ghost predicate Owned(hdr: seq<Chunk>, T: set<nat>, fl: seq<nat>, limbo: int)
  {
    && limbo !in fl && ListedIn(fl, T)
    && (forall o {:trigger OwnedAt(hdr, fl, o)} :: o in T && o != limbo ==> OwnedAt(hdr, fl, o))
  }

  ghost predicate OwnedAt(hdr: seq<Chunk>, fl: seq<nat>, o: nat)
  {
    o < |hdr| && (o in fl <==> !hdr[o].used)
  }

  function Elements(fl: seq<nat>): set<nat>
  {
    set x | x in fl
  }

  /** The tile at `o` is followed by an allocated tile or by the end of the footprint. */
  ghost predicate Settled(hdr: seq<Chunk>, o: nat, usage: nat, H: nat)
    requires o < |hdr|
  {
    NextOf(hdr, o, H) == usage || (NextOf(hdr, o, H) < |hdr| && hdr[NextOf(hdr, o, H)].used)
  }

  ghost predicate LiveAt(hdr: seq<Chunk>, T: set<nat>, o: int)
  {
    o in T && o < |hdr| && hdr[o].used
  }

  /** Every object other than the one at `c` is live after iff it was before, with the same size. */
  ghost predicate KeptExcept(hdr: seq<Chunk>, T: set<nat>, hdr': seq<Chunk>, T': set<nat>, c: int)
  {
    forall o: int :: o != c ==>
      && (LiveAt(hdr, T, o) <==> LiveAt(hdr', T', o))
      && (LiveAt(hdr, T, o) ==> hdr[o].size == hdr'[o].size)
  }

  /** Sizes and flags differ at most at the headers in `X`. */
  ghost predicate TagsExcept(hdr: seq<Chunk>, hdr': seq<Chunk>, X: set<nat>)
  {
    |hdr| == |hdr'| && forall o {:trigger TagsAt(hdr, hdr', o)} :: 0 <= o < |hdr| && o !in X ==> TagsAt(hdr, hdr', o)
  }

  ghost predicate TagsAt(hdr: seq<Chunk>, hdr': seq<Chunk>, o: nat)
    requires o < |hdr| == |hdr'|
  {
    hdr'[o].size == hdr[o].size && hdr'[o].used == hdr[o].used
  }

  /** Only the list pointers of headers differ. */
  ghost predicate SameTags(hdr: seq<Chunk>, hdr': seq<Chunk>)
  {
    TagsExcept(hdr, hdr', {})
  }

  lemma TagsCompose(h: seq<Chunk>, h': seq<Chunk>, h'': seq<Chunk>, X: set<nat>, Y: set<nat>)
    requires TagsExcept(h, h', X) && TagsExcept(h', h'', Y)
    ensures TagsExcept(h, h'', X + Y)
  {
    forall o: nat {:trigger TagsAt(h, h'', o)} | o < |h| && o !in X + Y
      ensures TagsAt(h, h'', o)
    {
      assert TagsAt(h, h', o) && TagsAt(h', h'', o);
    }
  }

  // ----------------------------------------------------- header writes and bytes

  /** No header in `W` overlaps the `n` bytes at `p`. */
  ghost predicate Clear(W: set<nat>, H: nat, p: int, n: nat)
  {
    forall o :: o in W ==> o + H <= p || p + n <= o
  }

  /** The bytes outside of the headers in `W` are the same. */
  ghost predicate SameBytes<B>(m: seq<B>, m': seq<B>, W: set<nat>, H: nat)
  {
    |m| == |m'| && forall i {:trigger Clear(W, H, i, 1)} :: 0 <= i < |m| && Clear(W, H, i, 1) ==> m[i] == m'[i]
  }

  lemma SameBytesWiden<B>(m: seq<B>, m': seq<B>, W: set<nat>, W': set<nat>, H: nat)
    requires SameBytes(m, m', W, H) && W <= W'
    ensures SameBytes(m, m', W', H)
  {
    forall i | 0 <= i < |m| && Clear(W', H, i, 1)
      ensures m[i] == m'[i]
    {
      assert Clear(W, H, i, 1);
    }
  }

  lemma SameBytesTrans<B>(m: seq<B>, m': seq<B>, m'': seq<B>, W: set<nat>, W': set<nat>, V: set<nat>, H: nat)
    requires SameBytes(m, m', W, H) && SameBytes(m', m'', W', H) && W <= V && W' <= V
    ensures SameBytes(m, m'', V, H)
  {
    SameBytesWiden(m, m', W, V, H);
    SameBytesWiden(m', m'', W', V, H);
  }

  /** One more header write. */
  lemma SameBytesStep<B>(m: seq<B>, m': seq<B>, m'': seq<B>, W: set<nat>, x: nat, H: nat)
    requires SameBytes(m, m', W, H) && SameBytes(m', m'', {x}, H) && x in W
    ensures SameBytes(m, m'', W, H)
  {
    SameBytesWiden(m', m'', {x}, W, H);
  }

  /** In a tiled arena the payload of a tile overlaps no header. */
  lemma PayloadClear(hdr: seq<Chunk>, T: set<nat>, usage: nat, H: nat, o: nat)
    requires Tiled(hdr, T, usage, H) && o in T
    ensures Clear(T, H, o + H, hdr[o].size)
  {
    forall p | p in T
      ensures p + H <= o + H || o + H + hdr[o].size <= p
    {
      assert Apart(hdr, o, p, H) && Apart(hdr, p, o, H);
    }
  }

  // ------------------------------------------------------- what the views imply

  /** Payloads of different tiles are disjoint from each other and from every header. */
  lemma PayloadsDisjoint(hdr: seq<Chunk>, T: set<nat>, usage: nat, H: nat, o: nat, p: nat, i: nat)
    requires Tiled(hdr, T, usage, H) && o in T && p in T
    requires o + H <= i < NextOf(hdr, o, H)
    ensures !(p <= i < p + H)
    ensures p != o ==> !(p + H <= i < NextOf(hdr, p, H))
    ensures i < usage
  {
    assert Fits(hdr, o, usage, H) && Apart(hdr, o, p, H) && Apart(hdr, p, o, H);
  }

  /** Walking NEXT_CHUNK from `o` until the end of the footprint. */
  ghost function Walk(hdr: seq<Chunk>, T: set<nat>, usage: nat, H: nat, o: nat): (w: seq<nat>)
    requires Tiled(hdr, T, usage, H)
    requires o == usage || o in T
    decreases usage - o
  {
    if o == usage then [] else
      assert Fits(hdr, o, usage, H);
      [o] + Walk(hdr, T, usage, H, NextOf(hdr, o, H))
  }

  /** The walk meets every tile from its start on exactly once, in address order. */
  lemma {:induction false} WalkVisitsEveryTile(hdr: seq<Chunk>, T: set<nat>, usage: nat, H: nat, o: nat)
    requires Tiled(hdr, T, usage, H)
    requires o == usage || o in T
    ensures var w := Walk(hdr, T, usage, H, o);
            && (forall p: nat :: p in w <==> p in T && o <= p)
            && (forall i, j :: 0 <= i < j < |w| ==> w[i] < w[j])
    decreases usage - o
  {
    if o != usage {
      var n := NextOf(hdr, o, H);
      assert Fits(hdr, o, usage, H);
      WalkVisitsEveryTile(hdr, T, usage, H, n);
      var w' := Walk(hdr, T, usage, H, n);
      var w := Walk(hdr, T, usage, H, o);
      assert w == [o] + w';
      forall p: nat
        ensures p in w <==> p in T && o <= p
      {
        assert p in w <==> p == o || p in w';
        assert p in T ==> Apart(hdr, o, p, H) && Fits(hdr, p, usage, H);
      }
      forall i, j | 0 <= i < j < |w|
        ensures w[i] < w[j]
      {
        assert w[j] == w'[j - 1] && w'[j - 1] in w';
      }
    } else {
      assert forall p: nat :: p in T ==> Fits(hdr, p, usage, H);
    }
  }

  /** Each step of the walk is NEXT_CHUNK of the one before, and the last lands exactly on the usage. */
  lemma {:induction false} WalkLandsOnUsage(hdr: seq<Chunk>, T: set<nat>, usage: nat, H: nat, o: nat, i: nat)
    requires Tiled(hdr, T, usage, H)
    requires o == usage || o in T
    requires i < |Walk(hdr, T, usage, H, o)|
    ensures var w := Walk(hdr, T, usage, H, o);
            w[i] in T && NextOf(hdr, w[i], H) == if i + 1 < |w| then w[i + 1] else usage
    decreases i
  {
    var n := NextOf(hdr, o, H);
    var w' := Walk(hdr, T, usage, H, n);
    assert Walk(hdr, T, usage, H, o) == [o] + w';
    if i > 0 {
      WalkLandsOnUsage(hdr, T, usage, H, n, i - 1);
    }
  }

  /** `n` steps along the `next` pointers. */
  ghost function Follow(hdr: seq<Chunk>, c: int, n: nat): int
    decreases n
  {
    if n == 0 || !(0 <= c < |hdr|) then c else Follow(hdr, hdr[c].next, n - 1)
  }

  /** `n` steps back along the `prev` pointers. */
  ghost function FollowBack(hdr: seq<Chunk>, c: int, n: nat): int
    decreases n
  {
    if n == 0 || !(0 <= c < |hdr|) then c else FollowBack(hdr, hdr[c].prev, n - 1)
  }

  lemma {:induction false} FollowReaches(hdr: seq<Chunk>, fl: seq<nat>, head: int, i: nat, n: nat)
    requires Linked(hdr, fl, head) && i + n <= |fl|
    ensures Follow(hdr, At(fl, i), n) == At(fl, i + n)
    decreases n
  {
    if n > 0 {
      FollowReaches(hdr, fl, head, i + 1, n - 1);
    }
  }

  lemma {:induction false} FollowBackReaches(hdr: seq<Chunk>, fl: seq<nat>, head: int, i: nat, n: nat)
    requires Linked(hdr, fl, head) && n <= i < |fl|
    ensures FollowBack(hdr, fl[i], n) == fl[i - n]
    decreases n
  {
    if n > 0 {
      FollowBackReaches(hdr, fl, head, i - 1, n - 1);
    }
  }

  /** The free list is acyclic: `next` leads from the head through its entries and reaches NULL after
      exactly |fl| steps, never earlier; `prev` leads back; no entry is met twice. */
  lemma FreeListIsAcyclic(hdr: seq<Chunk>, fl: seq<nat>, head: int, j: nat, k: nat)
    requires Linked(hdr, fl, head) && j < k <= |fl|
    ensures Follow(hdr, head, k) == NULL <==> k == |fl|
    ensures Follow(hdr, head, j) != Follow(hdr, head, k)
    ensures FollowBack(hdr, Follow(hdr, head, j), j) == head
  {
    FollowReaches(hdr, fl, head, 0, j);
    FollowReaches(hdr, fl, head, 0, k);
    FollowBackReaches(hdr, fl, head, j, j);
  }

  /** Following the list meets exactly the unallocated tiles. */
  lemma FreeListIsComplete(hdr: seq<Chunk>, T: set<nat>, fl: seq<nat>, head: int, usage: nat, H: nat, o: nat)
    requires Tiled(hdr, T, usage, H) && Linked(hdr, fl, head) && Owned(hdr, T, fl, NULL)
    ensures (o in T && !hdr[o].used) <==> exists k: nat :: k < |fl| && Follow(hdr, head, k) == o
  {
    if o in T && !hdr[o].used {
      assert OwnedAt(hdr, fl, o);
      var k: nat :| k < |fl| && fl[k] == o;
      FollowReaches(hdr, fl, head, 0, k);
    }
    if k: nat :| k < |fl| && Follow(hdr, head, k) == o {
      FollowReaches(hdr, fl, head, 0, k);
      assert fl[k] in fl && OwnedAt(hdr, fl, fl[k]);
    }
  }

  /** If every free tile is settled, no two free tiles are adjacent in memory. */
  ghost predicate NoAdjacentFree(hdr: seq<Chunk>, T: set<nat>, H: nat)
    requires forall o {:trigger o in T} :: o in T ==> o < |hdr|
  {
    forall o, p {:trigger NextOf(hdr, o, H), p in T} :: o in T && p in T && NextOf(hdr, o, H) == p ==>
      hdr[o].used || hdr[p].used
  }

  lemma SettledMeansNoAdjacentFree(hdr: seq<Chunk>, T: set<nat>, fl: seq<nat>, usage: nat, H: nat)
    requires Tiled(hdr, T, usage, H) && Owned(hdr, T, fl, NULL)
    requires forall o {:trigger o in fl} :: o in fl ==> Settled(hdr, o, usage, H)
    ensures NoAdjacentFree(hdr, T, H)
  {
    forall o, p | o in T && p in T && NextOf(hdr, o, H) == p
      ensures hdr[o].used || hdr[p].used
    {
      if !hdr[o].used {
        assert OwnedAt(hdr, fl, o) && Fits(hdr, p, usage, H);
      }
    }
  }

  lemma {:induction false} DistinctSize(fl: seq<nat>)
    requires forall i, j :: 0 <= i < j < |fl| ==> fl[i] != fl[j]
    ensures |Elements(fl)| == |fl|
  {
    if fl == [] {
      assert Elements(fl) == {};
    } else {
      var rest := fl[1..];
      DistinctSize(rest);
      assert Elements(fl) == {fl[0]} + Elements(rest);
      assert fl[0] !in rest;
    }
  }
}
