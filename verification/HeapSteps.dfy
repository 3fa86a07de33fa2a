/**
 What the steps of os/lib/heapmem.c do to the two views: linking and unlinking, splitting and merging, taking chunks
 from the end of the footprint and giving them back.
 */
module HeapSteps {
  import opened HeapLayout

  // -------------------------------------------------------- steps on the views

  /** Removing the entry at `k`. */
  function Without(fl: seq<nat>, k: nat): seq<nat>
    requires k < |fl|
  {
    fl[..k] + fl[k + 1..]
  }

  lemma WithoutElements(fl: seq<nat>, k: nat)
    requires k < |fl| && forall i, j :: 0 <= i < j < |fl| ==> fl[i] != fl[j]
    ensures forall o :: o in Without(fl, k) <==> o in fl && o != fl[k]
  {
    var g := Without(fl, k);
    forall o
      ensures o in g <==> o in fl && o != fl[k]
    {
      if o in fl && o != fl[k] {
        var i :| 0 <= i < |fl| && fl[i] == o;
        assert g[if i < k then i else i - 1] == o;
      }
    }
  }

  /** The headers after unlinking the chunk at `c`. */
  function Unlink(hdr: seq<Chunk>, c: nat): (hdr': seq<Chunk>)
    requires c < |hdr|
    ensures SameTags(hdr, hdr')
  {
    var p, n := hdr[c].prev, hdr[c].next;
    var h := if 0 <= p < |hdr| then hdr[p := hdr[p].(next := n)] else hdr;
    if 0 <= n < |hdr| then h[n := h[n].(prev := p)] else h
  }

  /** The headers after pushing the chunk at `c` on the list that starts at `head`. */
  function Push(hdr: seq<Chunk>, c: nat, head: int): (hdr': seq<Chunk>)
    requires c < |hdr|
    ensures SameTags(hdr, hdr')
  {
    var h := hdr[c := hdr[c].(prev := NULL, next := head)];
    if 0 <= head < |hdr| then h[head := h[head].(prev := c)] else h
  }

  lemma LinkedAt(hdr: seq<Chunk>, fl: seq<nat>, head: int, k: nat)
    requires Linked(hdr, fl, head) && k < |fl|
    ensures hdr[fl[k]].prev == At(fl, k - 1) && hdr[fl[k]].next == At(fl, k + 1)
    ensures k > 0 ==> fl[k - 1] < |hdr| && fl[k - 1] != fl[k]
    ensures k + 1 < |fl| ==> fl[k + 1] < |hdr| && fl[k + 1] != fl[k]
    ensures 0 < k && k + 1 < |fl| ==> fl[k - 1] != fl[k + 1]
    ensures fl[k] == head <==> k == 0
  {
  }

  lemma UnlinkKeepsLinks(hdr: seq<Chunk>, fl: seq<nat>, head: int, k: nat)
    requires Linked(hdr, fl, head) && k < |fl|
    ensures Linked(Unlink(hdr, fl[k]), Without(fl, k), if k == 0 then hdr[fl[k]].next else head)
  {
    var c := fl[k];
    LinkedAt(hdr, fl, head, k);
    var h := Unlink(hdr, c);
    var g := Without(fl, k);
    forall i {:trigger h[g[i]]} | 0 <= i < |g|
      ensures h[g[i]].prev == At(g, i - 1) && h[g[i]].next == At(g, i + 1)
    {
      var j := if i < k then i else i + 1;
      assert g[i] == fl[j];
      LinkedAt(hdr, fl, head, j);
    }
  }

  lemma TagsKeepLinks(hdr: seq<Chunk>, hdr': seq<Chunk>, fl: seq<nat>, head: int)
    requires Linked(hdr, fl, head) && |hdr'| == |hdr|
    requires forall o {:trigger o in fl} :: o in fl ==> hdr'[o].prev == hdr[o].prev && hdr'[o].next == hdr[o].next
    ensures Linked(hdr', fl, head)
  {
    forall i {:trigger hdr'[fl[i]]} | 0 <= i < |fl|
      ensures hdr'[fl[i]].prev == At(fl, i - 1) && hdr'[fl[i]].next == At(fl, i + 1)
    {
      assert fl[i] in fl;
      LinkedAt(hdr, fl, head, i);
    }
  }

  lemma PushKeepsLinks(hdr: seq<Chunk>, fl: seq<nat>, head: int, c: nat)
    requires Linked(hdr, fl, head) && c < |hdr| && c !in fl
    ensures Linked(Push(hdr, c, head), [c] + fl, c)
  {
    assert fl != [] ==> fl[0] in fl;
    var h := Push(hdr, c, head);
    var g := [c] + fl;
    forall i {:trigger h[g[i]]} | 0 <= i < |g|
      ensures h[g[i]].prev == At(g, i - 1) && h[g[i]].next == At(g, i + 1)
    {
      if i > 0 {
        assert g[i] == fl[i - 1] && fl[i - 1] in fl;
        LinkedAt(hdr, fl, head, i - 1);
      }
    }
  }

  /** Merging the tile at `c` with the tile after it. */
  lemma MergeTiles(hdr: seq<Chunk>, hdr': seq<Chunk>, T: set<nat>, usage: nat, H: nat, c: nat)
    requires Tiled(hdr, T, usage, H)
    requires c in T && NextOf(hdr, c, H) in T && TagsExcept(hdr, hdr', {c})
    requires hdr'[c].size == hdr[c].size + H + hdr[NextOf(hdr, c, H)].size
    ensures Tiled(hdr', T - {NextOf(hdr, c, H)}, usage, H)
  {
    var n := NextOf(hdr, c, H);
    var T' := T - {n};
    assert Fits(hdr, c, usage, H) && Fits(hdr, n, usage, H);
    forall o {:trigger Fits(hdr', o, usage, H)} | o in T'
      ensures Fits(hdr', o, usage, H)
    {
      assert Fits(hdr, o, usage, H) && (o != c ==> TagsAt(hdr, hdr', o));
    }
    forall o {:trigger NextOf(hdr', o, H)} | o in T'
      ensures NextOf(hdr', o, H) == usage || NextOf(hdr', o, H) in T'
    {
      if o == c {
        assert NextOf(hdr', c, H) == NextOf(hdr, n, H);
      } else {
        assert TagsAt(hdr, hdr', o) && NextOf(hdr', o, H) == NextOf(hdr, o, H);
        assert Apart(hdr, o, c, H) && Apart(hdr, c, o, H) && Fits(hdr, o, usage, H);
      }
    }
    forall o, p {:trigger Apart(hdr', o, p, H)} | o in T' && p in T'
      ensures Apart(hdr', o, p, H)
    {
      assert Apart(hdr, o, p, H) && Apart(hdr, n, p, H) && (o != c ==> TagsAt(hdr, hdr', o));
    }
  }

  /** Splitting the tile at `c` so that it keeps `a` bytes. */
  lemma SplitTiles(hdr: seq<Chunk>, hdr': seq<Chunk>, T: set<nat>, usage: nat, H: nat, c: nat, a: nat)
    requires H > 0 && Tiled(hdr, T, usage, H)
    requires c in T && 0 < a && a + H < hdr[c].size && c + H + a < |hdr|
    requires TagsExcept(hdr, hdr', {c, c + H + a})
    requires hdr'[c].size == a && hdr'[c + H + a].size == hdr[c].size - H - a
    ensures c + H + a !in T
    ensures NextOf(hdr', c + H + a, H) == NextOf(hdr, c, H)
    ensures Tiled(hdr', T + {c + H + a}, usage, H)
  {
    var n := c + H + a;
    var T' := T + {n};
    assert Fits(hdr, c, usage, H) && (n in T ==> Apart(hdr, c, n, H));
    assert NextOf(hdr', n, H) == NextOf(hdr, c, H);
    forall o {:trigger Fits(hdr', o, usage, H)} | o in T'
      ensures Fits(hdr', o, usage, H)
    {
      assert o != c && o != n ==> Fits(hdr, o, usage, H) && TagsAt(hdr, hdr', o);
    }
    forall o {:trigger NextOf(hdr', o, H)} | o in T'
      ensures NextOf(hdr', o, H) == usage || NextOf(hdr', o, H) in T'
    {
      if o == c {
        assert NextOf(hdr', c, H) == n;
      } else if o != n {
        assert TagsAt(hdr, hdr', o) && NextOf(hdr', o, H) == NextOf(hdr, o, H);
      }
    }
    forall o, p {:trigger Apart(hdr', o, p, H)} | o in T' && p in T'
      ensures Apart(hdr', o, p, H)
    {
      if o in T {
        assert Apart(hdr, o, c, H) && Apart(hdr, c, o, H) && (o != c ==> TagsAt(hdr, hdr', o));
        assert p in T ==> Apart(hdr, o, p, H);
      } else {
        assert p in T ==> Apart(hdr, c, p, H);
      }
    }
  }

  /** Giving the last tile back to the unused end of the arena. */
  lemma DropLastTile(hdr: seq<Chunk>, T: set<nat>, usage: nat, H: nat, c: nat)
    requires Tiled(hdr, T, usage, H) && c in T && NextOf(hdr, c, H) == usage
    ensures Tiled(hdr, T - {c}, c, H)
  {
    var T' := T - {c};
    assert Fits(hdr, c, usage, H);
    forall o {:trigger NextOf(hdr, o, H)} | o in T'
      ensures NextOf(hdr, o, H) == c || NextOf(hdr, o, H) in T'
    {
      assert Fits(hdr, o, usage, H) && Apart(hdr, o, c, H) && Apart(hdr, c, o, H);
    }
    forall o {:trigger Fits(hdr, o, c, H)} | o in T'
      ensures Fits(hdr, o, c, H)
    {
      assert Fits(hdr, o, usage, H) && Apart(hdr, o, c, H) && Apart(hdr, c, o, H);
    }
    if c > 0 {
      assert Fits(hdr, 0, usage, H);
    }
  }

  /** Putting a new tile at the end of the footprint. */
  lemma AppendTile(hdr: seq<Chunk>, hdr': seq<Chunk>, T: set<nat>, usage: nat, H: nat)
    requires Tiled(hdr, T, usage, H) && usage < |hdr| && TagsExcept(hdr, hdr', {usage})
    requires hdr'[usage].size > 0 && usage + H + hdr'[usage].size <= |hdr|
    ensures usage !in T
    ensures Tiled(hdr', T + {usage}, NextOf(hdr', usage, H), H)
  {
    var T' := T + {usage};
    var usage' := NextOf(hdr', usage, H);
    assert usage in T ==> Fits(hdr, usage, usage, H);
    forall o {:trigger Fits(hdr', o, usage', H)} | o in T'
      ensures Fits(hdr', o, usage', H)
    {
      assert o != usage ==> Fits(hdr, o, usage, H) && TagsAt(hdr, hdr', o);
    }
    forall o {:trigger NextOf(hdr', o, H)} | o in T'
      ensures NextOf(hdr', o, H) == usage' || NextOf(hdr', o, H) in T'
    {
      assert o != usage ==> TagsAt(hdr, hdr', o) && NextOf(hdr', o, H) == NextOf(hdr, o, H);
    }
    forall o, p {:trigger Apart(hdr', o, p, H)} | o in T' && p in T'
      ensures Apart(hdr', o, p, H)
    {
      assert o != usage ==> Fits(hdr, o, usage, H) && TagsAt(hdr, hdr', o);
      assert p != usage ==> Fits(hdr, p, usage, H);
      assert o != usage && p != usage ==> Apart(hdr, o, p, H);
    }
  }

  /** Making the last tile longer. */
  lemma StretchLastTile(hdr: seq<Chunk>, hdr': seq<Chunk>, T: set<nat>, usage: nat, H: nat, c: nat)
    requires Tiled(hdr, T, usage, H) && c in T && NextOf(hdr, c, H) == usage && TagsExcept(hdr, hdr', {c})
    requires hdr'[c].size >= hdr[c].size && NextOf(hdr', c, H) <= |hdr|
    ensures Tiled(hdr', T, NextOf(hdr', c, H), H)
  {
    var usage' := NextOf(hdr', c, H);
    assert Fits(hdr, c, usage, H);
    forall o {:trigger Fits(hdr', o, usage', H)} | o in T
      ensures Fits(hdr', o, usage', H)
    {
      assert o != c ==> Fits(hdr, o, usage, H) && TagsAt(hdr, hdr', o);
    }
    forall o {:trigger NextOf(hdr', o, H)} | o in T
      ensures NextOf(hdr', o, H) == usage' || NextOf(hdr', o, H) in T
    {
      assert o != c ==> TagsAt(hdr, hdr', o) && NextOf(hdr', o, H) == NextOf(hdr, o, H);
      assert Apart(hdr, o, c, H) && Apart(hdr, c, o, H) && Fits(hdr, o, usage, H);
    }
    forall o, p {:trigger Apart(hdr', o, p, H)} | o in T && p in T
      ensures Apart(hdr', o, p, H)
    {
      assert Apart(hdr, o, p, H) && Fits(hdr, p, usage, H) && (o != c ==> TagsAt(hdr, hdr', o));
    }
  }

  /** Only sizes matter for the tiling. */
  lemma SameTiles(hdr: seq<Chunk>, hdr': seq<Chunk>, T: set<nat>, usage: nat, H: nat, c: nat)
    requires Tiled(hdr, T, usage, H) && c < |hdr| && TagsExcept(hdr, hdr', {c}) && hdr'[c].size == hdr[c].size
    ensures Tiled(hdr', T, usage, H)
  {
    forall o {:trigger Fits(hdr', o, usage, H)} | o in T
      ensures Fits(hdr', o, usage, H)
    {
      assert Fits(hdr, o, usage, H) && (o != c ==> TagsAt(hdr, hdr', o));
    }
    forall o {:trigger NextOf(hdr', o, H)} | o in T
      ensures NextOf(hdr', o, H) == usage || NextOf(hdr', o, H) in T
    {
      assert (o != c ==> TagsAt(hdr, hdr', o)) && NextOf(hdr', o, H) == NextOf(hdr, o, H);
    }
    forall o, p {:trigger Apart(hdr', o, p, H)} | o in T && p in T
      ensures Apart(hdr', o, p, H)
    {
      assert Apart(hdr, o, p, H) && (o != c ==> TagsAt(hdr, hdr', o));
    }
  }

  /** Alignment of the tiles when the one at `c` is resized and one at `n` is added or dropped. */
  lemma AlignedAfter(hdr: seq<Chunk>, hdr': seq<Chunk>, T: set<nat>, T': set<nat>, usage: nat, usage': nat, A: nat,
      c: nat, n: nat)
    requires A > 0 && Aligned(hdr, T, usage, A) && TagsExcept(hdr, hdr', {c, n})
    requires T' <= T + {c, n} && Multiple(usage', A)
    requires c in T' ==> AlignedAt(hdr', c, A)
    requires n in T' ==> AlignedAt(hdr', n, A)
    ensures Aligned(hdr', T', usage', A)
  {
    forall o {:trigger AlignedAt(hdr', o, A)} | o in T'
      ensures AlignedAt(hdr', o, A)
    {
      if o != c && o != n {
        assert o in T + {c, n};
        assert AlignedAt(hdr, o, A) && TagsAt(hdr, hdr', o);
      }
    }
  }

  /** The two parts of a split chunk are aligned. */
  lemma SplitSizes(c: nat, H: nat, a: nat, size: nat, A: nat)
    requires A > 0 && Multiple(c, A) && Multiple(H, A) && Multiple(a, A) && Multiple(size, A)
    requires a + H < size
    ensures Multiple(c + H + a, A) && Multiple(size - H - a, A)
  {
    MultipleAdd(c, H, A);
    MultipleAdd(c + H, a, A);
    MultipleSub(size, H, A);
    MultipleSub(size - H, a, A);
  }

  lemma SplitParts(h: seq<Chunk>, h': seq<Chunk>, H: nat, A: nat, c: nat, a: nat)
    requires A > 0 && Multiple(H, A) && AlignedAt(h, c, A) && Multiple(a, A) && a + H < h[c].size
    requires c + H + a < |h'| && h'[c].size == a && h'[c + H + a].size == h[c].size - H - a
    ensures AlignedAt(h', c, A) && AlignedAt(h', c + H + a, A) && Multiple(c + H + a, A)
  {
    SplitSizes(c, H, a, h[c].size, A);
  }

  // --------------------------------------------- steps on the whole invariant

  /** The tiling part of the allocator's invariant. */
  ghost predicate Laid(h: seq<Chunk>, T: set<nat>, usage: nat, fl: seq<nat>, H: nat, A: nat, limbo: int)
    requires A > 0
  {
    Tiled(h, T, usage, H) && Aligned(h, T, usage, A) && Owned(h, T, fl, limbo)
  }

  lemma AlignedSplit(h: seq<Chunk>, h': seq<Chunk>, T: set<nat>, usage: nat, H: nat, A: nat, c: nat, a: nat)
    requires A > 0 && Multiple(H, A) && Aligned(h, T, usage, A)
    requires c in T && c < |h| && Multiple(a, A) && a + H < h[c].size && c + H + a < |h|
    requires TagsExcept(h, h', {c, c + H + a}) && h'[c].size == a && h'[c + H + a].size == h[c].size - H - a
    ensures Aligned(h', T + {c + H + a}, usage, A) && Aligned(h', T, c + H + a, A)
  {
    var n := c + H + a;
    assert AlignedAt(h, c, A);
    SplitParts(h, h', H, A, c, a);
    AlignedAfter(h, h', T, T + {n}, usage, usage, A, c, n);
    AlignedAfter(h, h', T, T, usage, n, A, c, n);
  }

  /** Ownership when a free tile `n` is added at the front of the list. */
  lemma OwnedAfterPush(h: seq<Chunk>, h': seq<Chunk>, T: set<nat>, fl: seq<nat>, limbo: int, c: nat, n: nat)
    requires Owned(h, T, fl, limbo) && n < |h| && c < |h|
    requires TagsExcept(h, h', {c, n}) && n !in T && limbo != n && c in T && h'[c].used == h[c].used && !h'[n].used
    ensures Owned(h', T + {n}, [n] + fl, limbo)
    ensures Owned(h', T, fl, limbo)
  {
    var g := [n] + fl;
    assert forall o :: o in g <==> o == n || o in fl;
    forall o | o in T && o != limbo
      ensures OwnedAt(h', fl, o) && OwnedAt(h', g, o)
    {
      assert OwnedAt(h, fl, o) && (o != c ==> TagsAt(h, h', o));
    }
  }

  lemma KeptWhenSplit(h: seq<Chunk>, h': seq<Chunk>, T: set<nat>, c: nat, n: nat)
    requires n < |h| && c < |h| && n !in T && TagsExcept(h, h', {c, n}) && !h'[n].used
    ensures KeptExcept(h, T, h', T + {n}, c) && KeptExcept(h, T, h', T, c)
  {
    forall o: int | o != c
      ensures LiveAt(h, T, o) <==> LiveAt(h', T + {n}, o)
      ensures LiveAt(h, T, o) <==> LiveAt(h', T, o)
      ensures LiveAt(h, T, o) ==> h[o].size == h'[o].size
    {
      assert 0 <= o < |h| && o != n ==> TagsAt(h, h', o);
    }
  }

  /** The tiles after a split: the rest is a new free tile unless it was at the end of the footprint. */
  lemma SplitLaid(h: seq<Chunk>, h': seq<Chunk>, T: set<nat>, T': set<nat>, usage: nat, usage': nat,
                  fl: seq<nat>, fl': seq<nat>, H: nat, A: nat, limbo: int, c: nat, a: nat)
    requires H > 0 && A > 0 && Multiple(H, A) && Laid(h, T, usage, fl, H, A, limbo)
    requires c in T && 0 < a && Multiple(a, A) && a + H < h[c].size && (limbo == c || limbo == NULL) && c + H + a < |h|
    requires TagsExcept(h, h', {c, c + H + a}) && h'[c].size == a && h'[c].used == h[c].used
    requires h'[c + H + a].size == h[c].size - H - a && !h'[c + H + a].used
    requires if NextOf(h, c, H) == usage then usage' == c + H + a && fl' == fl && T' == T
             else usage' == usage && fl' == [c + H + a] + fl && T' == T + {c + H + a}
    ensures Laid(h', T', usage', fl', H, A, limbo) && KeptExcept(h, T, h', T', c)
  {
    var n := c + H + a;
    SplitTiles(h, h', T, usage, H, c, a);
    AlignedSplit(h, h', T, usage, H, A, c, a);
    OwnedAfterPush(h, h', T, fl, limbo, c, n);
    KeptWhenSplit(h, h', T, c, n);
    if NextOf(h, c, H) == usage {
      DropLastTile(h', T + {n}, usage, H, n);
      assert T + {n} - {n} == T;
    }
  }

  /** `k` is the position of `c` on the list, or NULL when `c` is not on it. */
  ghost predicate PosOf(fl: seq<nat>, k: int, c: nat)
  {
    if k == NULL then c !in fl else 0 <= k < |fl| && fl[k] == c
  }

  /** The entries before position `k`. */
  ghost function Before(fl: seq<nat>, k: int): set<nat>
  {
    if 0 <= k <= |fl| then Elements(fl[..k]) else {}
  }

  lemma PosAfterRemoval(fl: seq<nat>, j: nat, k: int, c: nat)
    requires j < |fl| && PosOf(fl, k, c) && fl[j] != c
    requires forall i, i' :: 0 <= i < i' < |fl| ==> fl[i] != fl[i']
    ensures var k' := if k > j then k - 1 else k;
            PosOf(Without(fl, j), k', c) && Before(Without(fl, j), k') == Before(fl, k) * Elements(Without(fl, j))
    ensures Elements(Without(fl, j)) <= Elements(fl)
  {
    WithoutElements(fl, j);
    var g := Without(fl, j);
    if k != NULL {
      if k > j {
        assert g[..k - 1] == Without(fl[..k], j);
        WithoutElements(fl[..k], j);
      } else {
        assert g[..k] == fl[..k];
      }
    }
  }

  /** Merging the tile at `c` with the free tile after it, which leaves the list. */
  lemma MergeLaid(h: seq<Chunk>, h': seq<Chunk>, T: set<nat>, usage: nat, fl: seq<nat>, H: nat, A: nat, c: nat, j: nat)
    requires H > 0 && A > 0 && Multiple(H, A) && Laid(h, T, usage, fl, H, A, NULL)
    requires c in T && NextOf(h, c, H) in T && j < |fl| && fl[j] == NextOf(h, c, H)
    requires forall i, i' :: 0 <= i < i' < |fl| ==> fl[i] != fl[i']
    requires TagsExcept(h, h', {c}) && h'[c].used == h[c].used
    requires h'[c].size == h[c].size + H + h[NextOf(h, c, H)].size
    ensures Laid(h', T - {NextOf(h, c, H)}, usage, Without(fl, j), H, A, NULL)
    ensures KeptExcept(h, T, h', T - {NextOf(h, c, H)}, c)
  {
    var n := NextOf(h, c, H);
    var T' := T - {n};
    assert AlignedAt(h, c, A) && AlignedAt(h, n, A);
    MergeTiles(h, h', T, usage, H, c);
    MultipleAdd(h[c].size, H, A);
    MultipleAdd(h[c].size + H, h[n].size, A);
    assert AlignedAt(h', c, A);
    AlignedAfter(h, h', T, T', usage, usage, A, c, c);
    OwnedAfterMerge(h, h', T, fl, c, j);
  }

  lemma OwnedAfterMerge(h: seq<Chunk>, h': seq<Chunk>, T: set<nat>, fl: seq<nat>, c: nat, j: nat)
    requires Owned(h, T, fl, NULL) && c < |h| && j < |fl|
    requires forall i, i' :: 0 <= i < i' < |fl| ==> fl[i] != fl[i']
    requires TagsExcept(h, h', {c}) && h'[c].used == h[c].used
    ensures Owned(h', T - {fl[j]}, Without(fl, j), NULL)
    ensures KeptExcept(h, T, h', T - {fl[j]}, c)
  {
    var n := fl[j];
    var g := Without(fl, j);
    WithoutElements(fl, j);
    assert n in fl && OwnedAt(h, fl, n);
    forall o | o in T - {n}
      ensures OwnedAt(h', g, o)
    {
      assert OwnedAt(h, fl, o) && (o != c ==> TagsAt(h, h', o));
    }
    forall o: int | o != c
      ensures LiveAt(h, T, o) <==> LiveAt(h', T - {n}, o)
      ensures LiveAt(h, T, o) ==> h[o].size == h'[o].size
    {
      assert 0 <= o < |h| ==> TagsAt(h, h', o);
    }
  }

  /** The end of the run of free chunks that begins at `p`; `p` itself if there is none. */
  ghost function FreeRunEnd(h: seq<Chunk>, usage: nat, H: nat, p: nat): (e: nat)
    requires usage <= |h| && H > 0
    ensures e >= p
    decreases if p < usage then usage - p else 0
  {
    if p < usage && !h[p].used then FreeRunEnd(h, usage, H, NextOf(h, p, H)) else p
  }

  lemma {:induction false} FreeRunSame(h: seq<Chunk>, h': seq<Chunk>, usage: nat, H: nat, c: nat, p: nat)
    requires usage <= |h| && H > 0 && TagsExcept(h, h', {c}) && p > c
    ensures FreeRunEnd(h, usage, H, p) == FreeRunEnd(h', usage, H, p)
    decreases if p < usage then usage - p else 0
  {
    if p < usage {
      assert TagsAt(h, h', p);
      if !h[p].used {
        FreeRunSame(h, h', usage, H, c, NextOf(h, p, H));
      }
    }
  }

  /** One more free chunk of the run is merged into the chunk at `c`. */
  lemma FreeRunNext(h: seq<Chunk>, h': seq<Chunk>, usage: nat, H: nat, c: nat, n: nat)
    requires usage <= |h| && H > 0 && TagsExcept(h, h', {c}) && c < n < usage && !h[n].used
    ensures NextOf(h', n, H) == NextOf(h, n, H)
    ensures FreeRunEnd(h', usage, H, NextOf(h', n, H)) == FreeRunEnd(h, usage, H, n)
  {
    assert TagsAt(h, h', n);
    FreeRunSame(h, h', usage, H, c, NextOf(h, n, H));
  }

  /** The tile at `c` has merged with tiles after it, and nothing else has changed. */
  ghost predicate Merged(h: seq<Chunk>, T: set<nat>, h': seq<Chunk>, T': set<nat>, usage: nat, H: nat, c: nat)
  {
    && H > 0 && c < |h| == |h'| && usage <= |h|
    && TagsExcept(h, h', {c}) && h'[c].used == h[c].used && h'[c].size >= h[c].size
    && FreeRunEnd(h', usage, H, NextOf(h', c, H)) == FreeRunEnd(h, usage, H, NextOf(h, c, H))
    && T' <= T && c in T' && (forall o {:trigger o in T'} :: o in T && o <= c ==> o in T')
    && KeptExcept(h, T, h', T', c)
  }

  lemma MergedNone(h: seq<Chunk>, T: set<nat>, usage: nat, H: nat, c: nat)
    requires H > 0 && c < |h| && usage <= |h| && c in T
    ensures Merged(h, T, h, T, usage, H, c)
  {
  }

  lemma MergedOne(h: seq<Chunk>, T: set<nat>, h': seq<Chunk>, T': set<nat>, usage: nat, H: nat, c: nat, n: nat)
    requires H > 0 && c < n < usage <= |h| && n == NextOf(h, c, H) && !h[n].used && c in T && T' == T - {n}
    requires TagsExcept(h, h', {c}) && h'[c].used == h[c].used && h'[c].size == h[c].size + H + h[n].size
    requires KeptExcept(h, T, h', T', c)
    ensures Merged(h, T, h', T', usage, H, c) && NextOf(h, n, H) == NextOf(h', n, H) == NextOf(h', c, H)
  {
    FreeRunNext(h, h', usage, H, c, n);
  }

  lemma MergedTrans(h: seq<Chunk>, T: set<nat>, h': seq<Chunk>, T': set<nat>, h'': seq<Chunk>, T'': set<nat>,
                    usage: nat, H: nat, c: nat)
    requires Merged(h, T, h', T', usage, H, c) && Merged(h', T', h'', T'', usage, H, c)
    ensures Merged(h, T, h'', T'', usage, H, c)
  {
    TagsCompose(h, h', h'', {c}, {c});
    assert {c} + {c} == {c};
    KeptTrans(h, T, h', T', h'', T'', c);
    forall o {:trigger o in T''} | o in T && o <= c
      ensures o in T''
    {
      assert o in T';
    }
  }

  /** The list has lost entries; `c` was at `k` and is at `k'` now, or on neither. */
  ghost predicate Thinned(fl: seq<nat>, k: int, fl': seq<nat>, k': int, c: nat)
  {
    && PosOf(fl', k', c) && Before(fl', k') == Before(fl, k) * Elements(fl') && Elements(fl') <= Elements(fl)
    && (k' == NULL <==> k == NULL)
  }

  lemma ThinnedNone(fl: seq<nat>, k: int, c: nat)
    requires PosOf(fl, k, c)
    ensures Thinned(fl, k, fl, k, c)
  {
    if k != NULL {
      assert forall o :: o in fl[..k] ==> o in fl;
    }
  }

  lemma ThinnedTrans(fl: seq<nat>, k: int, fl': seq<nat>, k': int, fl'': seq<nat>, k'': int, c: nat)
    requires Thinned(fl, k, fl', k', c) && Thinned(fl', k', fl'', k'', c)
    ensures Thinned(fl, k, fl'', k'', c)
  {
  }

  /** The object in the chunk at `c` can have `size` bytes where it is: in its chunk, in the unused end of the arena if
      it is the last one, or else in the free chunks right after it. */
  ghost predicate FitsInPlace(h: seq<Chunk>, usage: nat, arena: nat, H: nat, c: nat, size: nat)
    requires usage <= |h| && H > 0 && c < |h|
  {
    c + H + size <= if NextOf(h, c, H) == usage then arena else FreeRunEnd(h, usage, H, NextOf(h, c, H))
  }

  lemma SettledKept(h: seq<Chunk>, h': seq<Chunk>, usage: nat, H: nat, c: nat, x: nat)
    requires TagsExcept(h, h', {c}) && c < |h| && h'[c].used == h[c].used && x < |h| && x != c
    requires Settled(h, x, usage, H)
    ensures Settled(h', x, usage, H)
  {
    assert TagsAt(h, h', x);
    var n := NextOf(h, x, H);
    assert n < |h| && n != c ==> TagsAt(h, h', n);
  }

  /** Merging into a free tile changes no object. */
  lemma KeptWhenFree(h: seq<Chunk>, T: set<nat>, h': seq<Chunk>, T': set<nat>, c: nat)
    requires KeptExcept(h, T, h', T', c) && c < |h| == |h'| && !h[c].used && !h'[c].used
    ensures KeptExcept(h, T, h', T', NULL)
  {
  }

  lemma KeptTrans(h: seq<Chunk>, T: set<nat>, h': seq<Chunk>, T': set<nat>, h'': seq<Chunk>, T'': set<nat>, c: int)
    requires KeptExcept(h, T, h', T', NULL) || KeptExcept(h, T, h', T', c)
    requires KeptExcept(h', T', h'', T'', c)
    ensures KeptExcept(h, T, h'', T'', c)
  {
    forall o: int | o != c
      ensures LiveAt(h, T, o) <==> LiveAt(h'', T'', o)
      ensures LiveAt(h, T, o) ==> h[o].size == h''[o].size
    {
      assert o == NULL || (LiveAt(h, T, o) <==> LiveAt(h', T', o));
      assert LiveAt(h', T', o) <==> LiveAt(h'', T'', o);
    }
  }

  /** The bytes of every object but the one at `c` are the same. */
  ghost predicate BytesKept<B>(h: seq<Chunk>, T: set<nat>, H: nat, m: seq<B>, m': seq<B>, c: int)
  {
    |m| == |m'| && forall o: int, i {:trigger LiveAt(h, T, o), m'[i]} ::
      LiveAt(h, T, o) && o != c && o + H <= i < o + H + h[o].size && i < |m| ==> m[i] == m'[i]
  }

  lemma BytesKeptTrans<B>(h: seq<Chunk>, T: set<nat>, h': seq<Chunk>, T': set<nat>, H: nat, m: seq<B>, m': seq<B>,
      m'': seq<B>, c: int)
    requires BytesKept(h, T, H, m, m', NULL) || BytesKept(h, T, H, m, m', c)
    requires BytesKept(h', T', H, m', m'', NULL) || BytesKept(h', T', H, m', m'', c)
    requires KeptExcept(h, T, h', T', NULL) || KeptExcept(h, T, h', T', c)
    ensures BytesKept(h, T, H, m, m'', c)
  {
    forall o: int, i {:trigger LiveAt(h, T, o), m''[i]} |
        LiveAt(h, T, o) && o != c && o + H <= i < o + H + h[o].size && i < |m|
      ensures m[i] == m''[i]
    {
      assert LiveAt(h', T', o) && m[i] == m'[i];
    }
  }

  /** Header writes that stay clear of the objects, except perhaps the one at `c`, change no other object's bytes. */
  lemma ClearWritesKeepBytes<B>(h: seq<Chunk>, T: set<nat>, H: nat, m: seq<B>, m': seq<B>, W: set<nat>, c: int)
    requires SameBytes(m, m', W, H)
    requires forall o: int {:trigger LiveAt(h, T, o)} :: LiveAt(h, T, o) && o != c ==> Clear(W, H, o + H, h[o].size)
    ensures BytesKept(h, T, H, m, m', c)
  {
    forall o: int, i {:trigger LiveAt(h, T, o), m'[i]} |
        LiveAt(h, T, o) && o != c && o + H <= i < o + H + h[o].size && i < |m|
      ensures m[i] == m'[i]
    {
      assert Clear(W, H, o + H, h[o].size);
      assert Clear(W, H, i, 1);
    }
  }

  /** Writes to the headers of tiles change no object's bytes. */
  lemma HeaderWritesKeepBytes<B>(h: seq<Chunk>, T: set<nat>, usage: nat, H: nat, m: seq<B>, m': seq<B>)
    requires Tiled(h, T, usage, H) && SameBytes(m, m', T, H)
    ensures BytesKept(h, T, H, m, m', NULL)
  {
    forall o: int {:trigger LiveAt(h, T, o)} | LiveAt(h, T, o)
      ensures Clear(T, H, o + H, h[o].size)
    {
      PayloadClear(h, T, usage, H, o);
    }
    ClearWritesKeepBytes(h, T, H, m, m', T, NULL);
  }

  /** So do writes to a header inside the payload of the tile at `c`, whose first `a` bytes stay too. */
  lemma SplitWritesKeepBytes<B>(h: seq<Chunk>, T: set<nat>, usage: nat, H: nat, m: seq<B>, m': seq<B>, c: nat, a: nat)
    requires Tiled(h, T, usage, H) && usage <= |m| && c in T && a + H < h[c].size
    requires SameBytes(m, m', T + {c + H + a}, H)
    ensures BytesKept(h, T, H, m, m', c)
    ensures SamePrefix(m, m', c + H, a)
  {
    var n := c + H + a;
    var W := T + {n};
    PayloadClear(h, T, usage, H, c);
    assert Fits(h, c, usage, H);
    forall i {:trigger m'[i]} | c + H <= i < n
      ensures m[i] == m'[i]
    {
      assert Clear(W, H, i, 1);
    }
    forall o: int {:trigger LiveAt(h, T, o)} | LiveAt(h, T, o) && o != c
      ensures Clear(W, H, o + H, h[o].size)
    {
      assert Apart(h, o, c, H) && Apart(h, c, o, H);
      PayloadClear(h, T, usage, H, o);
    }
    ClearWritesKeepBytes(h, T, H, m, m', W, c);
  }

  /** A split that may or may not take place. */
  lemma ShrinkKeepsBytes<B>(h: seq<Chunk>, T: set<nat>, usage: nat, H: nat, m: seq<B>, m': seq<B>, c: nat, a: nat,
      size: nat)
    requires Tiled(h, T, usage, H) && usage <= |m| && c in T && size == if a + H < h[c].size then a else h[c].size
    requires SameBytes(m, m', T + {c + H + a}, H) && (size == h[c].size ==> m' == m)
    ensures BytesKept(h, T, H, m, m', c) && SamePrefix(m, m', c + H, size)
  {
    assert Fits(h, c, usage, H);
    if a + H < h[c].size {
      SplitWritesKeepBytes(h, T, usage, H, m, m', c, a);
    }
  }

  /** The `n` bytes at `p` are the same. */
  ghost predicate SamePrefix<X>(m: seq<X>, m': seq<X>, p: nat, n: nat)
  {
    |m| == |m'| && p + n <= |m| && forall i {:trigger m'[i]} :: p <= i < p + n ==> m[i] == m'[i]
  }

  /** Taking a tile from the list without marking it. */
  lemma LimboLaid(h: seq<Chunk>, h': seq<Chunk>, T: set<nat>, usage: nat, fl: seq<nat>, H: nat, A: nat, j: nat)
    requires A > 0 && Laid(h, T, usage, fl, H, A, NULL) && j < |fl| && SameTags(h, h')
    requires forall i, i' :: 0 <= i < i' < |fl| ==> fl[i] != fl[i']
    ensures Laid(h', T, usage, Without(fl, j), H, A, fl[j])
    ensures KeptExcept(h, T, h', T, NULL)
  {
    WithoutElements(fl, j);
    assert fl[j] in fl && AlignedAt(h, fl[j], A) && TagsAt(h, h', fl[j]);
    SameTiles(h, h', T, usage, H, fl[j]);
    forall o: int
      ensures LiveAt(h, T, o) <==> LiveAt(h', T, o)
      ensures LiveAt(h, T, o) ==> h[o].size == h'[o].size
    {
      assert 0 <= o < |h| ==> TagsAt(h, h', o);
    }
    AlignedAfter(h, h', T, T, usage, usage, A, fl[j], fl[j]);
    forall o | o in T && o != fl[j]
      ensures OwnedAt(h', Without(fl, j), o)
    {
      assert OwnedAt(h, fl, o) && TagsAt(h, h', o);
    }
  }

  /** Marking the tile in limbo as allocated. */
  lemma MarkLaid(h: seq<Chunk>, h': seq<Chunk>, T: set<nat>, usage: nat, fl: seq<nat>, H: nat, A: nat, c: nat)
    requires A > 0 && Laid(h, T, usage, fl, H, A, c) && c in T && TagsExcept(h, h', {c})
    requires h'[c].size == h[c].size && h'[c].used
    ensures Laid(h', T, usage, fl, H, A, NULL)
    ensures KeptExcept(h, T, h', T, c)
  {
    SameTiles(h, h', T, usage, H, c);
    assert AlignedAt(h, c, A);
    AlignedAfter(h, h', T, T, usage, usage, A, c, c);
    forall o | o in T
      ensures OwnedAt(h', fl, o)
    {
      assert o != c ==> OwnedAt(h, fl, o) && TagsAt(h, h', o);
    }
    forall o: int | o != c
      ensures LiveAt(h, T, o) <==> LiveAt(h', T, o)
      ensures LiveAt(h, T, o) ==> h[o].size == h'[o].size
    {
      assert 0 <= o < |h| ==> TagsAt(h, h', o);
    }
  }

  /** A list longer than the number of entries visited has one that was not visited. */
  lemma NotAllVisited(fl0: seq<nat>, visited: set<nat>, x: nat)
    requires visited <= Elements(fl0) && x in Elements(fl0) && x !in visited
    requires forall i, j :: 0 <= i < j < |fl0| ==> fl0[i] != fl0[j]
    ensures |visited| < |fl0|
  {
    DistinctSize(fl0);
    SubsetSize(visited + {x}, Elements(fl0));
  }

  lemma {:induction false} SubsetSize(a: set<nat>, b: set<nat>)
    requires a <= b
    ensures |a| <= |b|
    decreases a
  {
    if x :| x in a {
      SubsetSize(a - {x}, b - {x});
    }
  }

  /** One step along the list: what was before the entry that was coalesced, and that entry. */
  lemma BeforeNext(fl: seq<nat>, k: nat)
    requires k < |fl|
    ensures Before(fl, k + 1) == Before(fl, k) + {fl[k]}
  {
    assert fl[..k + 1] == fl[..k] + [fl[k]];
  }

  lemma BeforeAll(fl: seq<nat>)
    ensures Before(fl, |fl|) == Elements(fl)
  {
    assert fl[..|fl|] == fl;
  }

  lemma NotBefore(fl: seq<nat>, k: nat)
    requires k < |fl| && forall i, j :: 0 <= i < j < |fl| ==> fl[i] != fl[j]
    ensures fl[k] in Elements(fl) && fl[k] !in Before(fl, k)
  {
  }

  /** The entries before position `k` were coalesced already. */
  ghost predicate SettledBefore(h: seq<Chunk>, fl: seq<nat>, k: int, usage: nat, H: nat)
  {
    forall x {:trigger x in Before(fl, k)} :: x in Before(fl, k) ==> x < |h| && Settled(h, x, usage, H)
  }

  /** Coalescing the entry at `k` and moving on. */
  lemma DefragAdvances(h: seq<Chunk>, h': seq<Chunk>, fl: seq<nat>, fl': seq<nat>, usage: nat, H: nat, k: nat, k': nat,
      visited: set<nat>)
    requires k < |fl| && k' < |fl'| && fl[k] == fl'[k'] < |h|
    requires forall i, j :: 0 <= i < j < |fl| ==> fl[i] != fl[j]
    requires forall i, j :: 0 <= i < j < |fl'| ==> fl'[i] != fl'[j]
    requires Elements(fl') <= Elements(fl) && Before(fl', k') == Before(fl, k) * Elements(fl')
    requires visited * Elements(fl) <= Before(fl, k) && SettledBefore(h, fl, k, usage, H)
    requires TagsExcept(h, h', {fl[k]}) && h'[fl[k]].used == h[fl[k]].used && Settled(h', fl[k], usage, H)
    ensures fl[k] !in visited
    ensures (visited + {fl[k]}) * Elements(fl') <= Before(fl', k' + 1)
    ensures SettledBefore(h', fl', k' + 1, usage, H)
  {
    var c := fl[k];
    NotBefore(fl, k);
    NotBefore(fl', k');
    BeforeNext(fl', k');
    forall x {:trigger x in Before(fl', k' + 1)} | x in Before(fl', k' + 1)
      ensures x < |h'| && Settled(h', x, usage, H)
    {
      if x != c {
        assert x in Before(fl, k);
        SettledKept(h, h', usage, H, c, x);
      }
    }
  }

  /** What defragmentation keeps: it only merges free tiles, and writes only to headers. */
  ghost predicate Defragged<B>(h: seq<Chunk>, T: set<nat>, fl: seq<nat>, m: seq<B>,
                               h': seq<Chunk>, T': set<nat>, fl': seq<nat>, m': seq<B>, H: nat)
  {
    && T' <= T && Elements(fl') <= Elements(fl)
    && KeptExcept(h, T, h', T', NULL) && SameBytes(m, m', T, H)
  }

  lemma DefraggedNone<B>(h: seq<Chunk>, T: set<nat>, fl: seq<nat>, m: seq<B>, H: nat)
    ensures Defragged(h, T, fl, m, h, T, fl, m, H)
  {
  }

  lemma DefraggedTrans<B>(h: seq<Chunk>, T: set<nat>, fl: seq<nat>, m: seq<B>,
                          h': seq<Chunk>, T': set<nat>, fl': seq<nat>, m': seq<B>,
                          h'': seq<Chunk>, T'': set<nat>, fl'': seq<nat>, m'': seq<B>, H: nat)
    requires Defragged(h, T, fl, m, h', T', fl', m', H) && Defragged(h', T', fl', m', h'', T'', fl'', m'', H)
    ensures Defragged(h, T, fl, m, h'', T'', fl'', m'', H)
  {
    KeptTrans(h, T, h', T', h'', T'', NULL);
    SameBytesTrans(m, m', m'', T, T', T, H);
  }

  /** The entries before position `k` are coalesced, and those visited that are still on the list are among them. */
  ghost predicate Visited(h: seq<Chunk>, fl: seq<nat>, k: int, visited: set<nat>, usage: nat, H: nat)
  {
    visited * Elements(fl) <= Before(fl, k) && SettledBefore(h, fl, k, usage, H)
  }

  /** If the list had at most `max` entries, visiting that many of them visits all that are left. */
  lemma DefragDone(h: seq<Chunk>, fl0: seq<nat>, fl: seq<nat>, k: nat, visited: set<nat>, max: nat, usage: nat, H: nat)
    requires Visited(h, fl, k, visited, usage, H) && visited <= Elements(fl0) && Elements(fl) <= Elements(fl0)
    requires forall i, j :: 0 <= i < j < |fl0| ==> fl0[i] != fl0[j]
    requires forall i, j :: 0 <= i < j < |fl| ==> fl[i] != fl[j]
    requires |fl0| <= max && k <= |fl| && (k < |fl| ==> |visited| == max)
    ensures forall o :: o in fl ==> o < |h| && Settled(h, o, usage, H)
  {
    if k < |fl| {
      NotBefore(fl, k);
      NotAllVisited(fl0, visited, fl[k]);
    } else {
      BeforeAll(fl);
      forall o | o in fl
        ensures o < |h| && Settled(h, o, usage, H)
      {
        assert o in Before(fl, k);
      }
    }
  }

  // ------------------------------------------------------------------ best fit

  /** The first `max` entries of the list, which is what the search looks at. */
  function Searched(fl: seq<nat>, max: nat): nat
  {
    if |fl| < max then |fl| else max
  }

  function EntrySize(hdr: seq<Chunk>, fl: seq<nat>, i: nat): nat
    requires i < |fl| && fl[i] < |hdr|
  {
    hdr[fl[i]].size
  }

  /** `b` is an entry among the first `n` with the smallest size that is not below `size`. */
  ghost predicate BestFit(hdr: seq<Chunk>, fl: seq<nat>, n: nat, size: nat, b: nat)
    requires n <= |fl| && forall i :: 0 <= i < |fl| ==> fl[i] < |hdr|
  {
    && b < n && size <= EntrySize(hdr, fl, b)
    && forall i {:trigger EntrySize(hdr, fl, i)} :: 0 <= i < n && size <= EntrySize(hdr, fl, i) ==>
         EntrySize(hdr, fl, b) <= EntrySize(hdr, fl, i)
  }

  /** None of the first `n` entries can hold `size` bytes. */
  ghost predicate NoFit(hdr: seq<Chunk>, fl: seq<nat>, n: nat, size: nat)
    requires n <= |fl| && forall i :: 0 <= i < |fl| ==> fl[i] < |hdr|
  {
    forall i {:trigger EntrySize(hdr, fl, i)} :: 0 <= i < n ==> EntrySize(hdr, fl, i) < size
  }

  /** What the search knows after k entries. */
  ghost predicate BestSoFar(hdr: seq<Chunk>, fl: seq<nat>, k: nat, size: nat, best: int, b: nat, bestSize: nat)
    requires k <= |fl| && forall i :: 0 <= i < |fl| ==> fl[i] < |hdr|
  {
    if best == NULL then NoFit(hdr, fl, k, size)
    else BestFit(hdr, fl, k, size, b) && fl[b] == best && bestSize == EntrySize(hdr, fl, b)
  }

  lemma BestNext(hdr: seq<Chunk>, fl: seq<nat>, k: nat, size: nat, best: int, b: nat, bestSize: nat)
    requires k < |fl| && forall i :: 0 <= i < |fl| ==> fl[i] < |hdr|
    requires BestSoFar(hdr, fl, k, size, best, b, bestSize)
    ensures var here := EntrySize(hdr, fl, k);
            if size <= here && (best == NULL || here < bestSize) then BestSoFar(hdr, fl, k + 1, size, fl[k], k, here)
            else BestSoFar(hdr, fl, k + 1, size, best, b, bestSize)
  {
  }

  /** An entry of exactly the size is a best fit among any number of entries. */
  lemma BestPossible(hdr: seq<Chunk>, fl: seq<nat>, k: nat, n: nat, size: nat)
    requires k <= n <= |fl| && forall i :: 0 <= i < |fl| ==> fl[i] < |hdr|
    ensures forall b: nat {:trigger BestFit(hdr, fl, n, size, b)} ::
              b < k && EntrySize(hdr, fl, b) == size ==> BestFit(hdr, fl, n, size, b)
  {
  }

  lemma NoFitKept(hdr: seq<Chunk>, hdr': seq<Chunk>, fl: seq<nat>, n: nat, size: nat, c: nat)
    requires n <= |fl| && forall i :: 0 <= i < |fl| ==> fl[i] < |hdr|
    requires NoFit(hdr, fl, n, size) && TagsExcept(hdr, hdr', {c}) && c !in fl
    ensures NoFit(hdr', fl, n, size)
  {
    forall i {:trigger EntrySize(hdr', fl, i)} | 0 <= i < n
      ensures EntrySize(hdr', fl, i) < size
    {
      assert fl[i] in fl && TagsAt(hdr, hdr', fl[i]) && EntrySize(hdr, fl, i) < size;
    }
  }

  /** Header writes for removing a tile from the list and splitting it. */
  lemma TakeKeepsBytes<B>(h: seq<Chunk>, T: set<nat>, usage: nat, H: nat, m: seq<B>, m': seq<B>, m'': seq<B>, c: nat,
      a: nat)
    requires Tiled(h, T, usage, H) && usage <= |m| && c in T && !h[c].used
    requires SameBytes(m, m', T, H)
    requires m' == m'' || (a + H < h[c].size && SameBytes(m', m'', T + {c + H + a}, H))
    ensures BytesKept(h, T, H, m, m'', NULL)
  {
    HeaderWritesKeepBytes(h, T, usage, H, m, m');
    if m' != m'' {
      SameBytesTrans(m, m', m'', T, T + {c + H + a}, T + {c + H + a}, H);
      SplitWritesKeepBytes(h, T, usage, H, m, m'', c, a);
    }
  }

  /** Writing the header of a tile, or one past the footprint, changes no object's bytes. */
  lemma OneHeaderKeepsBytes<B>(h: seq<Chunk>, T: set<nat>, usage: nat, H: nat, m: seq<B>, m': seq<B>, x: nat)
    requires Tiled(h, T, usage, H) && SameBytes(m, m', {x}, H) && (x in T || x >= usage)
    ensures BytesKept(h, T, H, m, m', NULL)
  {
    forall o: int {:trigger LiveAt(h, T, o)} | LiveAt(h, T, o)
      ensures Clear({x}, H, o + H, h[o].size)
    {
      assert Fits(h, o, usage, H);
      PayloadClear(h, T, usage, H, o);
    }
    ClearWritesKeepBytes(h, T, H, m, m', {x}, NULL);
  }

  /** A new tile at the end of the footprint, not marked yet. */
  lemma AppendLaid(h: seq<Chunk>, h': seq<Chunk>, T: set<nat>, usage: nat, fl: seq<nat>, H: nat, A: nat)
    requires H > 0 && A > 0 && Multiple(H, A) && Laid(h, T, usage, fl, H, A, NULL) && usage < |h| &&
             TagsExcept(h, h', {usage})
    requires h'[usage].size > 0 && Multiple(h'[usage].size, A) && usage + H + h'[usage].size <= |h|
    ensures usage !in T && Laid(h', T + {usage}, NextOf(h', usage, H), fl, H, A, usage)
    ensures KeptExcept(h, T, h', T + {usage}, usage)
  {
    var T' := T + {usage};
    AppendTile(h, h', T, usage, H);
    MultipleAdd(usage, H, A);
    MultipleAdd(usage + H, h'[usage].size, A);
    assert AlignedAt(h', usage, A);
    AlignedAfter(h, h', T, T', usage, NextOf(h', usage, H), A, usage, usage);
    forall o | o in T' && o != usage
      ensures OwnedAt(h', fl, o)
    {
      assert OwnedAt(h, fl, o) && TagsAt(h, h', o);
    }
    forall o: int | o != usage
      ensures LiveAt(h, T, o) <==> LiveAt(h', T', o)
      ensures LiveAt(h, T, o) ==> h[o].size == h'[o].size
    {
      assert 0 <= o < |h| ==> TagsAt(h, h', o);
    }
  }

  /** Freeing the tile at `c`: it is dropped at the end of the footprint, or put on the list. */
  lemma FreedLaid(h: seq<Chunk>, h': seq<Chunk>, T: set<nat>, T': set<nat>, usage: nat, usage': nat,
                  fl: seq<nat>, fl': seq<nat>, H: nat, A: nat, c: nat)
    requires A > 0 && Laid(h, T, usage, fl, H, A, NULL) && c in T && c !in fl
    requires TagsExcept(h, h', {c}) && h'[c].size == h[c].size && !h'[c].used
    requires if NextOf(h, c, H) == usage then usage' == c && fl' == fl && T' == T - {c}
             else usage' == usage && fl' == [c] + fl && T' == T
    ensures Laid(h', T', usage', fl', H, A, NULL) && KeptExcept(h, T, h', T', c)
  {
    SameTiles(h, h', T, usage, H, c);
    assert AlignedAt(h, c, A);
    AlignedAfter(h, h', T, T', usage, usage', A, c, c);
    if NextOf(h, c, H) == usage {
      assert NextOf(h', c, H) == usage;
      DropLastTile(h', T, usage, H, c);
    }
    assert forall o :: o in [c] + fl <==> o == c || o in fl;
    forall o | o in T'
      ensures OwnedAt(h', fl', o)
    {
      assert o != c ==> OwnedAt(h, fl, o) && TagsAt(h, h', o);
    }
    forall o: int | o != c
      ensures LiveAt(h, T, o) <==> LiveAt(h', T', o)
      ensures LiveAt(h, T, o) ==> h[o].size == h'[o].size
    {
      assert 0 <= o < |h| ==> TagsAt(h, h', o);
    }
  }

  /** Making the last, allocated, tile longer. */
  lemma StretchedLaid(h: seq<Chunk>, h': seq<Chunk>, T: set<nat>, usage: nat, fl: seq<nat>, H: nat, A: nat, c: nat)
    requires A > 0 && Multiple(H, A) && Laid(h, T, usage, fl, H, A, NULL) && c in T && h[c].used &&
             NextOf(h, c, H) == usage
    requires TagsExcept(h, h', {c}) && h'[c].used && h'[c].size >= h[c].size && Multiple(h'[c].size, A)
    requires NextOf(h', c, H) <= |h|
    ensures Laid(h', T, NextOf(h', c, H), fl, H, A, NULL) && KeptExcept(h, T, h', T, c)
  {
    StretchLastTile(h, h', T, usage, H, c);
    assert AlignedAt(h, c, A) && AlignedAt(h', c, A);
    MultipleAdd(c, H, A);
    MultipleAdd(c + H, h'[c].size, A);
    AlignedAfter(h, h', T, T, usage, NextOf(h', c, H), A, c, c);
    forall o | o in T
      ensures OwnedAt(h', fl, o)
    {
      assert OwnedAt(h, fl, o) && (o != c ==> TagsAt(h, h', o));
    }
    forall o: int | o != c
      ensures LiveAt(h, T, o) <==> LiveAt(h', T, o)
      ensures LiveAt(h, T, o) ==> h[o].size == h'[o].size
    {
      assert 0 <= o < |h| ==> TagsAt(h, h', o);
    }
  }
}
