/**
 The objects that lie in allocated chunks, and the totals over all chunks.
 */
module HeapObjects {
  import opened Arith
  import opened HeapLayout
  import opened HeapSteps

  /** The shorter of the two is a prefix of the longer. */
  ghost predicate KeepsPrefix<X>(a: seq<X>, b: seq<X>)
  {
    forall i :: 0 <= i < |a| && i < |b| ==> a[i] == b[i]
  }

  /** `B` is `A` with the object `c` replaced by one named `c'` that has at least `n` bytes and keeps the
      bytes of `c` as far as both go. */
  ghost predicate ResizesObject<X>(A: map<nat, seq<X>>, B: map<nat, seq<X>>, c: nat, c': nat, n: nat)
  {
    && c in A && c' in B && (c' == c || c' !in A)
    && B == (A - {c})[c' := B[c']]
    && n <= |B[c']|
    && KeepsPrefix(A[c], B[c'])
  }

  /** Writing inside the payload of the tile at `c` changes no other object. */
  lemma PayloadWriteKeepsBytes<X>(h: seq<Chunk>, T: set<nat>, usage: nat, H: nat, m: seq<X>, m': seq<X>, c: nat)
    requires Tiled(h, T, usage, H) && |m| == |m'| && c in T
    requires forall i {:trigger m'[i]} :: 0 <= i < |m| && !(c + H <= i < NextOf(h, c, H)) ==> m'[i] == m[i]
    ensures BytesKept(h, T, H, m, m', c)
  {
    forall o: int, i {:trigger LiveAt(h, T, o), m'[i]} |
        LiveAt(h, T, o) && o != c && o + H <= i < o + H + h[o].size && i < |m|
      ensures m[i] == m'[i]
    {
      assert Apart(h, o, c, H) && Apart(h, c, o, H);
    }
  }

  /** Allocating, copying and freeing amount to a resize. */
  lemma MoveResizes<X>(A: map<nat, seq<X>>, B: map<nat, seq<X>>, D: map<nat, seq<X>>, c: nat, n: nat, lo: nat, hi: nat)
    requires c in A && AddsObject(A, B, n, lo, hi) && |A[c]| <= lo
    requires D == B[n := A[c] + B[n][|A[c]|..]] - {c}
    ensures ResizesObject(A, D, c, n, lo)
  {
    var C: map<nat, seq<X>> := A - {c};
    assert D == C[n := D[n]];
  }

  /** Growing in place and then moving. */
  lemma ResizesCompose<X>(A: map<nat, seq<X>>, B: map<nat, seq<X>>, D: map<nat, seq<X>>, c: nat, n: nat, m: nat,
      lo: nat)
    requires c in A && |A[c]| <= m && ResizesObject(A, B, c, c, m) && ResizesObject(B, D, c, n, lo)
    ensures ResizesObject(A, D, c, n, lo)
  {
    assert D == (A - {c})[n := D[n]];
  }

  lemma PointerAligned(h: seq<Chunk>, T: set<nat>, usage: nat, H: nat, A: nat, c: nat)
    requires A > 0 && Multiple(H, A) && Aligned(h, T, usage, A) && c in T
    ensures Multiple(c + H, A)
  {
    assert AlignedAt(h, c, A);
    MultipleAdd(c, H, A);
  }

  // ------------------------------------------------------------------- objects

  /** `b` is what lies at `p` in the arena. */
  ghost predicate ContentAt<X>(m: seq<X>, p: nat, b: seq<X>)
  {
    p + |b| <= |m| && forall i {:trigger b[i]} :: 0 <= i < |b| ==> b[i] == m[p + i]
  }

  /** `O` maps the chunk of every live object to the object's bytes. */
  ghost predicate Matches<X>(h: seq<Chunk>, T: set<nat>, H: nat, m: seq<X>, O: map<nat, seq<X>>)
  {
    && (forall o: nat {:trigger LiveAt(h, T, o)} :: LiveAt(h, T, o) <==> o in O)
    && (forall o: nat {:trigger O[o]} :: o in O ==> o < |h| && |O[o]| == h[o].size && ContentAt(m, o + H, O[o]))
  }

  lemma MatchesAt<X>(h: seq<Chunk>, T: set<nat>, H: nat, m: seq<X>, O: map<nat, seq<X>>, o: nat)
    requires Matches(h, T, H, m, O)
    ensures o in O <==> LiveAt(h, T, o)
    ensures o in O ==> |O[o]| == h[o].size && ContentAt(m, o + H, O[o])
  {
    assert LiveAt(h, T, o) <==> o in O;
  }

  /** An operation that keeps all objects but the one at `c`, which is live neither before nor after. */
  lemma MatchesSame<X>(h: seq<Chunk>, T: set<nat>, m: seq<X>, h': seq<Chunk>, T': set<nat>, m': seq<X>,
      H: nat, O: map<nat, seq<X>>)
    requires Matches(h, T, H, m, O) && KeptExcept(h, T, h', T', NULL) && BytesKept(h, T, H, m, m', NULL)
    ensures Matches(h', T', H, m', O)
  {
    MatchesOthers(h, T, m, h', T', m', H, O, NULL);
  }

  lemma MatchesOthers<X>(h: seq<Chunk>, T: set<nat>, m: seq<X>, h': seq<Chunk>, T': set<nat>, m': seq<X>,
      H: nat, O: map<nat, seq<X>>, c: int)
    requires Matches(h, T, H, m, O) && KeptExcept(h, T, h', T', c) && BytesKept(h, T, H, m, m', c)
    ensures forall o: nat {:trigger LiveAt(h', T', o)} {:trigger O[o]} :: o != c ==>
              && (LiveAt(h', T', o) <==> o in O)
              && (o in O ==> o < |h'| && |O[o]| == h'[o].size && ContentAt(m', o + H, O[o]))
  {
    forall o: nat {:trigger LiveAt(h', T', o)} {:trigger O[o]} | o != c
      ensures LiveAt(h', T', o) <==> o in O
      ensures o in O ==> o < |h'| && |O[o]| == h'[o].size && ContentAt(m', o + H, O[o])
    {
      assert LiveAt(h, T, o) <==> LiveAt(h', T', o);
      if o in O {
        var b := O[o];
        forall i {:trigger b[i]} | 0 <= i < |b|
          ensures b[i] == m'[o + H + i]
        {
          assert b[i] == m[o + H + i];
        }
      }
    }
  }

  /** The object at `c` is gone. */
  lemma MatchesRemoved<X>(h: seq<Chunk>, T: set<nat>, m: seq<X>, h': seq<Chunk>, T': set<nat>, m': seq<X>,
      H: nat, O: map<nat, seq<X>>, c: nat)
    requires Matches(h, T, H, m, O) && KeptExcept(h, T, h', T', c) && BytesKept(h, T, H, m, m', c) && !LiveAt(h', T', c)
    ensures Matches(h', T', H, m', O - {c})
  {
    MatchesOthers(h, T, m, h', T', m', H, O, c);
  }

  /** The map of objects after an operation that gives the object at `c` a size and content. */
  lemma MatchesUpdated<X>(h: seq<Chunk>, T: set<nat>, m: seq<X>, h': seq<Chunk>, T': set<nat>, m': seq<X>,
      H: nat, O: map<nat, seq<X>>, c: nat)
      returns (O': map<nat, seq<X>>)
    requires Matches(h, T, H, m, O) && KeptExcept(h, T, h', T', c) && BytesKept(h, T, H, m, m', c)
    requires LiveAt(h', T', c) && c + H + h'[c].size <= |m'|
    ensures Matches(h', T', H, m', O')
    ensures c in O' && O' == O[c := O'[c]] && |O'[c]| == h'[c].size && ContentAt(m', c + H, O'[c])
    ensures LiveAt(h, T, c) <==> c in O
  {
    var b := m'[c + H..c + H + h'[c].size];
    assert LiveAt(h, T, c) <==> c in O;
    MatchesOthers(h, T, m, h', T', m', H, O, c);
    O' := O[c := b];
  }

  lemma PrefixKept<X>(m: seq<X>, m': seq<X>, p: nat, n: nat, b: seq<X>, b': seq<X>)
    requires SamePrefix(m, m', p, n) && ContentAt(m, p, b) && ContentAt(m', p, b')
    requires n >= |b| || n >= |b'|
    ensures KeepsPrefix(b, b')
  {
    forall i | 0 <= i < |b| && i < |b'|
      ensures b[i] == b'[i]
    {
      assert m'[p + i] == m[p + i];
    }
  }

  /** The object `b` after its first bytes were overwritten by the object `a`, which lies elsewhere. */
  lemma ContentCopied<X>(m: seq<X>, m': seq<X>, q: nat, a: seq<X>, p: nat, b: seq<X>, b': seq<X>)
    requires |m| == |m'| && ContentAt(m, q, a) && ContentAt(m, p, b) && ContentAt(m', p, b') && |a| <= |b| == |b'|
    requires forall i {:trigger m'[i]} :: p <= i < p + |a| ==> m'[i] == m[i - p + q]
    requires forall i {:trigger m'[i]} :: 0 <= i < |m| && !(p <= i < p + |a|) ==> m'[i] == m[i]
    ensures b' == a + b[|a|..]
  {
    forall i | 0 <= i < |b|
      ensures b'[i] == (a + b[|a|..])[i]
    {
      assert b'[i] == m'[p + i];
      if i < |a| {
        assert a[i] == m[q + i];
      } else {
        assert b[i] == m[p + i];
      }
    }
  }

  /** `B` is `A` with one more object, named `c`, of at least `lo` and at most `hi` bytes. */
  ghost predicate AddsObject<X>(A: map<nat, seq<X>>, B: map<nat, seq<X>>, c: nat, lo: nat, hi: nat)
  {
    c !in A && c in B && B == A[c := B[c]] && lo <= |B[c]| <= hi
  }

  ghost predicate AddsSome<X>(A: map<nat, seq<X>>, B: map<nat, seq<X>>, lo: nat, hi: nat)
  {
    exists c: nat {:trigger c in B} :: AddsObject(A, B, c, lo, hi)
  }

  // ---------------------------------------------------------------- statistics

  /** The payload bytes of the chunks in `S`. */
  ghost function SizeSum(h: seq<Chunk>, S: set<nat>): nat
    requires forall o {:trigger o in S} :: o in S ==> o < |h|
  {
    if S == {} then 0 else var x :| x in S; h[x].size + SizeSum(h, S - {x})
  }

  lemma SizeSumPick(h: seq<Chunk>, U: set<nat>) returns (y: nat)
    requires (forall o {:trigger o in U} :: o in U ==> o < |h|) && U != {}
    ensures y in U && SizeSum(h, U) == h[y].size + SizeSum(h, U - {y})
  {
    y :| y in U && SizeSum(h, U) == h[y].size + SizeSum(h, U - {y});
  }

  lemma {:induction false} SizeSumAdd(h: seq<Chunk>, S: set<nat>, x: nat)
    requires (forall o {:trigger o in S} :: o in S ==> o < |h|) && x < |h| && x !in S
    ensures SizeSum(h, S + {x}) == SizeSum(h, S) + h[x].size
    decreases |S|
  {
    var U := S + {x};
    var y := SizeSumPick(h, U);
    if y == x {
      assert U - {y} == S;
    } else {
      var R := S - {y};
      assert U - {y} == R + {x} && S == R + {y};
      SizeSumAdd(h, R, x);
      SizeSumAdd(h, R, y);
    }
  }

  lemma {:induction false} SizeSumSame(h: seq<Chunk>, h': seq<Chunk>, S: set<nat>, c: nat)
    requires forall o {:trigger o in S} :: o in S ==> o < |h|
    requires TagsExcept(h, h', {c}) && c !in S
    ensures SizeSum(h, S) == SizeSum(h', S)
    decreases |S|
  {
    if S != {} {
      var y :| y in S;
      SizeSumSame(h, h', S - {y}, c);
      assert S == S - {y} + {y} && TagsAt(h, h', y);
      SizeSumAdd(h, S - {y}, y);
      SizeSumAdd(h', S - {y}, y);
    }
  }

  /** Whether `o` is rightly in or out of the allocated tiles `L` and the settled free tiles `F` below `c`. */
  ghost predicate SurveyedAt(h: seq<Chunk>, T: set<nat>, usage: nat, H: nat, c: nat, L: set<nat>, F: set<nat>, o: nat)
  {
    && (o in L <==> o in T && o < c && o < |h| && h[o].used)
    && (o in F <==> o in T && o < c && o < |h| && !h[o].used)
    && (o in F ==> Settled(h, o, usage, H))
  }

  /** `L` and `F` are the allocated and the free tiles below `c`, and the free ones are settled. */
  ghost predicate Surveyed(h: seq<Chunk>, T: set<nat>, usage: nat, H: nat, c: nat, L: set<nat>, F: set<nat>)
  {
    && (forall o {:trigger o in L} :: o in L ==> o < |h|)
    && (forall o {:trigger o in F} :: o in F ==> o < |h|)
    && c !in L && c !in F
    && (forall o {:trigger SurveyedAt(h, T, usage, H, c, L, F, o)} :: SurveyedAt(h, T, usage, H, c, L, F, o))
  }

  lemma SurveyAdvances(h: seq<Chunk>, h': seq<Chunk>, T: set<nat>, T': set<nat>, usage: nat, H: nat, c: nat,
                       L: set<nat>, F: set<nat>, L': set<nat>, F': set<nat>)
    requires Tiled(h, T, usage, H) && Tiled(h', T', usage, H) && T' <= T && c in T'
    requires forall o {:trigger o in T} :: o in T && o < c ==> o in T'
    requires TagsExcept(h, h', {c}) && h'[c].used == h[c].used && Surveyed(h, T, usage, H, c, L, F)
    requires if h'[c].used then L' == L + {c} && F' == F else F' == F + {c} && L' == L && Settled(h', c, usage, H)
    ensures Surveyed(h', T', usage, H, NextOf(h', c, H), L', F')
  {
    var n := NextOf(h', c, H);
    assert Fits(h', c, usage, H);
    forall o: nat {:trigger SurveyedAt(h', T', usage, H, n, L', F', o)}
      ensures SurveyedAt(h', T', usage, H, n, L', F', o)
    {
      assert SurveyedAt(h, T, usage, H, c, L, F, o);
      if o != c && o < |h| {
        assert TagsAt(h, h', o) && (o in T' ==> Apart(h', c, o, H));
        if o in F {
          SettledKept(h, h', usage, H, c, o);
        }
      }
    }
    assert SurveyedAt(h, T, usage, H, c, L, F, n);
  }

  lemma SurveyDone(h: seq<Chunk>, T: set<nat>, usage: nat, fl: seq<nat>, H: nat, A: nat, L: set<nat>, F: set<nat>)
    requires A > 0 && Laid(h, T, usage, fl, H, A, NULL) && Surveyed(h, T, usage, H, usage, L, F)
    ensures F == Elements(fl) && NoAdjacentFree(h, T, H)
    ensures forall o: nat :: o in L <==> LiveAt(h, T, o)
  {
    forall o: nat
      ensures o in F <==> o in Elements(fl)
      ensures o in L <==> LiveAt(h, T, o)
      ensures o in fl ==> Settled(h, o, usage, H)
    {
      assert SurveyedAt(h, T, usage, H, usage, L, F, o) && (o in T ==> Fits(h, o, usage, H) && OwnedAt(h, fl, o));
    }
    SettledMeansNoAdjacentFree(h, T, fl, usage, H);
  }

  /** H bytes for each of `n` headers. */
  ghost function Headers(H: nat, n: nat): nat
  {
    if n == 0 then 0 else H + Headers(H, n - 1)
  }

  /** The number of headers in `bytes` bytes. */
  function HeaderCount(bytes: nat, H: nat): nat
    requires H > 0
  {
    bytes / H
  }

  lemma {:induction false} HeadersProduct(H: nat, n: nat)
    ensures Headers(H, n) == n * H
  {
    if n > 0 {
      HeadersProduct(H, n - 1);
    }
  }

  lemma HeadersCounted(H: nat, n: nat)
    requires H > 0
    ensures HeaderCount(Headers(H, n), H) == n
  {
    HeadersProduct(H, n);
    ModUnique(Headers(H, n), H, n, 0);
  }

  /** The running totals of the statistics for the tiles below `c`. */
  ghost predicate Totals(h: seq<Chunk>, T: set<nat>, usage: nat, H: nat, c: nat, L: set<nat>, F: set<nat>,
                         inUse: nat, overhead: nat, available: nat)
  {
    && Surveyed(h, T, usage, H, c, L, F)
    && inUse == SizeSum(h, L) && available == SizeSum(h, F) && overhead == Headers(H, |L|)
    && c == inUse + overhead + available + Headers(H, |F|)
  }

  lemma TotalsUsed(h: seq<Chunk>, T: set<nat>, usage: nat, H: nat, c: nat, L: set<nat>, F: set<nat>,
                   inUse: nat, overhead: nat, available: nat)
    requires Tiled(h, T, usage, H) && c in T && h[c].used && Totals(h, T, usage, H, c, L, F, inUse, overhead, available)
    ensures Totals(h, T, usage, H, NextOf(h, c, H), L + {c}, F, inUse + h[c].size, overhead + H, available)
  {
    SizeSumAdd(h, L, c);
    SurveyAdvances(h, h, T, T, usage, H, c, L, F, L + {c}, F);
  }

  lemma TotalsFree(h: seq<Chunk>, h': seq<Chunk>, T: set<nat>, T': set<nat>, usage: nat, H: nat, c: nat, L: set<nat>,
      F: set<nat>, inUse: nat, overhead: nat, available: nat)
    requires Tiled(h, T, usage, H) && Tiled(h', T', usage, H) && T' <= T && c in T' && !h[c].used && !h'[c].used
    requires forall o {:trigger o in T} :: o in T && o < c ==> o in T'
    requires TagsExcept(h, h', {c}) && Settled(h', c, usage, H) &&
             Totals(h, T, usage, H, c, L, F, inUse, overhead, available)
    ensures Totals(h', T', usage, H, NextOf(h', c, H), L, F + {c}, inUse, overhead, available + h'[c].size)
  {
    SizeSumSame(h, h', L, c);
    SizeSumSame(h, h', F, c);
    SizeSumAdd(h', F, c);
    SurveyAdvances(h, h', T, T', usage, H, c, L, F, L, F + {c});
  }

  // -------------------------------------------------------------- calloc sizes

  /** The product computed by heapmem_calloc in a size_t of `M` values, or 0 when its check finds that it wrapped. */
  function CheckedProduct(nmemb: nat, size: nat, M: nat): nat
    requires M > 0
  {
    var total := (nmemb * size) % M;
    if size == 0 || total / size != nmemb then 0 else total
  }

  /** The check after the fact is exact: it rejects the product iff it does not fit. */
  lemma CheckedProductIsExact(nmemb: nat, size: nat, M: nat)
    requires nmemb < M && size < M
    ensures CheckedProduct(nmemb, size, M) == if nmemb * size < M then nmemb * size else 0
  {
    var p := nmemb * size;
    if p < M {
      ModUnique(p, M, 0, p);
      if size > 0 {
        ModUnique(p, size, nmemb, 0);
      }
    } else {
      Wrapped(nmemb, size, M);
    }
  }

  lemma Wrapped(n: nat, s: nat, M: nat)
    requires n < M && s < M && n * s >= M
    ensures s > 0 && ((n * s) % M) / s < n
  {
    var p := n * s;
    var t := p % M;
    var q := p / M;
    assert p == q * M + t;
    MulSign(q, M);
    assert t <= p - M;
    assert (n - 1) * s == p - s;
    assert t < (n - 1) * s;
    var d := t / s;
    assert d * s <= t;
    MulSign(d - (n - 1), s);
    assert (d - (n - 1)) * s == d * s - (n - 1) * s;
  }
}
