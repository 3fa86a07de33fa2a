/**
 The ring of os/dev/slip.c when a second stretch of characters arrives before the first packet is polled: what is
 stored, what is dropped, and what the poll finds behind the packet it takes out.
 */
module SlipSecond {
  import opened SlipSpec

  /** The first packet's l characters lie from b on, its END behind them, and then the characters w. */
  ghost predicate Trailing(o: Ring, b: nat, n: nat, l: nat, w: seq<byte>, state: State)
  {
    && b < n && 0 < l && l + 1 + |w| < n && |o.buf| == n
    && o == Ring(state, b, At(b, l + 1 + |w|, n), At(b, l, n), o.buf)
    && HeldFrom(o.buf, b, l + 1, w)
  }

  /** The bytes w lie from i places behind b on. */
  ghost predicate HeldFrom(buf: seq<byte>, b: nat, i: nat, w: seq<byte>)
    requires b < |buf| && i + |w| <= |buf|
  {
    forall j: nat {:trigger w[j]} :: j < |w| ==> buf[At(b, i + j, |buf|)] == w[j]
  }

  /** The ring was full after the characters w; they are dropped, but lie there still. */
  ghost predicate Choked(o: Ring, b: nat, n: nat, l: nat, w: seq<byte>)
  {
    && b < n && 0 < l && l + 2 + |w| == n && |o.buf| == n
    && o == Ring(o.state, b, At(b, l, n), At(b, l, n), o.buf)
    && HeldFrom(o.buf, b, l + 1, w)
  }

  /** The first packet's characters and the byte just before it, which is never written. */
  ghost predicate Around(o: Ring, b: nat, n: nat, p: seq<byte>, stale: byte)
  {
    b < n && |o.buf| == n && |p| + 1 < n && HeldFrom(o.buf, b, 0, p) && o.buf[At(b, n - 1, n)] == stale
  }

  lemma TrailingNext(o: Ring, b: nat, n: nat, p: seq<byte>, stale: byte, w: seq<byte>, state: State, c: byte)
    requires Trailing(o, b, n, |p|, w, state) && Around(o, b, n, p, stale)
    requires state == Fine || (state == Escape && (c == ESC_END || c == ESC_ESC))
    ensures Around(Input(o, c).0, b, n, p, stale)
    ensures |p| + |w| + 2 < n ==> Trailing(Input(o, c).0, b, n, |p|, w + [c], if c == ESC then Escape else Fine)
    ensures |p| + |w| + 2 == n ==> Choked(Input(o, c).0, b, n, |p|, w) && Input(o, c).0.state == Rubbish
  {
    if |p| + |w| + 2 < n {
      assert Input(o, c).0.buf == o.buf[o.nextFree := c];
      HeldBeside(o.buf, b, 0, p, |p| + 1 + |w|, c);
      HeldMore(o.buf, b, |p| + 1, w, c);
    }
  }

  /** A byte stored elsewhere leaves what is held alone. */
  lemma HeldBeside(buf: seq<byte>, b: nat, i: nat, w: seq<byte>, k: nat, c: byte)
    requires b < |buf| && i + |w| <= k < |buf| && HeldFrom(buf, b, i, w)
    ensures HeldFrom(buf[At(b, k, |buf|) := c], b, i, w)
  {
    var n := |buf|;
    forall j: nat {:trigger w[j]} | j < |w|
      ensures buf[At(b, k, n) := c][At(b, i + j, n)] == w[j]
    {
      assert buf[At(b, i + j, n)] == w[j];
    }
  }

  /** A byte stored behind what is held adds to it. */
  lemma HeldMore(buf: seq<byte>, b: nat, i: nat, w: seq<byte>, c: byte)
    requires b < |buf| && i + |w| < |buf| && HeldFrom(buf, b, i, w)
    ensures HeldFrom(buf[At(b, i + |w|, |buf|) := c], b, i, w + [c])
  {
    var n, k, t := |buf|, At(b, i + |w|, |buf|), w + [c];
    HeldBeside(buf, b, i, w, i + |w|, c);
    forall j: nat {:trigger t[j]} | j < |t|
      ensures buf[k := c][At(b, i + j, n)] == t[j]
    {
      assert j < |w| ==> buf[k := c][At(b, i + j, n)] == w[j];
    }
  }

  /** From the second character on, u is what an encoder may write. */
  ghost predicate TailEscaped(u: seq<byte>)
  {
    forall i: nat {:trigger Escaped(u, i)} :: i > 0 ==> Escaped(u, i)
  }

  /** The characters that find room are stored, all of them or as many as the ring takes. */
  lemma {:induction false} FeedTrailing(o: Ring, b: nat, n: nat, p: seq<byte>, stale: byte, u: seq<byte>, k: nat)
    requires o.Ok() && Trailing(o, b, n, |p|, [], Fine) && Around(o, b, n, p, stale) && TailEscaped(u) && k <= |u|
    ensures var f := Feed(o, u[..k]);
            && Around(f, b, n, p, stale)
            && (|p| + 1 + k < n ==> Trailing(f, b, n, |p|, u[..k], StateAfter(u[..k])))
            && (|p| + 1 + k >= n ==> Choked(f, b, n, |p|, u[..n - |p| - 2]) && f.state == Rubbish)
  {
    if k == 0 {
      assert u[..0] == [];
    } else {
      var t, c := u[..k - 1], u[k - 1];
      FeedTrailing(o, b, n, p, stale, u, k - 1);
      PrefixNext(u, k - 1);
      FeedNext(o, t, c);
      assert k > 1 ==> Escaped(u, k - 1);
      if |p| + k < n {
        TrailingNext(Feed(o, t), b, n, p, stale, t, StateAfter(t), c);
      }
    }
  }

  /** The END behind the second stretch. */
  lemma SecondEnd(o: Ring, b: nat, n: nat, p: seq<byte>, stale: byte, u: seq<byte>)
    requires o.Ok() && Trailing(o, b, n, |p|, [], Fine) && Around(o, b, n, p, stale)
    requires TailEscaped(u) && StateAfter(u) == Fine
    ensures var f := Feed(o, u + [END]);
            && Around(f, b, n, p, stale)
            && (|p| + |u| + 2 < n ==> Trailing(f, b, n, |p|, u + [END], Fine))
            && (|p| + |u| + 2 >= n ==> Choked(f, b, n, |p|, u[..n - |p| - 2]))
  {
    var f := Feed(o, u);
    assert u[..|u|] == u;
    FeedTrailing(o, b, n, p, stale, u, |u|);
    FeedNext(o, u, END);
    if |p| + |u| + 1 < n {
      TrailingNext(f, b, n, p, stale, u, Fine, END);
    }
  }

  // -------------------------------------------------------------- the first packet

  /** While the packet is short, a character leaves the byte before its beginning alone. */
  lemma StoredBefore(o: Ring, b: nat, n: nat, t: seq<byte>, c: byte, state: State)
    requires o.Ok() && Receiving(o, b, n, t, state) && |t| + 1 < n
    ensures Input(o, c).0.buf[At(b, n - 1, n)] == o.buf[At(b, n - 1, n)]
  {
    assert At(b, n - 1, n) != At(b, |t|, n);
  }

  lemma {:induction false} StaleKept(r: Ring, s: seq<byte>, k: nat, f: Ring, x: nat)
    requires r.Idle() && r.state == Fine && AllEscaped(s) && k <= |s| && |s| + 2 <= |r.buf|
    requires f == Feed(r, s[..k]) && x == At(r.begin, |r.buf| - 1, |r.buf|)
    ensures |f.buf| == |r.buf| && f.buf[x] == r.buf[x]
  {
    if k > 0 {
      var g := Feed(r, s[..k - 1]);
      StaleKept(r, s, k - 1, g, x);
      StaleNext(r, s, k - 1, g, f, r.begin, |r.buf|);
    } else {
      assert s[..0] == [];
    }
  }

  lemma StaleNext(r: Ring, s: seq<byte>, k: nat, g: Ring, f: Ring, b: nat, n: nat)
    requires r.Idle() && r.state == Fine && AllEscaped(s) && k < |s| && |s| + 2 <= n && b == r.begin && n == |r.buf|
    requires g == Feed(r, s[..k]) && f == Feed(r, s[..k + 1])
    ensures |f.buf| == |g.buf| == n && f.buf[At(b, n - 1, n)] == g.buf[At(b, n - 1, n)]
  {
    var t, c := s[..k], s[k];
    PrefixNext(s, k);
    FeedNext(r, t, c);
    FeedBody(r, s, k);
    StoredBefore(g, b, n, t, c, StateAfter(t));
  }

  lemma SpanHeld(buf: seq<byte>, b: nat, s: seq<byte>)
    requires b < |buf| && |s| + 1 < |buf| && Span(buf, b, At(b, |s|, |buf|)) == s
    ensures HeldFrom(buf, b, 0, s)
  {
    forall j: nat {:trigger s[j]} | j < |s|
      ensures buf[At(b, 0 + j, |buf|)] == s[j]
    {
      assert Span(buf, b, At(b, |s|, |buf|))[j] == buf[At(b, j, |buf|)];
    }
  }

  /** After the first packet's characters c and its END. */
  lemma BodyArrived(r: Ring, c: seq<byte>)
    requires r.Idle() && r.state == Fine && AllEscaped(c) && StateAfter(c) == Fine && 0 < |c| && |c| + 2 <= |r.buf|
    ensures var o, n := Input(Feed(r, c), END).0, |r.buf|;
            Trailing(o, r.begin, n, |c|, [], Fine) && Around(o, r.begin, n, c, r.buf[At(r.begin, n - 1, n)])
  {
    assert c[..|c|] == c;
    FeedBody(r, c, |c|);
    StaleKept(r, c, |c|, Feed(r, c), At(r.begin, |r.buf| - 1, |r.buf|));
    EndsPacket(Feed(r, c), r.begin, |r.buf|, c);
    SpanHeld(Input(Feed(r, c), END).0.buf, r.begin, c);
  }

  /** After the first packet, whose characters are c. */
  lemma FirstArrived(r: Ring, c: seq<byte>, b: nat, n: nat, stale: byte, o: Ring)
    requires r.Idle() && AllEscaped(c) && StateAfter(c) == Fine && 0 < |c| && |c| + 2 <= n
    requires b == r.begin && n == |r.buf| && stale == r.buf[At(b, n - 1, n)]
    requires o == Input(Feed(Feed(r, [END]), c), END).0
    ensures Trailing(o, b, n, |c|, [], Fine) && Around(o, b, n, c, stale)
  {
    FirstEnd(r);
    FirstEndKeeps(r);
    BodyArrived(Feed(r, [END]), c);
  }

  lemma FirstEndKeeps(r: Ring)
    requires r.Idle()
    ensures var x := At(r.begin, |r.buf| - 1, |r.buf|); Feed(r, [END]).buf[x] == r.buf[x]
  {
    assert [END][..0] == [];
  }

  // ---------------------------------------------------------- what the poll finds

  /** After the first packet is taken out, the next one is s. */
  ghost predicate Finds(o: Ring, s: seq<byte>)
    requires o.Ok()
  {
    var t := Taken(o);
    Span(t.buf, t.begin, t.pktEnd) == s
  }

  /** The search for an END goes past the k bytes from i places behind b on if none of them is one. */
  lemma {:induction false} SearchPasses(buf: seq<byte>, b: nat, i: nat, k: nat, q: nat, fuel: nat)
    requires b < |buf| && q < |buf| && i + k < |buf| && k <= fuel
    requires forall j: nat {:trigger At(b, j, |buf|)} :: i <= j < i + k ==>
               At(b, j, |buf|) != q && buf[At(b, j, |buf|)] != END
    ensures FindEnd(buf, At(b, i, |buf|), q, fuel) == FindEnd(buf, At(b, i + k, |buf|), q, fuel - k)
    decreases k
  {
    if k > 0 {
      assert Succ(At(b, i, |buf|), |buf|) == At(b, i + 1, |buf|);
      SearchPasses(buf, b, i + 1, k - 1, q, fuel - 1);
    }
  }

  predicate NoEnd(w: seq<byte>)
  {
    forall j: nat {:trigger w[j]} :: j < |w| ==> w[j] != END
  }

  lemma HeldSpan(buf: seq<byte>, b: nat, i: nat, w: seq<byte>)
    requires b < |buf| && i + |w| < |buf| && HeldFrom(buf, b, i, w)
    ensures Span(buf, At(b, i, |buf|), At(b, i + |w|, |buf|)) == w
  {
    var t := Span(buf, At(b, i, |buf|), At(b, i + |w|, |buf|));
    assert |t| == |w|;
    forall j: nat {:trigger t[j]} | j < |w|
      ensures t[j] == w[j]
    {
      assert t[j] == buf[At(b, i + j, |buf|)];
    }
  }

  /** The stretch w and its END have arrived, and w holds no END: the poll finds it. */
  lemma TrailingFound(o: Ring, b: nat, n: nat, l: nat, w: seq<byte>)
    requires Trailing(o, b, n, l, w + [END], Fine) && NoEnd(w)
    ensures o.Ok() && var t := Taken(o); HoldsPacket(t, At(b, l + 1, n), n, w)
  {
    var v := w + [END];
    assert v[|w|] == END && o.buf[At(b, l + 1 + |w|, n)] == END;
    HeldPrefix(o.buf, b, l + 1, w, END);
    SearchPassesHeld(o.buf, b, l + 1, w, o.nextFree, n);
    HeldSpan(o.buf, b, l + 1, w);
    Places(b, l, |w|, n);
  }

  lemma Places(b: nat, l: nat, k: nat, n: nat)
    requires b < n && l + 1 + k + 1 < n
    ensures Succ(At(b, l, n), n) == At(b, l + 1, n)
    ensures At(At(b, l + 1, n), k, n) == At(b, l + 1 + k, n)
    ensures At(At(b, l + 1, n), k + 1, n) == At(b, l + 1 + (k + 1), n)
  {
  }

  lemma HeldPrefix(buf: seq<byte>, b: nat, i: nat, w: seq<byte>, c: byte)
    requires b < |buf| && i + |w| < |buf| && HeldFrom(buf, b, i, w + [c])
    ensures HeldFrom(buf, b, i, w)
  {
    var v := w + [c];
    forall j: nat {:trigger w[j]} | j < |w|
      ensures buf[At(b, i + j, |buf|)] == w[j]
    {
      assert v[j] == w[j];
    }
  }

  /** The search goes past bytes w that hold no END. */
  lemma SearchPassesHeld(buf: seq<byte>, b: nat, i: nat, w: seq<byte>, q: nat, fuel: nat)
    requires b < |buf| && q < |buf| && i + |w| < |buf| && |w| <= fuel && HeldFrom(buf, b, i, w) && NoEnd(w)
    requires forall j: nat {:trigger At(b, j, |buf|)} :: i <= j < i + |w| ==> At(b, j, |buf|) != q
    ensures FindEnd(buf, At(b, i, |buf|), q, fuel) == FindEnd(buf, At(b, i + |w|, |buf|), q, fuel - |w|)
  {
    forall j: nat {:trigger At(b, j, |buf|)} | i <= j < i + |w|
      ensures At(b, j, |buf|) != q && buf[At(b, j, |buf|)] != END
    {
      assert buf[At(b, i + (j - i), |buf|)] == w[j - i] != END;
    }
    SearchPasses(buf, b, i, |w|, q, fuel);
  }

  /** Where the poll begins to search there is an END: it finds an empty packet. */
  lemma EndFirst(o: Ring, b: nat, n: nat, l: nat)
    requires o.Ok() && n == |o.buf| && b < n && l + 1 < n && o.pktEnd == At(b, l, n) && o.nextFree != At(b, l + 1, n)
    requires o.buf[At(b, l + 1, n)] == END
    ensures var t := Taken(o); t.begin == t.pktEnd == At(b, l + 1, n) && t.nextFree == o.nextFree
  {
    assert Succ(o.pktEnd, n) == At(b, l + 1, n);
  }

  lemma ChokedStale(o: Ring, b: nat, n: nat, p: seq<byte>, stale: byte, w: seq<byte>)
    requires Choked(o, b, n, |p|, w) && Around(o, b, n, p, stale) && NoEnd(w) && stale == END
    ensures o.Ok() && var t := Taken(o); Span(t.buf, t.begin, t.pktEnd) == w && t.nextFree != t.begin
  {
    StaleFound(o, b, n, |p|, w);
    HeldSpan(o.buf, b, |p| + 1, w);
    assert Succ(o.pktEnd, n) == At(b, |p| + 1, n);
  }

  /** The search stops before the beginning of the first packet. */
  lemma StaleFound(o: Ring, b: nat, n: nat, l: nat, w: seq<byte>)
    requires Choked(o, b, n, l, w) && NoEnd(w) && o.buf[At(b, n - 1, n)] == END
    ensures FindEnd(o.buf, At(b, l + 1, n), o.nextFree, n) == At(b, l + 1 + |w|, n) != o.nextFree
  {
    SearchPassesHeld(o.buf, b, l + 1, w, o.nextFree, n);
  }

  lemma ChokedClean(o: Ring, b: nat, n: nat, p: seq<byte>, stale: byte, w: seq<byte>)
    requires Choked(o, b, n, |p|, w) && Around(o, b, n, p, stale) && NoEnd(w) && NoEnd(p) && stale != END
    ensures o.Ok() && var t := Taken(o); t.begin == t.pktEnd && t.nextFree != t.begin
  {
    assert Succ(o.pktEnd, n) == At(b, |p| + 1, n);
    SearchPassesHeld(o.buf, b, |p| + 1, w, o.nextFree, n);
    assert Succ(At(b, n - 1, n), n) == At(b, 0, n);
    SearchPassesHeld(o.buf, b, 0, p, o.nextFree, n - |w| - 1);
  }

  // -------------------------------------------------------------------- the results

  lemma LeadEscaped(s: seq<byte>, u: seq<byte>)
    requires AllEscaped(s) && StateAfter(s) == Fine && u == [END] + s
    ensures TailEscaped(u) && StateAfter(u) == Fine
  {
    forall i: nat {:trigger Escaped(u, i)} | i > 0
      ensures Escaped(u, i)
    {
      assert Escaped(s, i - 1);
    }
  }

  lemma EscapedNoEnd(s: seq<byte>)
    requires AllEscaped(s)
    ensures TailEscaped(s) && NoEnd(s)
  {
    forall j: nat {:trigger s[j]} | j < |s|
      ensures s[j] != END
    {
      assert Escaped(s, j);
    }
  }

  /** Polling one by one matters: whatever packet slip_write sends before the first one is polled, whether it finds room
      or not, the poll after the first finds nothing, although something is left in the ring. The second packet's
      leading END is taken for its end. */
  lemma SecondPacketNotFound(r: Ring, p: seq<byte>, q: seq<byte>)
    requires r.Idle() && Fits(p, |r.buf|)
    ensures var t := Taken(Feed(Feed(r, Encode(p)), Encode(q))); t.begin == t.pktEnd && t.nextFree != t.pktEnd
  {
    BodyEscaped(p);
    BodyEscaped(q);
    FeedParts(r, Body(p));
    LedBehind(r, Body(p), Body(q), Feed(r, Encode(p)));
  }

  /** The same for any characters c of the first packet and s of the second. */
  lemma LedBehind(r: Ring, c: seq<byte>, s: seq<byte>, o: Ring)
    requires r.Idle() && AllEscaped(c) && StateAfter(c) == Fine && 0 < |c| && |c| + 2 <= |r.buf|
    requires o == Input(Feed(Feed(r, [END]), c), END).0 && AllEscaped(s) && StateAfter(s) == Fine
    ensures var t := Taken(Feed(o, [END] + s + [END])); t.begin == t.pktEnd && t.nextFree != t.pktEnd
  {
    var b, n := r.begin, |r.buf|;
    var stale := r.buf[At(b, n - 1, n)];
    FirstArrived(r, c, b, n, stale, o);
    LeadEscaped(s, [END] + s);
    LedAfter(o, b, n, c, stale, [END] + s);
  }

  lemma UnledBehind(r: Ring, c: seq<byte>, s: seq<byte>, o: Ring, n: nat, stale: byte)
    requires r.Idle() && AllEscaped(c) && StateAfter(c) == Fine && 0 < |c| && |c| + 2 <= n == |r.buf|
    requires o == Input(Feed(Feed(r, [END]), c), END).0 && AllEscaped(s) && StateAfter(s) == Fine && s != []
    requires stale == r.buf[At(r.begin, n - 1, n)]
    ensures Finds(Feed(o, s + [END]), s) <==> |c| + |s| + 3 <= n || (|c| + |s| + 2 == n && stale == END)
  {
    FirstArrived(r, c, r.begin, n, stale, o);
    UnledAfter(o, r.begin, n, c, stale, s);
  }

  lemma LedAfter(o: Ring, b: nat, n: nat, c: seq<byte>, stale: byte, u: seq<byte>)
    requires o.Ok() && Trailing(o, b, n, |c|, [], Fine) && Around(o, b, n, c, stale) && AllEscaped(c)
    requires TailEscaped(u) && StateAfter(u) == Fine && u != [] && u[0] == END
    ensures var t := Taken(Feed(o, u + [END])); t.begin == t.pktEnd && t.nextFree != t.pktEnd
  {
    EscapedNoEnd(c);
    SecondEnd(o, b, n, c, stale, u);
    LeadingEnd(Feed(o, u + [END]), b, n, c, stale, u);
  }

  /** What is found when the stretch u behind the first packet begins with END. */
  lemma LeadingEnd(f: Ring, b: nat, n: nat, c: seq<byte>, stale: byte, u: seq<byte>)
    requires f.Ok() && u != [] && u[0] == END && NoEnd(c) && Around(f, b, n, c, stale) && |c| + 2 <= n
    requires if |c| + |u| + 2 < n then Trailing(f, b, n, |c|, u + [END], Fine)
             else Choked(f, b, n, |c|, u[..n - |c| - 2])
    ensures var t := Taken(f); t.begin == t.pktEnd && t.nextFree != t.pktEnd
  {
    if |c| + 2 == n && stale != END {
      ChokedClean(f, b, n, c, stale, u[..0]);
    } else {
      EndIsFirst(f, b, n, c, stale, u);
      EndFirst(f, b, n, |c|);
    }
  }

  lemma EndIsFirst(f: Ring, b: nat, n: nat, c: seq<byte>, stale: byte, u: seq<byte>)
    requires u != [] && u[0] == END && Around(f, b, n, c, stale) && |c| + 2 <= n && (|c| + 2 == n ==> stale == END)
    requires if |c| + |u| + 2 < n then Trailing(f, b, n, |c|, u + [END], Fine)
             else Choked(f, b, n, |c|, u[..n - |c| - 2])
    ensures f.buf[At(b, |c| + 1, n)] == END && f.nextFree != At(b, |c| + 1, n) && f.pktEnd == At(b, |c|, n)
  {
    if |c| + |u| + 2 < n {
      assert (u + [END])[0] == END;
    } else if |c| + 2 < n {
      assert u[..n - |c| - 2][0] == END;
    }
  }

  /** Behind the first packet, a second stretch of properly escaped characters and its END come out of the next poll as
      they are iff they are not led by an END and find room; or, short of room by the closing END alone, if an END from
      earlier happens to lie where it should be. */
  lemma SecondFound(r: Ring, p: seq<byte>, s: seq<byte>, lead: bool, w: seq<byte>, n: nat, stale: byte)
    requires r.Idle() && n == |r.buf| && Fits(p, n) && AllEscaped(s) && StateAfter(s) == Fine && s != []
    requires w == if lead then [END] + s + [END] else s + [END]
    requires stale == r.buf[At(r.begin, n - 1, n)]
    ensures Finds(Feed(Feed(r, Encode(p)), w), s) <==>
              !lead && (|Body(p)| + |s| + 3 <= n || (|Body(p)| + |s| + 2 == n && stale == END))
  {
    var c, o := Body(p), Feed(r, Encode(p));
    BodyEscaped(p);
    FeedParts(r, c);
    SecondOf(r, c, s, lead, w, n, stale, o);
  }

  lemma SecondOf(r: Ring, c: seq<byte>, s: seq<byte>, lead: bool, w: seq<byte>, n: nat, stale: byte, o: Ring)
    requires r.Idle() && AllEscaped(c) && StateAfter(c) == Fine && 0 < |c| && |c| + 2 <= n == |r.buf|
    requires o == Input(Feed(Feed(r, [END]), c), END).0 && AllEscaped(s) && StateAfter(s) == Fine && s != []
    requires w == if lead then [END] + s + [END] else s + [END]
    requires stale == r.buf[At(r.begin, n - 1, n)]
    ensures Finds(Feed(o, w), s) <==> !lead && (|c| + |s| + 3 <= n || (|c| + |s| + 2 == n && stale == END))
  {
    if lead {
      LedBehind(r, c, s, o);
      NothingFound(Feed(o, w), s);
    } else {
      UnledBehind(r, c, s, o, n, stale);
    }
  }

  lemma NothingFound(f: Ring, s: seq<byte>)
    requires f.Ok() && Taken(f).begin == Taken(f).pktEnd && s != []
    ensures !Finds(f, s)
  {
  }

  lemma UnledAfter(o: Ring, b: nat, n: nat, c: seq<byte>, stale: byte, s: seq<byte>)
    requires o.Ok() && Trailing(o, b, n, |c|, [], Fine) && Around(o, b, n, c, stale) && AllEscaped(c)
    requires AllEscaped(s) && StateAfter(s) == Fine && s != []
    ensures Finds(Feed(o, s + [END]), s) <==> |c| + |s| + 3 <= n || (|c| + |s| + 2 == n && stale == END)
  {
    EscapedNoEnd(s);
    EscapedNoEnd(c);
    SecondEnd(o, b, n, c, stale, s);
    UnledEnd(Feed(o, s + [END]), b, n, c, stale, s);
  }

  /** What is found when the stretch s behind the first packet holds no END. */
  lemma UnledEnd(f: Ring, b: nat, n: nat, c: seq<byte>, stale: byte, s: seq<byte>)
    requires f.Ok() && NoEnd(c) && NoEnd(s) && s != [] && Around(f, b, n, c, stale) && |c| + 2 <= n
    requires if |c| + |s| + 2 < n then Trailing(f, b, n, |c|, s + [END], Fine)
             else Choked(f, b, n, |c|, s[..n - |c| - 2])
    ensures Finds(f, s) <==> |c| + |s| + 3 <= n || (|c| + |s| + 2 == n && stale == END)
  {
    if |c| + |s| + 2 < n {
      TrailingFound(f, b, n, |c|, s);
    } else {
      ChokedFinds(f, b, n, c, stale, s);
    }
  }

  lemma ChokedFinds(f: Ring, b: nat, n: nat, c: seq<byte>, stale: byte, s: seq<byte>)
    requires f.Ok() && NoEnd(c) && NoEnd(s) && Around(f, b, n, c, stale) && |c| + 2 <= n <= |c| + |s| + 2
    requires Choked(f, b, n, |c|, s[..n - |c| - 2]) && s != []
    ensures Finds(f, s) <==> |c| + |s| + 2 == n && stale == END
  {
    var w := s[..n - |c| - 2];
    assert NoEnd(w) by {
      forall j: nat {:trigger w[j]} | j < |w| ensures w[j] != END {
        assert w[j] == s[j];
      }
    }
    if stale == END {
      ChokedStale(f, b, n, c, stale, w);
    } else {
      ChokedClean(f, b, n, c, stale, w);
      var t := Taken(f);
      assert Span(t.buf, t.begin, t.pktEnd) == [];
    }
  }

  /** So a second packet without its leading END is decoded as it was sent. */
  lemma SecondDecoded(r: Ring, p: seq<byte>, q: seq<byte>, f: Ring)
    requires r.Idle() && Fits(p, |r.buf|) && q != [] && |Body(p)| + |Body(q)| + 3 <= |r.buf|
    requires f == Feed(Feed(r, Encode(p)), Body(q) + [END])
    ensures f.Ok() && var t := Taken(f);
            t.begin != t.pktEnd && Decode(Span(t.buf, t.begin, t.pktEnd)) == Decoder(q, false)
  {
    var n := |r.buf|;
    BodyEscaped(q);
    SecondFound(r, p, Body(q), false, Body(q) + [END], n, r.buf[At(r.begin, n - 1, n)]);
    FoundDecoded(f, q, Body(q));
  }

  lemma FoundDecoded(f: Ring, q: seq<byte>, c: seq<byte>)
    requires f.Ok() && c == Body(q) && Finds(f, c) && q != []
    ensures var t := Taken(f); t.begin != t.pktEnd && Decode(Span(t.buf, t.begin, t.pktEnd)) == Decoder(q, false)
  {
    var t := Taken(f);
    DecodeBody(q);
    SpanNotEmpty(t.buf, t.begin, t.pktEnd);
  }

  lemma SpanNotEmpty(buf: seq<byte>, p: nat, q: nat)
    requires p < |buf| && q < |buf|
    ensures Span(buf, p, q) != [] <==> p != q
  {
  }
}
