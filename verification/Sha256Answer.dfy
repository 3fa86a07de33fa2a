/**
 The example of FIPS 180-4 with a message of one block, "abc": by the definitions in HashSpec, Sha256Spec and
 Sha256Words its digest is the one that is published for it.
 */
module Sha256Answer {
  import opened Arith
  import opened HashSpec
  import opened Sha256Constants
  import opened Sha256Spec
  import opened Sha256Words

  // ------------------------------------------------------ a calculation in rows of four

  ghost predicate Fours<W>(rows: seq<seq<W>>)
  {
    forall n: nat {:trigger rows[n]} :: n < |rows| ==> |rows[n]| == 4
  }

  /** s is the first n rows, one after the other. */
  ghost predicate InRows<W>(s: seq<W>, rows: seq<seq<W>>, n: nat)
    requires Fours(rows) && n <= |rows|
  {
    |s| == 4 * n && forall m: nat {:trigger rows[m]} :: m < n ==> s[4 * m..4 * m + 4] == rows[m]
  }

  lemma OneRowMore<W>(s: seq<W>, rows: seq<seq<W>>, n: nat)
    requires Fours(rows) && n < |rows| && InRows(s, rows, n)
    ensures InRows(s + rows[n], rows, n + 1)
  {
    var s' := s + rows[n];
    forall m: nat {:trigger rows[m]} | m < n + 1
      ensures s'[4 * m..4 * m + 4] == rows[m]
    {
      if m < n {
        assert s'[4 * m..4 * m + 4] == s[4 * m..4 * m + 4];
      }
    }
  }

  /** One word of the message schedule. */
  function NextWord<W>(p: Primitives<W>, a: W, b: W, c: W, d: W): W
  {
    p.add(p.add(p.add(p.smallSigma1(a), b), p.smallSigma0(c)), d)
  }

  lemma ScheduleNext<W>(p: Primitives<W>, block: seq<W>, t: nat, a: W, b: W, c: W, d: W)
    requires |block| == 16 && t >= 16
    requires Schedule(p, block, t - 2) == a && Schedule(p, block, t - 7) == b
    requires Schedule(p, block, t - 15) == c && Schedule(p, block, t - 16) == d
    ensures Schedule(p, block, t) == NextWord(p, a, b, c, d)
  {
  }

  /** The four words after four rows of four. */
  function NextFour<W>(p: Primitives<W>, a: seq<W>, b: seq<W>, c: seq<W>, d: seq<W>): (e: seq<W>)
    requires |a| == |b| == |c| == |d| == 4
    ensures |e| == 4
  {
    var x, y := NextWord(p, d[2], c[1], a[1], a[0]), NextWord(p, d[3], c[2], a[2], a[1]);
    [x, y, NextWord(p, x, c[3], a[3], a[2]), NextWord(p, y, d[0], b[0], a[3])]
  }

  ghost predicate ScheduleRow<W>(p: Primitives<W>, ws: seq<seq<W>>, n: nat)
    requires Fours(ws) && 4 <= n < |ws|
  {
    ws[n] == NextFour(p, ws[n - 4], ws[n - 3], ws[n - 2], ws[n - 1])
  }

  ghost predicate ScheduleRows<W>(p: Primitives<W>, ws: seq<seq<W>>)
  {
    && Fours(ws)
    && forall n: nat {:trigger ScheduleRow(p, ws, n)} :: 4 <= n < |ws| ==> ScheduleRow(p, ws, n)
  }

  ghost predicate RowScheduled<W>(p: Primitives<W>, block: seq<W>, n: nat, w: seq<W>)
    requires |block| == 16 && |w| == 4
  {
    && Schedule(p, block, 4 * n) == w[0] && Schedule(p, block, 4 * n + 1) == w[1]
    && Schedule(p, block, 4 * n + 2) == w[2] && Schedule(p, block, 4 * n + 3) == w[3]
  }

  lemma FourScheduled<W>(p: Primitives<W>, block: seq<W>, n: nat, a: seq<W>, b: seq<W>, c: seq<W>, d: seq<W>)
    requires |block| == 16 && n >= 4 && |a| == |b| == |c| == |d| == 4
    requires RowScheduled(p, block, n - 4, a) && RowScheduled(p, block, n - 3, b)
    requires RowScheduled(p, block, n - 2, c) && RowScheduled(p, block, n - 1, d)
    ensures RowScheduled(p, block, n, NextFour(p, a, b, c, d))
  {
    var t, x, y := 4 * n, NextWord(p, d[2], c[1], a[1], a[0]), NextWord(p, d[3], c[2], a[2], a[1]);
    ScheduleNext(p, block, t, d[2], c[1], a[1], a[0]);
    ScheduleNext(p, block, t + 1, d[3], c[2], a[2], a[1]);
    ScheduleNext(p, block, t + 2, x, c[3], a[3], a[2]);
    ScheduleNext(p, block, t + 3, y, d[0], b[0], a[3]);
  }

  /** Such rows are the message schedule. */
  lemma {:induction false} ScheduleIs<W>(p: Primitives<W>, ws: seq<seq<W>>, block: seq<W>, n: nat)
    requires ScheduleRows(p, ws) && n < |ws| && |ws| >= 4 && InRows(block, ws, 4)
    ensures RowScheduled(p, block, n, ws[n])
  {
    if n < 4 {
      assert block[4 * n..4 * n + 4] == ws[n];
    } else {
      ScheduleIs(p, ws, block, n - 4);
      ScheduleIs(p, ws, block, n - 3);
      ScheduleIs(p, ws, block, n - 2);
      ScheduleIs(p, ws, block, n - 1);
      assert ScheduleRow(p, ws, n);
      FourScheduled(p, block, n, ws[n - 4], ws[n - 3], ws[n - 2], ws[n - 1]);
    }
  }

  function Four<W>(p: Primitives<W>, r: Regs<W>, k: seq<W>, w: seq<W>): Regs<W>
    requires |k| == |w| == 4
  {
    Round(p, Round(p, Round(p, Round(p, r, k[0], w[0]), k[1], w[1]), k[2], w[2]), k[3], w[3])
  }

  ghost predicate RoundRows<W>(p: Primitives<W>, ks: seq<seq<W>>, ws: seq<seq<W>>, rs: seq<Regs<W>>)
  {
    && Fours(ks) && Fours(ws) && |ws| == |ks| == |rs| - 1
    && forall n: nat {:trigger RoundRow(p, ks, ws, rs, n)} :: n < |ks| ==> RoundRow(p, ks, ws, rs, n)
  }

  ghost predicate RoundRow<W>(p: Primitives<W>, ks: seq<seq<W>>, ws: seq<seq<W>>, rs: seq<Regs<W>>, n: nat)
    requires Fours(ks) && Fours(ws) && n < |ws| == |ks| == |rs| - 1
  {
    Four(p, rs[n], ks[n], ws[n]) == rs[n + 1]
  }

  lemma RoundNext<W>(p: Primitives<W>, r: Regs<W>, block: seq<W>, t: nat, k: W, w: W)
    requires p.Ok() && |block| == 16 && t < 64 && p.k[t] == k && Schedule(p, block, t) == w
    ensures Rounds(p, r, block, t + 1) == Round(p, Rounds(p, r, block, t), k, w)
  {
  }

  lemma FourRounds<W>(p: Primitives<W>, r: Regs<W>, block: seq<W>, n: nat, k: seq<W>, w: seq<W>)
    requires p.Ok() && |block| == 16 && n < 16 && |k| == |w| == 4
    requires p.k[4 * n..4 * n + 4] == k && RowScheduled(p, block, n, w)
    ensures Rounds(p, r, block, 4 * n + 4) == Four(p, Rounds(p, r, block, 4 * n), k, w)
  {
    var t := 4 * n;
    var s := p.k[t..t + 4];
    assert s[0] == p.k[t] && s[1] == p.k[t + 1] && s[2] == p.k[t + 2] && s[3] == p.k[t + 3];
    RoundNext(p, r, block, t, k[0], w[0]);
    RoundNext(p, r, block, t + 1, k[1], w[1]);
    RoundNext(p, r, block, t + 2, k[2], w[2]);
    RoundNext(p, r, block, t + 3, k[3], w[3]);
  }

  lemma RowsNext<W>(p: Primitives<W>, ks: seq<seq<W>>, ws: seq<seq<W>>, rs: seq<Regs<W>>, block: seq<W>, n: nat)
    requires p.Ok() && n < |ks| == 16 && RoundRows(p, ks, ws, rs) && InRows(p.k, ks, 16)
    requires ScheduleRows(p, ws) && InRows(block, ws, 4)
    ensures Rounds(p, rs[0], block, 4 * n + 4) == Four(p, Rounds(p, rs[0], block, 4 * n), ks[n], ws[n])
  {
    ScheduleIs(p, ws, block, n);
    assert p.k[4 * n..4 * n + 4] == ks[n];
    FourRounds(p, rs[0], block, n, ks[n], ws[n]);
  }

  lemma RowStays<W>(p: Primitives<W>, ks: seq<seq<W>>, ws: seq<seq<W>>, rs: seq<Regs<W>>, block: seq<W>, n: nat)
    requires p.Ok() && n < |ks| == 16 && RoundRows(p, ks, ws, rs) && InRows(p.k, ks, 16)
    requires ScheduleRows(p, ws) && InRows(block, ws, 4) && Rounds(p, rs[0], block, 4 * n) == rs[n]
    ensures Rounds(p, rs[0], block, 4 * n + 4) == rs[n + 1]
  {
    assert RoundRow(p, ks, ws, rs, n);
    RowsNext(p, ks, ws, rs, block, n);
  }

  /** The working variables after every fourth round. */
  function EveryFourth<W>(p: Primitives<W>, r: Regs<W>, block: seq<W>): (a: seq<Regs<W>>)
    requires p.Ok() && |block| == 16
    ensures |a| == 17
    ensures forall i: nat {:trigger a[i]} :: i < 17 ==> a[i] == Rounds(p, r, block, 4 * i)
  {
    seq(17, i requires 0 <= i < 17 => Rounds(p, r, block, 4 * i))
  }

  /** Such rows are the rounds. */
  lemma RoundsAre<W>(p: Primitives<W>, ks: seq<seq<W>>, ws: seq<seq<W>>, rs: seq<Regs<W>>, block: seq<W>, n: nat)
    requires p.Ok() && n <= |ks| == 16 && RoundRows(p, ks, ws, rs) && InRows(p.k, ks, 16)
    requires ScheduleRows(p, ws) && InRows(block, ws, 4)
    ensures EveryFourth(p, rs[0], block)[n] == rs[n]
  {
    var a := EveryFourth(p, rs[0], block);
    forall i: nat {:trigger StaysEqual(a, rs, i)} | i + 1 < 17
      ensures StaysEqual(a, rs, i)
    {
      if a[i] == rs[i] {
        RowStays(p, ks, ws, rs, block, i);
        assert a[i + 1] == Rounds(p, rs[0], block, 4 * (i + 1));
      }
    }
    assert a[0] == Rounds(p, rs[0], block, 0);
    EqualOn(a, rs, n);
  }

  // ------------------------------------------------------------- the calculation for "abc"

  const W0: seq<word> := [0x61626380, 0x00000000, 0x00000000, 0x00000000]
  const W1: seq<word> := [0x00000000, 0x00000000, 0x00000000, 0x00000000]
  const W2: seq<word> := [0x00000000, 0x00000000, 0x00000000, 0x00000000]
  const W3: seq<word> := [0x00000000, 0x00000000, 0x00000000, 0x00000018]
  const W4: seq<word> := [0x61626380, 0x000f0000, 0x7da86405, 0x600003c6]
  const W5: seq<word> := [0x3e9d7b78, 0x0183fc00, 0x12dcbfdb, 0xe2e2c38e]
  const W6: seq<word> := [0xc8215c1a, 0xb73679a2, 0xe5bc3909, 0x32663c5b]
  const W7: seq<word> := [0x9d209d67, 0xec8726cb, 0x702138a4, 0xd3b7973b]
  const W8: seq<word> := [0x93f5997f, 0x3b68ba73, 0xaff4ffc1, 0xf10a5c62]
  const W9: seq<word> := [0x0a8b3996, 0x72af830a, 0x9409e33e, 0x24641522]
  const W10: seq<word> := [0x9f47bf94, 0xf0a64f5a, 0x3e246a79, 0x27333ba3]
  const W11: seq<word> := [0x0c4763f2, 0x840abf27, 0x7a290d5d, 0x065c43da]
  const W12: seq<word> := [0xfb3e89cb, 0xcc7617db, 0xb9e66c34, 0xa9993667]
  const W13: seq<word> := [0x84badedd, 0xc21462bc, 0x1487472c, 0xb20f7a99]
  const W14: seq<word> := [0xef57b9cd, 0xebe6b238, 0x9fe3095e, 0x78bc8d4b]
  const W15: seq<word> := [0xa43fcf15, 0x668b2ff8, 0xeeaba2cc, 0x12b1edeb]

  /** The working variables after every fourth round. */
  const R0: Regs<word> :=
    Regs(0x6a09e667, 0xbb67ae85, 0x3c6ef372, 0xa54ff53a, 0x510e527f, 0x9b05688c, 0x1f83d9ab, 0x5be0cd19)
  const R1: Regs<word> :=
    Regs(0xd550f666, 0xc8c347a7, 0x5a6ad9ad, 0x5d6aebcd, 0x24e00850, 0xf92939eb, 0x78ce7989, 0xfa2a4622)
  const R2: Regs<word> :=
    Regs(0x85a07b5f, 0xe5030380, 0x2b4209f5, 0x04409a6a, 0x0c657a79, 0x9b27a401, 0x714260ad, 0x43ada245)
  const R3: Regs<word> :=
    Regs(0xf71fc5a9, 0x4798a3f4, 0x8c87346b, 0x8e04ecb9, 0x816fd6e9, 0x436b23e8, 0x1cc92596, 0x32ca2d8c)
  const R4: Regs<word> :=
    Regs(0xb0fa238e, 0xc0645fde, 0xd932eb16, 0x87912990, 0x07590dcd, 0x0b92f20c, 0x745a48de, 0x1e578218)
  const R5: Regs<word> :=
    Regs(0xe1f20c33, 0xfe777bbf, 0xc2fbd9d1, 0x21da9a9b, 0xb0638179, 0xcc899961, 0x846ee454, 0x8034229c)
  const R6: Regs<word> :=
    Regs(0xc5d53d8d, 0xa7a3623f, 0xc2606d6d, 0x9dc68b63, 0xaa47c347, 0x49f5114a, 0xe1257970, 0x8ada8930)
  const R7: Regs<word> :=
    Regs(0x77d37528, 0xb62ec4bc, 0xcde8037d, 0x1c2c2838, 0xedffbff8, 0xc74c6516, 0x14383d8e, 0x2823ef91)
  const R8: Regs<word> :=
    Regs(0x73b33bf5, 0xea992a22, 0xa0060b30, 0x363482c9, 0xba591112, 0x0109ab3a, 0xade79437, 0x6112a3b7)
  const R9: Regs<word> :=
    Regs(0x65a0cfe4, 0xa9a7738c, 0xfe604df5, 0x98e12507, 0xf4b002d6, 0x085f3833, 0x59249dd3, 0x9cd9f5f6)
  const R10: Regs<word> :=
    Regs(0x79ea687a, 0x6dc57a8a, 0x34df1604, 0x41a65cb1, 0x1efbc0a0, 0xf0781bc8, 0xa507a53d, 0x0772a26b)
  const R11: Regs<word> :=
    Regs(0x9d4baf93, 0x17aa0dfe, 0xdf46652f, 0xd6670766, 0xfda24c2e, 0xdecd4715, 0x838b2711, 0x26352d63)
  const R12: Regs<word> :=
    Regs(0x4172328d, 0xa14c14b0, 0x72ab4b91, 0x26628815, 0xfecf0bc6, 0xd57b94a9, 0xb7755da1, 0xa80f11f0)
  const R13: Regs<word> :=
    Regs(0x886e7a22, 0x7a0508a1, 0xf11bfaa8, 0x05757ceb, 0x49231c1e, 0x52f1ccf7, 0x6e5c390c, 0xbd714038)
  const R14: Regs<word> :=
    Regs(0x38cc9913, 0x3ec45cdb, 0xf5702fdb, 0x101fd28f, 0x54cb266b, 0xe50e1b4f, 0x9f4787c3, 0x529e7d00)
  const R15: Regs<word> :=
    Regs(0xb6ae8fff, 0xffb70472, 0xc062d46f, 0xfcd1887b, 0xb21bad3d, 0x6d83bfc6, 0x7e44008e, 0x9b5e906c)
  const R16: Regs<word> :=
    Regs(0x506e3058, 0xd39a2165, 0x04d24d6c, 0xb85e2ce9, 0x5ef50f24, 0xfb121210, 0x948d25b6, 0x961f4894)

  const KS: seq<seq<word>> := [K0, K1, K2, K3, K4, K5, K6, K7, K8, K9, K10, K11, K12, K13, K14, K15]
  const WS: seq<seq<word>> := [W0, W1, W2, W3, W4, W5, W6, W7, W8, W9, W10, W11, W12, W13, W14, W15]
  const RS: seq<Regs<word>> := [R0, R1, R2, R3, R4, R5, R6, R7, R8, R9, R10, R11, R12, R13, R14, R15, R16]

  lemma FourRowsMore(k: seq<word>, n: nat)
    requires Fours(KS) && n + 4 <= 16 && InRows(k, KS, n)
    ensures InRows(k + KS[n] + KS[n + 1] + KS[n + 2] + KS[n + 3], KS, n + 4)
  {
    OneRowMore(k, KS, n);
    OneRowMore(k + KS[n], KS, n + 1);
    OneRowMore(k + KS[n] + KS[n + 1], KS, n + 2);
    OneRowMore(k + KS[n] + KS[n + 1] + KS[n + 2], KS, n + 3);
  }

  const FIRST: seq<word> := K0 + K1 + K2 + K3 + K4 + K5 + K6 + K7

  lemma FirstInRows()
    requires Fours(KS)
    ensures InRows(FIRST, KS, 8)
  {
    FourRowsMore([], 0);
    assert [] + K0 == K0;
    FourRowsMore(K0 + K1 + K2 + K3, 4);
  }

  lemma ConstantsInRows()
    ensures Fours(KS) && InRows(K, KS, 16)
  {
    FirstInRows();
    FourRowsMore(FIRST, 8);
    FourRowsMore(FIRST + K8 + K9 + K10 + K11, 12);
  }

  lemma Words4()
    ensures W4 == NextFour(Fips(), W0, W1, W2, W3)
    ensures W5 == NextFour(Fips(), W1, W2, W3, W4)
  {
  }

  lemma Words6()
    ensures W6 == NextFour(Fips(), W2, W3, W4, W5)
    ensures W7 == NextFour(Fips(), W3, W4, W5, W6)
  {
  }

  lemma Words8()
    ensures W8 == NextFour(Fips(), W4, W5, W6, W7)
    ensures W9 == NextFour(Fips(), W5, W6, W7, W8)
  {
  }

  lemma Words10()
    ensures W10 == NextFour(Fips(), W6, W7, W8, W9)
    ensures W11 == NextFour(Fips(), W7, W8, W9, W10)
  {
  }

  lemma Words12()
    ensures W12 == NextFour(Fips(), W8, W9, W10, W11)
    ensures W13 == NextFour(Fips(), W9, W10, W11, W12)
  {
  }

  lemma Words14()
    ensures W14 == NextFour(Fips(), W10, W11, W12, W13)
    ensures W15 == NextFour(Fips(), W11, W12, W13, W14)
  {
  }

  lemma WordRows4(p: Primitives<word>)
    requires Fours(WS)
    requires W4 == NextFour(p, W0, W1, W2, W3)
    requires W5 == NextFour(p, W1, W2, W3, W4)
    ensures ScheduleRow(p, WS, 4) && ScheduleRow(p, WS, 5)
  {
  }

  lemma WordRows6(p: Primitives<word>)
    requires Fours(WS)
    requires W6 == NextFour(p, W2, W3, W4, W5)
    requires W7 == NextFour(p, W3, W4, W5, W6)
    ensures ScheduleRow(p, WS, 6) && ScheduleRow(p, WS, 7)
  {
  }

  lemma WordRows8(p: Primitives<word>)
    requires Fours(WS)
    requires W8 == NextFour(p, W4, W5, W6, W7)
    requires W9 == NextFour(p, W5, W6, W7, W8)
    ensures ScheduleRow(p, WS, 8) && ScheduleRow(p, WS, 9)
  {
  }

  lemma WordRows10(p: Primitives<word>)
    requires Fours(WS)
    requires W10 == NextFour(p, W6, W7, W8, W9)
    requires W11 == NextFour(p, W7, W8, W9, W10)
    ensures ScheduleRow(p, WS, 10) && ScheduleRow(p, WS, 11)
  {
  }

  lemma WordRows12(p: Primitives<word>)
    requires Fours(WS)
    requires W12 == NextFour(p, W8, W9, W10, W11)
    requires W13 == NextFour(p, W9, W10, W11, W12)
    ensures ScheduleRow(p, WS, 12) && ScheduleRow(p, WS, 13)
  {
  }

  lemma WordRows14(p: Primitives<word>)
    requires Fours(WS)
    requires W14 == NextFour(p, W10, W11, W12, W13)
    requires W15 == NextFour(p, W11, W12, W13, W14)
    ensures ScheduleRow(p, WS, 14) && ScheduleRow(p, WS, 15)
  {
  }

  ghost predicate AllWords(p: Primitives<word>)
  {
    && W4 == NextFour(p, W0, W1, W2, W3)
    && W5 == NextFour(p, W1, W2, W3, W4)
    && W6 == NextFour(p, W2, W3, W4, W5)
    && W7 == NextFour(p, W3, W4, W5, W6)
    && W8 == NextFour(p, W4, W5, W6, W7)
    && W9 == NextFour(p, W5, W6, W7, W8)
    && W10 == NextFour(p, W6, W7, W8, W9)
    && W11 == NextFour(p, W7, W8, W9, W10)
    && W12 == NextFour(p, W8, W9, W10, W11)
    && W13 == NextFour(p, W9, W10, W11, W12)
    && W14 == NextFour(p, W10, W11, W12, W13)
    && W15 == NextFour(p, W11, W12, W13, W14)
  }

  lemma WordsRow(p: Primitives<word>, n: nat)
    requires 4 <= n < 16 && Fours(WS) && AllWords(p)
    ensures ScheduleRow(p, WS, n)
  {
    if n < 6 {
      WordRows4(p);
    } else if n < 8 {
      WordRows6(p);
    } else if n < 10 {
      WordRows8(p);
    } else if n < 12 {
      WordRows10(p);
    } else if n < 14 {
      WordRows12(p);
    } else {
      WordRows14(p);
    }
  }

  lemma EveryWord()
    ensures AllWords(Fips())
  {
    Words4();
    Words6();
    Words8();
    Words10();
    Words12();
    Words14();
  }

  lemma WholeSchedule(p: Primitives<word>)
    requires AllWords(p)
    ensures ScheduleRows(p, WS) && |WS| == 16
  {
    forall n: nat {:trigger ScheduleRow(p, WS, n)} | 4 <= n < 16
      ensures ScheduleRow(p, WS, n)
    {
      WordsRow(p, n);
    }
  }

  lemma Rounds0()
    ensures Four(Fips(), R0, K0, W0) == R1 && Four(Fips(), R1, K1, W1) == R2
  {
  }

  lemma Rounds2()
    ensures Four(Fips(), R2, K2, W2) == R3 && Four(Fips(), R3, K3, W3) == R4
  {
  }

  lemma Rounds4()
    ensures Four(Fips(), R4, K4, W4) == R5 && Four(Fips(), R5, K5, W5) == R6
  {
  }

  lemma Rounds6()
    ensures Four(Fips(), R6, K6, W6) == R7 && Four(Fips(), R7, K7, W7) == R8
  {
  }

  lemma Rounds8()
    ensures Four(Fips(), R8, K8, W8) == R9 && Four(Fips(), R9, K9, W9) == R10
  {
  }

  lemma Rounds10()
    ensures Four(Fips(), R10, K10, W10) == R11 && Four(Fips(), R11, K11, W11) == R12
  {
  }

  lemma Rounds12()
    ensures Four(Fips(), R12, K12, W12) == R13 && Four(Fips(), R13, K13, W13) == R14
  {
  }

  lemma Rounds14()
    ensures Four(Fips(), R14, K14, W14) == R15 && Four(Fips(), R15, K15, W15) == R16
  {
  }

  lemma Rows0(p: Primitives<word>)
    requires Fours(KS) && Fours(WS)
    requires Four(p, R0, K0, W0) == R1 && Four(p, R1, K1, W1) == R2
    ensures RoundRow(p, KS, WS, RS, 0) && RoundRow(p, KS, WS, RS, 1)
  {
  }

  lemma Rows2(p: Primitives<word>)
    requires Fours(KS) && Fours(WS)
    requires Four(p, R2, K2, W2) == R3 && Four(p, R3, K3, W3) == R4
    ensures RoundRow(p, KS, WS, RS, 2) && RoundRow(p, KS, WS, RS, 3)
  {
  }

  lemma Rows4(p: Primitives<word>)
    requires Fours(KS) && Fours(WS)
    requires Four(p, R4, K4, W4) == R5 && Four(p, R5, K5, W5) == R6
    ensures RoundRow(p, KS, WS, RS, 4) && RoundRow(p, KS, WS, RS, 5)
  {
  }

  lemma Rows6(p: Primitives<word>)
    requires Fours(KS) && Fours(WS)
    requires Four(p, R6, K6, W6) == R7 && Four(p, R7, K7, W7) == R8
    ensures RoundRow(p, KS, WS, RS, 6) && RoundRow(p, KS, WS, RS, 7)
  {
  }

  lemma Rows8(p: Primitives<word>)
    requires Fours(KS) && Fours(WS)
    requires Four(p, R8, K8, W8) == R9 && Four(p, R9, K9, W9) == R10
    ensures RoundRow(p, KS, WS, RS, 8) && RoundRow(p, KS, WS, RS, 9)
  {
  }

  lemma Rows10(p: Primitives<word>)
    requires Fours(KS) && Fours(WS)
    requires Four(p, R10, K10, W10) == R11 && Four(p, R11, K11, W11) == R12
    ensures RoundRow(p, KS, WS, RS, 10) && RoundRow(p, KS, WS, RS, 11)
  {
  }

  lemma Rows12(p: Primitives<word>)
    requires Fours(KS) && Fours(WS)
    requires Four(p, R12, K12, W12) == R13 && Four(p, R13, K13, W13) == R14
    ensures RoundRow(p, KS, WS, RS, 12) && RoundRow(p, KS, WS, RS, 13)
  {
  }

  lemma Rows14(p: Primitives<word>)
    requires Fours(KS) && Fours(WS)
    requires Four(p, R14, K14, W14) == R15 && Four(p, R15, K15, W15) == R16
    ensures RoundRow(p, KS, WS, RS, 14) && RoundRow(p, KS, WS, RS, 15)
  {
  }

  ghost predicate IsRow(n: nat)
    requires n < 16 && Fours(KS) && Fours(WS)
  {
    RoundRow(Fips(), KS, WS, RS, n)
  }

  lemma BothRows0()
    requires Fours(KS) && Fours(WS)
    ensures IsRow(0) && IsRow(1)
  {
    Rounds0();
    Rows0(Fips());
  }

  lemma BothRows2()
    requires Fours(KS) && Fours(WS)
    ensures IsRow(2) && IsRow(3)
  {
    Rounds2();
    Rows2(Fips());
  }

  lemma BothRows4()
    requires Fours(KS) && Fours(WS)
    ensures IsRow(4) && IsRow(5)
  {
    Rounds4();
    Rows4(Fips());
  }

  lemma BothRows6()
    requires Fours(KS) && Fours(WS)
    ensures IsRow(6) && IsRow(7)
  {
    Rounds6();
    Rows6(Fips());
  }

  lemma BothRows8()
    requires Fours(KS) && Fours(WS)
    ensures IsRow(8) && IsRow(9)
  {
    Rounds8();
    Rows8(Fips());
  }

  lemma BothRows10()
    requires Fours(KS) && Fours(WS)
    ensures IsRow(10) && IsRow(11)
  {
    Rounds10();
    Rows10(Fips());
  }

  lemma BothRows12()
    requires Fours(KS) && Fours(WS)
    ensures IsRow(12) && IsRow(13)
  {
    Rounds12();
    Rows12(Fips());
  }

  lemma BothRows14()
    requires Fours(KS) && Fours(WS)
    ensures IsRow(14) && IsRow(15)
  {
    Rounds14();
    Rows14(Fips());
  }

  lemma RoundsRow(n: nat)
    requires n < 16 && Fours(KS) && Fours(WS)
    ensures IsRow(n)
  {
    match n
    case 0 => BothRows0();
    case 1 => BothRows0();
    case 2 => BothRows2();
    case 3 => BothRows2();
    case 4 => BothRows4();
    case 5 => BothRows4();
    case 6 => BothRows6();
    case 7 => BothRows6();
    case 8 => BothRows8();
    case 9 => BothRows8();
    case 10 => BothRows10();
    case 11 => BothRows10();
    case 12 => BothRows12();
    case 13 => BothRows12();
    case 14 => BothRows14();
    case _ => BothRows14();
  }

  lemma WholeRounds()
    ensures RoundRows(Fips(), KS, WS, RS)
  {
    forall n: nat {:trigger RoundRow(Fips(), KS, WS, RS, n)} | n < 16
      ensures RoundRow(Fips(), KS, WS, RS, n)
    {
      RoundsRow(n);
      assert IsRow(n);
    }
  }

  // ---------------------------------------------------------------- the digest

  const ABC: seq<byte> := [0x61, 0x62, 0x63]

  const SUM: seq<word> :=
    [0xba7816bf, 0x8f01cfea, 0x414140de, 0x5dae2223,
     0xb00361a3, 0x96177a9c, 0xb410ff61, 0xf20015ad]

  /** The digest that is published for "abc". */
  const ANSWER: seq<byte> :=
    [0xba, 0x78, 0x16, 0xbf, 0x8f, 0x01, 0xcf, 0xea,
     0x41, 0x41, 0x40, 0xde, 0x5d, 0xae, 0x22, 0x23,
     0xb0, 0x03, 0x61, 0xa3, 0x96, 0x17, 0x7a, 0x9c,
     0xb4, 0x10, 0xff, 0x61, 0xf2, 0x00, 0x15, 0xad]

  /** The padded message. */
  ghost predicate Padded(b: seq<byte>)
  {
    && |b| == 64 && b[0] == 0x61 && b[1] == 0x62 && b[2] == 0x63 && b[3] == 0x80 && b[63] == 0x18
    && forall i: nat {:trigger b[i]} :: 4 <= i < 63 ==> b[i] == 0
  }

  lemma PaddedAbc()
    ensures PaddedBlocks(|ABC|) == 1 && Padded(ABC + Padding(|ABC|, 8 * |ABC|))
  {
    var n, pad := 8 * |ABC|, Padding(|ABC|, 8 * |ABC|);
    forall j: nat | j < 8
      ensures Digit(n, j) == if j == 0 then 24 else 0
    {
      LengthBytes(n, j);
    }
    assert |pad| == 61 && pad[0] == 0x80;
    assert forall i: nat {:trigger pad[i]} :: 1 <= i < 53 ==> pad[i] == 0;
    assert forall i: nat {:trigger pad[i]} :: 53 <= i < 61 ==> pad[i] == Digit(n, 7 - (i - 53)) as byte;
  }

  lemma {:induction false} LengthBytes(n: nat, k: nat)
    requires n < 256
    ensures Digit(n, k) == if k == 0 then n else 0
  {
    if k > 0 {
      LengthBytes(0, k - 1);
    }
  }

  lemma WordsOfAbc(b: seq<byte>)
    requires Padded(b) && Fours(WS)
    ensures InRows(Words(Fips(), b), WS, 4)
  {
    var v := Words(Fips(), b);
    forall i: nat | i < 16
      ensures v[i] == Decode(b[4 * i], b[4 * i + 1], b[4 * i + 2], b[4 * i + 3])
    {
    }
    assert v[0..4] == W0 && v[4..8] == W1 && v[8..12] == W2 && v[12..16] == W3;
  }

  /** The working variables after the last round. */
  lemma LastRound(b: seq<byte>)
    requires Fips().Ok() && Padded(b)
    ensures Rounds(Fips(), R0, Words(Fips(), b), 64) == R16
  {
    ConstantsInRows();
    EveryWord();
    WholeSchedule(Fips());
    WholeRounds();
    WordsOfAbc(b);
    RowsGive(Fips(), Words(Fips(), b));
  }

  lemma RowsGive(p: Primitives<word>, block: seq<word>)
    requires Fours(KS) && Fours(WS) && p.Ok() && InRows(p.k, KS, 16) && RoundRows(p, KS, WS, RS)
    requires ScheduleRows(p, WS) && InRows(block, WS, 4)
    ensures Rounds(p, R0, block, 64) == R16
  {
    RoundsAre(p, KS, WS, RS, block, 16);
    assert EveryFourth(p, R0, block)[16] == Rounds(p, R0, block, 64);
  }

  /** The compression of the block. */
  lemma CompressAbc(b: seq<byte>)
    requires Fips().Ok() && Padded(b)
    ensures Compress(Fips(), IV, b) == SUM
  {
    LastRound(b);
    assert RegsOf(IV) == R0;
  }

  lemma {:induction false} Encoded(p: Primitives<word>, s: seq<word>, b: seq<byte>, n: nat)
    requires n <= |s| && |b| == 4 * |s|
    requires forall i: nat {:trigger s[i]} ::
               i < |s| ==> p.encode(s[i]) == (b[4 * i], b[4 * i + 1], b[4 * i + 2], b[4 * i + 3])
    ensures Encode(p, s[..n]) == b[..4 * n]
  {
    if n > 0 {
      Encoded(p, s, b, n - 1);
      assert s[..n][..n - 1] == s[..n - 1];
    }
  }

  lemma EncodedWords()
    ensures EncodeWord(0xba7816bf) == (0xba, 0x78, 0x16, 0xbf)
    ensures EncodeWord(0x8f01cfea) == (0x8f, 0x01, 0xcf, 0xea)
    ensures EncodeWord(0x414140de) == (0x41, 0x41, 0x40, 0xde)
    ensures EncodeWord(0x5dae2223) == (0x5d, 0xae, 0x22, 0x23)
    ensures EncodeWord(0xb00361a3) == (0xb0, 0x03, 0x61, 0xa3)
    ensures EncodeWord(0x96177a9c) == (0x96, 0x17, 0x7a, 0x9c)
    ensures EncodeWord(0xb410ff61) == (0xb4, 0x10, 0xff, 0x61)
    ensures EncodeWord(0xf20015ad) == (0xf2, 0x00, 0x15, 0xad)
  {
  }

  lemma EncodedSum()
    ensures Encode(Fips(), SUM) == ANSWER
  {
    EncodedWords();
    Encoded(Fips(), SUM, ANSWER, 8);
    assert SUM[..8] == SUM && ANSWER[..32] == ANSWER;
  }

  /** The digest of "abc". */
  lemma DigestOfAbc()
    ensures Fips().Ok() && Digest(Sha(Fips()), ABC) == ANSWER
  {
    var b := ABC + Padding(|ABC|, 8 * |ABC|);
    PaddedAbc();
    CompressAbc(b);
    EncodedSum();
    OneBlock(Fips(), b);
  }

  lemma OneBlock(p: Primitives<word>, b: seq<byte>)
    requires p.Ok() && |b| == 64
    ensures Fold(Sha(p).compress, Sha(p).iv, b, 1) == Compress(p, p.iv, b)
  {
    assert b[0..64] == b;
    assert Fold(Sha(p).compress, Sha(p).iv, b, 0) == p.iv;
  }
}
