/**
 os/lib/sha-256.c: the block transform over registers that stay in place while their roles rotate.
 */
module Sha256Transform {
  import opened HashSpec
  import opened Sha256Spec

  /** The register that plays the n-th role, from a to h, in the i-th use of the round macro. */
  function Reg(i: nat, n: nat): (r: nat)
    requires i <= 64
    ensures r < 8
  {
    (64 + n - i) % 8
  }

  /** The working variables as the round macro addresses them in its i-th use. */
  function View<W>(S: seq<W>, i: nat): Regs<W>
    requires |S| == 8 && i <= 64
  {
    Regs(S[Reg(i, 0)], S[Reg(i, 1)], S[Reg(i, 2)], S[Reg(i, 3)], S[Reg(i, 4)], S[Reg(i, 5)], S[Reg(i, 6)], S[Reg(i, 7)])
  }

  /** The roles rotate by one, and are all different at any time. */
  lemma RolesRotate(i: nat, n: nat)
    requires i < 64 && 0 < n < 8
    ensures Reg(i + 1, n) == Reg(i, n - 1) && Reg(i + 1, 0) == Reg(i, 7)
  {
  }

  lemma RolesDiffer(i: nat, n: nat, m: nat)
    requires i < 64 && n < m < 8
    ensures Reg(i, n) != Reg(i, m)
  {
  }

  /** Writing d and h in place gives e and a of the next round; every other variable changes its name. */
  lemma RoundInPlace<W>(S: seq<W>, i: nat, e: W, a: W)
    requires |S| == 8 && i < 64
    ensures var r := View(S, i);
            View(S[Reg(i, 3) := e][Reg(i, 7) := a], i + 1) == Regs(a, r.a, r.b, r.c, e, r.e, r.f, r.g)
  {
    RolesRotate(i, 1); RolesRotate(i, 2); RolesRotate(i, 3); RolesRotate(i, 4);
    RolesRotate(i, 5); RolesRotate(i, 6); RolesRotate(i, 7);
    RolesDiffer(i, 3, 4); RolesDiffer(i, 3, 5); RolesDiffer(i, 3, 6); RolesDiffer(i, 3, 7);
    RolesDiffer(i, 0, 3); RolesDiffer(i, 1, 3); RolesDiffer(i, 2, 3);
    RolesDiffer(i, 0, 7); RolesDiffer(i, 1, 7); RolesDiffer(i, 2, 7);
    RolesDiffer(i, 4, 7); RolesDiffer(i, 5, 7); RolesDiffer(i, 6, 7);
  }

  ghost predicate AddLaws<W>(p: Primitives<W>, x: W, y: W, z: W)
  {
    p.add(x, y) == p.add(y, x) && p.add(p.add(x, y), z) == p.add(x, p.add(y, z))
  }

  /** Addition of words may be reassociated and commuted. */
  ghost predicate Additive<W(!new)>(p: Primitives<W>)
  {
    forall x, y, z {:trigger AddLaws(p, x, y, z)} :: AddLaws(p, x, y, z)
  }

  lemma SumOrder<W(!new)>(p: Primitives<W>, h: W, s1: W, ch: W, k: W, w: W)
    requires Additive(p)
    ensures p.add(h, p.add(p.add(s1, ch), p.add(w, k))) == p.add(p.add(p.add(p.add(h, s1), ch), k), w)
  {
    var y := p.add(p.add(h, s1), ch);
    assert AddLaws(p, h, s1, ch) && AddLaws(p, h, p.add(s1, ch), p.add(w, k));
    assert AddLaws(p, w, k, w) && AddLaws(p, y, k, w);
  }

  /** The registers after the three assignments of the round macro. */
  function RoundOn<W>(p: Primitives<W>, S: seq<W>, i: nat, wk: W): (S': seq<W>)
    requires |S| == 8 && i < 64
    ensures |S'| == 8
  {
    var r := View(S, i);
    var t1 := p.add(r.h, p.add(p.add(p.bigSigma1(r.e), p.ch(r.e, r.f, r.g)), wk));
    S[Reg(i, 3) := p.add(r.d, t1)][Reg(i, 7) := p.add(t1, p.add(p.bigSigma0(r.a), p.maj(r.a, r.b, r.c)))]
  }

  lemma RoundOnIsRound<W(!new)>(p: Primitives<W>, S: seq<W>, i: nat, w: W, k: W)
    requires |S| == 8 && i < 64 && Additive(p)
    ensures View(RoundOn(p, S, i, p.add(w, k)), i + 1) == Round(p, View(S, i), k, w)
  {
    var r := View(S, i);
    var t1 := p.add(r.h, p.add(p.add(p.bigSigma1(r.e), p.ch(r.e, r.f, r.g)), p.add(w, k)));
    SumOrder(p, r.h, p.bigSigma1(r.e), p.ch(r.e, r.f, r.g), k, w);
    RoundInPlace(S, i, p.add(r.d, t1), p.add(t1, p.add(p.bigSigma0(r.a), p.maj(r.a, r.b, r.c))));
  }

  /** RNDr: one round over registers that stay in place. */
  method RoundRotating<W>(p: Primitives<W>, S: array<W>, i: nat, wk: W)
    requires S.Length == 8 && i < 64
    modifies S
    ensures S[..] == RoundOn(p, old(S[..]), i, wk)
  {
    RolesDiffer(i, 3, 7);
    RolesDiffer(i, 0, 3); RolesDiffer(i, 1, 3); RolesDiffer(i, 2, 3);
    RolesDiffer(i, 0, 7); RolesDiffer(i, 1, 7); RolesDiffer(i, 2, 7);
    S[Reg(i, 7)] := p.add(S[Reg(i, 7)],
      p.add(p.add(p.bigSigma1(S[Reg(i, 4)]), p.ch(S[Reg(i, 4)], S[Reg(i, 5)], S[Reg(i, 6)])), wk));
    S[Reg(i, 3)] := p.add(S[Reg(i, 3)], S[Reg(i, 7)]);
    S[Reg(i, 7)] := p.add(S[Reg(i, 7)],
      p.add(p.bigSigma0(S[Reg(i, 0)]), p.maj(S[Reg(i, 0)], S[Reg(i, 1)], S[Reg(i, 2)])));
  }

  /** After sixteen rounds the roles are back where they were. */
  lemma RolesReturn<W>(S: seq<W>)
    requires |S| == 8
    ensures View(S, 16) == View(S, 0) == RegsOf(S)
  {
  }

  /** The first n words of the schedule are in place. */
  ghost predicate Scheduled<W>(p: Primitives<W>, block: seq<W>, w: seq<W>, n: nat)
    requires |block| == 16
  {
    n <= |w| && forall t {:trigger w[t]} :: 0 <= t < n ==> w[t] == Schedule(p, block, t)
  }

  lemma OneMoreRound<W(!new)>(p: Primitives<W>, S: seq<W>, j: nat, w: W, r0: Regs<W>, block: seq<W>, t: nat)
    requires p.Ok() && Additive(p) && |block| == 16 && |S| == 8 && j < 64 && t < 64
    requires View(S, j) == Rounds(p, r0, block, t) && w == Schedule(p, block, t)
    ensures View(RoundOn(p, S, j, p.add(w, p.k[t])), j + 1) == Rounds(p, r0, block, t + 1)
  {
    RoundOnIsRound(p, S, j, w, p.k[t]);
  }

  /** Read in the roles of the j-th use of the round macro, the registers are v. */
  ghost predicate Shows<W>(S: seq<W>, j: nat, v: Regs<W>)
  {
    |S| == 8 && j <= 64 && View(S, j) == v
  }

  /** The registers are where t rounds lead, in the roles of the j-th use. */
  ghost predicate AtRound<W(!new)>(p: Primitives<W>, S: seq<W>, j: nat, r0: Regs<W>, block: seq<W>, t: nat)
    requires p.Ok() && |block| == 16
  {
    t <= 64 && forall v {:trigger Shows(S, j, v)} :: v == Rounds(p, r0, block, t) ==> Shows(S, j, v)
  }

  /** One use of the round macro with the t-th word and constant. */
  method NextRound<W(!new)>(p: Primitives<W>, S: array<W>, j: nat, w: array<W>, t: nat,
      ghost n: nat, ghost r0: Regs<W>, ghost block: seq<W>)
    requires p.Ok() && Additive(p) && |block| == 16 && S.Length == 8 && w.Length == 64 && S != w && j < 64 &&
             t < n <= 64
    requires AtRound(p, S[..], j, r0, block, t) && Scheduled(p, block, w[..], n)
    modifies S
    ensures AtRound(p, S[..], j + 1, r0, block, t + 1)
  {
    assert Shows(S[..], j, Rounds(p, r0, block, t));
    assert w[..][t] == w[t];
    OneMoreRound(p, S[..], j, w[t], r0, block, t);
    RoundRotating(p, S, j, p.add(w[t], p.k[t]));
  }

  /** The sixteen rounds that start at round i, which the source unrolls. */
  method UnrolledRounds<W(!new)>(p: Primitives<W>, S: array<W>, w: array<W>, i: nat, ghost r0: Regs<W>,
      ghost block: seq<W>)
    requires p.Ok() && Additive(p) && |block| == 16 && S.Length == 8 && w.Length == 64 && S != w && i + 16 <= 64
    requires Scheduled(p, block, w[..], i + 16) && AtRound(p, S[..], 0, r0, block, i)
    modifies S
    ensures AtRound(p, S[..], 16, r0, block, i + 16)
  {
    for j := 0 to 16
      invariant AtRound(p, S[..], j, r0, block, i + j)
    {
      NextRound(p, S, j, w, i + j, i + 16, r0, block);
    }
  }

  method SixteenRounds<W(!new)>(p: Primitives<W>, S: array<W>, w: array<W>, i: nat, ghost r0: Regs<W>,
      ghost block: seq<W>)
    requires p.Ok() && Additive(p) && |block| == 16 && S.Length == 8 && w.Length == 64 && S != w && i + 16 <= 64
    requires Scheduled(p, block, w[..], i + 16)
    requires RegsOf(S[..]) == Rounds(p, r0, block, i)
    modifies S
    ensures RegsOf(S[..]) == Rounds(p, r0, block, i + 16)
  {
    RolesReturn(S[..]);
    UnrolledRounds(p, S, w, i, r0, block);
    assert Shows(S[..], 16, Rounds(p, r0, block, i + 16));
    RolesReturn(S[..]);
  }

  /** MSCH sixteen times: the next sixteen words of the schedule. */
  method NextSchedule<W(!new)>(p: Primitives<W>, w: array<W>, i: nat, ghost block: seq<W>)
    requires |block| == 16 && w.Length == 64 && i + 32 <= 64
    requires Scheduled(p, block, w[..], i + 16)
    modifies w
    ensures Scheduled(p, block, w[..], i + 32)
  {
    for j := 0 to 16
      invariant Scheduled(p, block, w[..], i + 16 + j)
    {
      NextWord(p, w, i + j, block);
    }
  }

  /** MSCH. */
  method NextWord<W(!new)>(p: Primitives<W>, w: array<W>, n: nat, ghost block: seq<W>)
    requires |block| == 16 && w.Length == 64 && n + 16 < 64 && Scheduled(p, block, w[..], n + 16)
    modifies w
    ensures Scheduled(p, block, w[..], n + 17)
  {
    w[n + 16] := p.add(p.add(p.add(p.smallSigma1(w[n + 14]), w[n + 9]), p.smallSigma0(w[n + 1])), w[n]);
  }

  /** One turn of the mixing loop: sixteen rounds and, but for the last turn, sixteen words more. */
  method MixTurn<W(!new)>(p: Primitives<W>, S: array<W>, w: array<W>, i: nat, ghost r0: Regs<W>, ghost words: seq<W>)
    requires p.Ok() && Additive(p) && |words| == 16 && S.Length == 8 && w.Length == 64 && S != w && i + 16 <= 64
    requires i == 48 || i + 32 <= 64
    requires Scheduled(p, words, w[..], i + 16) && RegsOf(S[..]) == Rounds(p, r0, words, i)
    modifies S, w
    ensures RegsOf(S[..]) == Rounds(p, r0, words, i + 16)
    ensures i != 48 ==> Scheduled(p, words, w[..], i + 32)
  {
    SixteenRounds(p, S, w, i, r0, words);
    if i != 48 {
      NextSchedule(p, w, i, words);
    }
  }

  /** The mixing loop of transform. */
  method MixBlock<W(!new)>(p: Primitives<W>, S: array<W>, w: array<W>, ghost r0: Regs<W>, ghost words: seq<W>)
    requires p.Ok() && Additive(p) && |words| == 16 && S.Length == 8 && w.Length == 64 && S != w
    requires Scheduled(p, words, w[..], 16) && RegsOf(S[..]) == r0
    modifies S, w
    ensures RegsOf(S[..]) == Rounds(p, r0, words, |p.k|)
  {
    var i := 0;
    while true
      invariant i == 0 || i == 16 || i == 32 || i == 48
      invariant Scheduled(p, words, w[..], i + 16)
      invariant RegsOf(S[..]) == Rounds(p, r0, words, i)
      decreases 64 - i
    {
      MixTurn(p, S, w, i, r0, words);
      if i == 48 {
        break;
      }
      i := i + 16;
    }
  }

  /** be32dec_vect on a block. */
  method DecodeBlock<W>(p: Primitives<W>, w: array<W>, block: seq<byte>)
    requires |block| == 64 && w.Length == 64
    modifies w
    ensures forall t :: 0 <= t < 16 ==> w[t] == Words(p, block)[t]
  {
    for i := 0 to 16
      invariant forall t :: 0 <= t < i ==> w[t] == Words(p, block)[t]
    {
      w[i] := p.decode(block[4 * i], block[4 * i + 1], block[4 * i + 2], block[4 * i + 3]);
    }
  }

  /** transform: computes the compression function of the reference on a state and a block. */
  method Transform<W(!new)>(p: Primitives<W>, state: seq<W>, block: seq<byte>) returns (state': seq<W>)
    requires p.Ok() && Additive(p) && |state| == 8 && |block| == 64
    ensures state' == Compress(p, state, block)
  {
    var w := new W[64](_ => p.iv[0]);
    DecodeBlock(p, w, block);
    var S := new W[8](i requires 0 <= i < 8 => state[i]);
    assert S[..] == state;
    ghost var words := Words(p, block);
    MixBlock(p, S, w, RegsOf(state), words);
    ghost var r := Rounds(p, RegsOf(state), words, |p.k|);
    state' := state;
    for j := 0 to 8
      invariant |state'| == 8 && RegsOf(S[..]) == r
      invariant forall n :: 0 <= n < 8 ==> state'[n] == if n < j then p.add(state[n], S[n]) else state[n]
    {
      state' := state'[j := p.add(state'[j], S[j])];
    }
  }
}
