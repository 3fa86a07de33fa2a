/**
 os/lib/aes-128.c: key expansion and encryption with the state worked on in place.
 */
module Aes {
  import opened AesSpec

  class Aes128<B(!new)> {
    const o: Ops<B>
    var roundKeys: seq<seq<B>>

    ghost predicate Valid()
      reads this
    {
      Lawful(o) && |roundKeys| == 11 && forall n {:trigger roundKeys[n]} :: 0 <= n < 11 ==> |roundKeys[n]| == 16
    }

    /** The round keys as states. */
    ghost function Keys(): (w: seq<State<B>>)
      requires Valid()
      reads this
      ensures |w| == 11
    {
      seq(11, n requires 0 <= n < 11 && Valid() reads this => StateOf(roundKeys[n]))
    }

    constructor (ops: Ops<B>)
      requires Lawful(ops)
      ensures Valid() && o == ops
    {
      o := ops;
      roundKeys := seq(11, _ => seq(16, _ => ops.zero));
    }

    // ------------------------------------------------------------ key expansion

    /** The loop body of set_key: the next round key. */
    method NextRoundKey(prev: seq<B>, rcon: B) returns (k: seq<B>)
      requires |prev| == 16
      ensures |k| == 16
      ensures k[0] == o.xor(o.xor(o.sub(prev[13]), prev[0]), rcon)
      ensures k[1] == o.xor(o.sub(prev[14]), prev[1])
      ensures k[2] == o.xor(o.sub(prev[15]), prev[2])
      ensures k[3] == o.xor(o.sub(prev[12]), prev[3])
      ensures forall j {:trigger k[j]} :: 4 <= j < 16 ==> k[j] == o.xor(prev[j], k[j - 4])
    {
      k := prev;
      k := k[0 := o.xor(o.xor(o.sub(prev[13]), prev[0]), rcon)];
      k := k[1 := o.xor(o.sub(prev[14]), prev[1])];
      k := k[2 := o.xor(o.sub(prev[15]), prev[2])];
      k := k[3 := o.xor(o.sub(prev[12]), prev[3])];
      var i := 4;
      while i < 16
        invariant 4 <= i <= 16 && |k| == 16
        invariant k[0] == o.xor(o.xor(o.sub(prev[13]), prev[0]), rcon)
        invariant k[1] == o.xor(o.sub(prev[14]), prev[1])
        invariant k[2] == o.xor(o.sub(prev[15]), prev[2])
        invariant k[3] == o.xor(o.sub(prev[12]), prev[3])
        invariant forall j {:trigger k[j]} :: 4 <= j < i ==> k[j] == o.xor(prev[j], k[j - 4])
      {
        k := k[i := o.xor(prev[i], k[i - 4])];
        i := i + 1;
      }
    }

    /** One turn of the loop of set_key. */
    method SetRoundKey(i: nat, rcon: B, ghost key: seq<B>) returns (rcon': B)
      requires Valid() && |key| == 16 && 1 <= i <= 10 && rcon == Power(o, i - 1)
      requires KeysTo(o, key, roundKeys, i)
      modifies this
      ensures Valid() && KeysTo(o, key, roundKeys, i + 1) && rcon' == Power(o, i)
    {
      var k := NextRoundKey(roundKeys[i - 1], rcon);
      assert KeyIs(o, key, roundKeys[i - 1], i - 1);
      NextKeyIs(o, key, i, roundKeys[i - 1], k);
      KeysMore(o, key, roundKeys, i, k);
      roundKeys := roundKeys[i := k];
      rcon' := o.mul2(rcon);
    }

    /** set_key: the key expansion of FIPS 197. */
    method SetKey(key: seq<B>)
      requires Valid() && |key| == 16
      modifies this
      ensures Valid() && Keys() == Expanded(o, key)
    {
      var rcon := o.one;
      roundKeys := roundKeys[0 := key];
      var i := 1;
      while i <= 10
        invariant 1 <= i <= 11 && Valid() && rcon == Power(o, i - 1)
        invariant KeysTo(o, key, roundKeys, i)
      {
        rcon := SetRoundKey(i, rcon, key);
        i := i + 1;
      }
      KeysAll(o, key, roundKeys, Keys());
    }

    // ------------------------------------------------------------ encryption

    /** AddRoundKey. */
    method AddKey(state: array<B>, round: nat)
      requires Valid() && state.Length == 16 && round <= 10
      modifies state
      ensures StateOf(state[..]) == AddRoundKey(o, StateOf(old(state[..])), Keys()[round])
    {
      var i := 0;
      while i < 16
        invariant i <= 16
        invariant forall j {:trigger state[j]} :: 0 <= j < 16 ==>
                    state[j] == if j < i then o.xor(old(state[j]), roundKeys[round][j]) else old(state[j])
      {
        state[i] := o.xor(state[i], roundKeys[round][i]);
        i := i + 1;
      }
      assert Keys()[round] == StateOf(roundKeys[round]);
    }

    /** ByteSub. */
    method Substitute(state: array<B>)
      requires state.Length == 16
      modifies state
      ensures StateOf(state[..]) == SubBytes(o, StateOf(old(state[..])))
    {
      var i := 0;
      while i < 16
        invariant i <= 16
        invariant forall j {:trigger state[j]} :: 0 <= j < 16 ==>
                  state[j] == if j < i then o.sub(old(state[j])) else old(state[j])
      {
        state[i] := o.sub(state[i]);
        i := i + 1;
      }
    }

    /** ShiftRow. */
    method Shift(state: array<B>)
      requires state.Length == 16
      modifies state
      ensures StateOf(state[..]) == ShiftRows(StateOf(old(state[..])))
    {
      var buf1 := state[1];
      state[1] := state[5];
      state[5] := state[9];
      state[9] := state[13];
      state[13] := buf1;

      buf1 := state[2];
      var buf2 := state[6];
      state[2] := state[10];
      state[6] := state[14];
      state[10] := buf1;
      state[14] := buf2;

      buf1 := state[15];
      state[15] := state[11];
      state[11] := state[7];
      state[7] := state[3];
      state[3] := buf1;
    }

    /** MixColumn on the column that begins at buf4. */
    method MixOne(state: array<B>, buf4: nat)
      requires Lawful(o) && state.Length == 16 && buf4 + 4 <= 16
      modifies state
      ensures forall j {:trigger state[j]} :: 0 <= j < 16 && !(buf4 <= j < buf4 + 4) ==> state[j] == old(state[j])
      ensures WordAt(state[..], buf4) == MixWord(o, WordAt(old(state[..]), buf4))
    {
      assert TrickLaws(o, state[buf4], state[buf4 + 1], state[buf4 + 2], state[buf4 + 3]);
      var buf1 := o.xor(o.xor(o.xor(state[buf4], state[buf4 + 1]), state[buf4 + 2]), state[buf4 + 3]);
      var buf2 := state[buf4];
      var buf3 := o.xor(state[buf4], state[buf4 + 1]);
      buf3 := o.mul2(buf3);
      state[buf4] := o.xor(o.xor(state[buf4], buf3), buf1);

      buf3 := o.xor(state[buf4 + 1], state[buf4 + 2]);
      buf3 := o.mul2(buf3);
      state[buf4 + 1] := o.xor(o.xor(state[buf4 + 1], buf3), buf1);

      buf3 := o.xor(state[buf4 + 2], state[buf4 + 3]);
      buf3 := o.mul2(buf3);
      state[buf4 + 2] := o.xor(o.xor(state[buf4 + 2], buf3), buf1);

      buf3 := o.xor(state[buf4 + 3], buf2);
      buf3 := o.mul2(buf3);
      state[buf4 + 3] := o.xor(o.xor(state[buf4 + 3], buf3), buf1);
    }

    /** One pass of the loop over the columns. */
    method MixNext(state: array<B>, i: nat, ghost s: seq<B>)
      requires Lawful(o) && state.Length == 16 && |s| == 16 && i < 4 && MixedTo(o, s, state[..], i)
      modifies state
      ensures MixedTo(o, s, state[..], i + 1)
    {
      ghost var before := state[..];
      MixOne(state, 4 * i);
      MixedMore(o, s, before, state[..], i);
    }

    /** MixColumn on the four columns. */
    method Mix(state: array<B>)
      requires Lawful(o) && state.Length == 16
      modifies state
      ensures StateOf(state[..]) == MixColumns(o, StateOf(old(state[..])))
    {
      ghost var s := state[..];
      MixedNone(o, s);
      var i := 0;
      while i < 4
        invariant i <= 4 && MixedTo(o, s, state[..], i)
      {
        MixNext(state, i, s);
        i := i + 1;
      }
      MixedAll(o, s, state[..]);
    }

    /** The part of a round before the round key is added. */
    method Scramble(state: array<B>, round: nat)
      requires Valid() && state.Length == 16
      modifies state
      ensures var t := ShiftRows(SubBytes(o, StateOf(old(state[..]))));
              StateOf(state[..]) == if round < 10 then MixColumns(o, t) else t
    {
      Substitute(state);
      Shift(state);
      if round < 10 {
        Mix(state);
      }
    }

    /** A round: a full one, or the last one. */
    method Round(state: array<B>, round: nat)
      requires Valid() && state.Length == 16 && 1 <= round <= 10
      modifies state
      ensures StateOf(state[..]) == RoundOf(o, Keys(), StateOf(old(state[..])), round)
    {
      Scramble(state, round);
      AddKey(state, round);
    }

    /** encrypt: the cipher of FIPS 197 with the round keys of the last set_key. */
    method Encrypt(state: array<B>)
      requires Valid() && state.Length == 16
      modifies state
      ensures StateOf(state[..]) == Cipher(o, Keys(), StateOf(old(state[..])))
    {
      ghost var s := StateOf(state[..]);
      AddKey(state, 0);
      var round := 1;
      AfterNone(o, Keys(), s, round - 1);
      while round <= 10
        invariant 1 <= round <= 11 && StateOf(state[..]) == After(o, Keys(), s, round - 1)
      {
        Round(state, round);
        AfterRound(o, Keys(), s, round);
        round := round + 1;
      }
    }
  }

  // ------------------------------------------------------------ rounds

  function RoundOf<B>(o: Ops<B>, w: seq<State<B>>, s: State<B>, round: nat): State<B>
    requires |w| == 11 && round <= 10
  {
    if round < 10 then FullRound(o, s, w[round]) else AddRoundKey(o, ShiftRows(SubBytes(o, s)), w[round])
  }

  /** The state after some of the ten rounds; after all of them, the result of the cipher. */
  function After<B>(o: Ops<B>, w: seq<State<B>>, s: State<B>, round: nat): (t: State<B>)
    requires |w| == 11 && round <= 10
  {
    if round < 10 then Rounds(o, w, s, round) else Cipher(o, w, s)
  }

  lemma AfterRound<B>(o: Ops<B>, w: seq<State<B>>, s: State<B>, round: nat)
    requires |w| == 11 && 1 <= round <= 10
    ensures After(o, w, s, round) == RoundOf(o, w, After(o, w, s, round - 1), round)
  {
  }

  lemma AfterNone<B>(o: Ops<B>, w: seq<State<B>>, s: State<B>, none: nat)
    requires |w| == 11 && none == 0
    ensures After(o, w, s, none) == AddRoundKey(o, s, w[0])
  {
  }

  // ------------------------------------------------------------ the key schedule

  ghost predicate KeyIs<B>(o: Ops<B>, key: seq<B>, k: seq<B>, n: nat)
    requires |key| == 16
  {
    |k| == 16 && StateOf(k) == RoundKey(o, key, n)
  }

  /** The first i round keys are there. */
  ghost predicate KeysTo<B>(o: Ops<B>, key: seq<B>, w: seq<seq<B>>, i: nat)
    requires |key| == 16
  {
    i <= |w| && forall n: nat {:trigger KeyIs(o, key, w[n], n)} :: n < i ==> KeyIs(o, key, w[n], n)
  }

  lemma KeysMore<B>(o: Ops<B>, key: seq<B>, w: seq<seq<B>>, i: nat, k: seq<B>)
    requires |key| == 16 && KeysTo(o, key, w, i) && i < |w| && KeyIs(o, key, k, i)
    ensures KeysTo(o, key, w[i := k], i + 1)
  {
    var w' := w[i := k];
    forall n: nat {:trigger KeyIs(o, key, w'[n], n)} | n < i + 1 ensures KeyIs(o, key, w'[n], n) {
      if n < i { assert KeyIs(o, key, w[n], n); }
    }
  }

  lemma KeysAll<B>(o: Ops<B>, key: seq<B>, w: seq<seq<B>>, states: seq<State<B>>)
    requires |key| == 16 && KeysTo(o, key, w, 11) && |w| == 11 && |states| == 11
    requires forall n {:trigger states[n]} :: 0 <= n < 11 ==> |w[n]| == 16 && states[n] == StateOf(w[n])
    ensures states == Expanded(o, key)
  {
    var e := Expanded(o, key);
    forall n: nat {:trigger states[n]} | n < 11 ensures states[n] == e[n] {
      assert KeyIs(o, key, w[n], n);
    }
  }

  lemma FirstWord<B(!new)>(o: Ops<B>, s: B, p: B, r: B)
    requires Lawful(o)
    ensures o.xor(o.xor(s, p), r) == o.xor(p, o.xor(s, r)) && o.xor(s, p) == o.xor(p, o.xor(s, o.zero))
  {
    assert XorLaws(o, s, p, r) && XorLaws(o, p, s, r) && XorLaws(o, s, s, s);
  }

  /** What the loop body computes from the round key before is the next round key. */
  lemma NextKeyIs<B(!new)>(o: Ops<B>, key: seq<B>, n: nat, prev: seq<B>, k: seq<B>)
    requires Lawful(o) && |key| == 16 && n > 0 && KeyIs(o, key, prev, n - 1) && |k| == 16
    requires k[0] == o.xor(o.xor(o.sub(prev[13]), prev[0]), Power(o, n - 1))
    requires k[1] == o.xor(o.sub(prev[14]), prev[1])
    requires k[2] == o.xor(o.sub(prev[15]), prev[2])
    requires k[3] == o.xor(o.sub(prev[12]), prev[3])
    requires forall j {:trigger k[j]} :: 4 <= j < 16 ==> k[j] == o.xor(prev[j], k[j - 4])
    ensures KeyIs(o, key, k, n)
  {
    FirstWord(o, o.sub(prev[13]), prev[0], Power(o, n - 1));
    FirstWord(o, o.sub(prev[14]), prev[1], o.zero);
    FirstWord(o, o.sub(prev[15]), prev[2], o.zero);
    FirstWord(o, o.sub(prev[12]), prev[3], o.zero);
    var p, q := StateOf(prev), StateOf(k);
    assert q.w1 == XorWord(o, p.w1, q.w0) && q.w2 == XorWord(o, p.w2, q.w1) && q.w3 == XorWord(o, p.w3, q.w2);
  }

  // ------------------------------------------------------------ the columns

  /** The four bytes from i on as a column. */
  function WordAt<B>(s: seq<B>, i: nat): Word<B>
    requires i + 4 <= |s|
  {
    Word(s[i], s[i + 1], s[i + 2], s[i + 3])
  }

  /** Column c of t is that of s mixed, if it is among the first i, or that of s. */
  ghost predicate ColumnIs<B>(o: Ops<B>, s: seq<B>, t: seq<B>, c: nat, i: nat)
    requires |s| == 16 && |t| == 16 && c < 4
  {
    WordAt(t, 4 * c) == if c < i then MixWord(o, WordAt(s, 4 * c)) else WordAt(s, 4 * c)
  }

  /** The first i columns are mixed. */
  ghost predicate MixedTo<B>(o: Ops<B>, s: seq<B>, t: seq<B>, i: nat)
    requires |s| == 16
  {
    |t| == 16 && forall c: nat {:trigger ColumnIs(o, s, t, c, i)} :: c < 4 ==> ColumnIs(o, s, t, c, i)
  }

  lemma MixedNone<B>(o: Ops<B>, s: seq<B>)
    requires |s| == 16
    ensures MixedTo(o, s, s, 0)
  {
    forall c: nat {:trigger ColumnIs(o, s, s, c, 0)} | c < 4 ensures ColumnIs(o, s, s, c, 0) {
    }
  }

  lemma MixedMore<B>(o: Ops<B>, s: seq<B>, before: seq<B>, t: seq<B>, i: nat)
    requires |s| == 16 && i < 4 && MixedTo(o, s, before, i) && |t| == 16
    requires forall j {:trigger t[j]} :: 0 <= j < 16 && !(4 * i <= j < 4 * i + 4) ==> t[j] == before[j]
    requires WordAt(t, 4 * i) == MixWord(o, WordAt(before, 4 * i))
    ensures MixedTo(o, s, t, i + 1)
  {
    forall c: nat {:trigger ColumnIs(o, s, t, c, i + 1)} | c < 4 ensures ColumnIs(o, s, t, c, i + 1) {
      assert ColumnIs(o, s, before, c, i);
      if c != i {
        assert WordAt(t, 4 * c) == WordAt(before, 4 * c);
      }
    }
  }

  lemma MixedAll<B>(o: Ops<B>, s: seq<B>, t: seq<B>)
    requires |s| == 16 && MixedTo(o, s, t, 4)
    ensures StateOf(t) == MixColumns(o, StateOf(s))
  {
    var c0, c1, c2, c3 := 0, 1, 2, 3;
    assert ColumnIs(o, s, t, c0, 4) && ColumnIs(o, s, t, c1, 4) && ColumnIs(o, s, t, c2, 4) && ColumnIs(o, s, t, c3, 4);
    ColumnsOf(t);
    ColumnsOf(s);
  }

  lemma ColumnsOf<B>(s: seq<B>)
    requires |s| == 16
    ensures StateOf(s) == State(WordAt(s, 0), WordAt(s, 4), WordAt(s, 8), WordAt(s, 12))
  {
  }
}
