/**
 AES-128 (FIPS 197) over any bytes with the operations it needs: the cipher of section 5.1, the key expansion of
 section 5.2, the inverse cipher of section 5.3, and the proof that the inverse undoes the cipher.
 */
module AesSpec {

  /** Addition and multiplication by x in the field of section 4, the S-box and its inverse. */
  datatype Ops<!B> = Ops(xor: (B, B) -> B, mul2: B -> B, sub: B -> B, invSub: B -> B, zero: B, one: B)

  /** A column of the state, which is also a word of the key schedule. */
  datatype Word<B> = Word(b0: B, b1: B, b2: B, b3: B)

  /** The state of section 3.4, column by column. */
  datatype State<B> = State(w0: Word<B>, w1: Word<B>, w2: Word<B>, w3: Word<B>)

  function StateOf<B>(s: seq<B>): State<B>
    requires |s| == 16
  {
    State(Word(s[0], s[1], s[2], s[3]), Word(s[4], s[5], s[6], s[7]),
          Word(s[8], s[9], s[10], s[11]), Word(s[12], s[13], s[14], s[15]))
  }

  function BytesOf<B>(s: State<B>): (b: seq<B>)
    ensures |b| == 16
  {
    [s.w0.b0, s.w0.b1, s.w0.b2, s.w0.b3, s.w1.b0, s.w1.b1, s.w1.b2, s.w1.b3,
     s.w2.b0, s.w2.b1, s.w2.b2, s.w2.b3, s.w3.b0, s.w3.b1, s.w3.b2, s.w3.b3]
  }

  lemma BytesAndState<B>(s: State<B>, b: seq<B>)
    requires |b| == 16
    ensures StateOf(BytesOf(s)) == s && BytesOf(StateOf(b)) == b
  {
  }

  // ------------------------------------------------------------ columns: section 5.1.3

  /** {02} a + {03} b + c + d: a row of the matrix product. */
  function MixAt<B>(o: Ops<B>, a: B, b: B, c: B, d: B): B
  {
    o.xor(o.xor(o.xor(o.mul2(a), o.xor(o.mul2(b), b)), c), d)
  }

  /** {0e} a + {0b} b + {0d} c + {09} d: a row of the inverse matrix product. */
  function InvMixAt<B>(o: Ops<B>, a: B, b: B, c: B, d: B): B
  {
    o.xor(o.xor(Mul14(o, a), Mul11(o, b)), o.xor(Mul13(o, c), Mul9(o, d)))
  }

  function Mul4<B>(o: Ops<B>, a: B): B { o.mul2(o.mul2(a)) }

  function Mul8<B>(o: Ops<B>, a: B): B { o.mul2(o.mul2(o.mul2(a))) }

  function Mul14<B>(o: Ops<B>, a: B): B { o.xor(Mul8(o, a), o.xor(Mul4(o, a), o.mul2(a))) }

  function Mul13<B>(o: Ops<B>, a: B): B { o.xor(Mul8(o, a), o.xor(Mul4(o, a), a)) }

  function Mul11<B>(o: Ops<B>, a: B): B { o.xor(Mul8(o, a), o.xor(o.mul2(a), a)) }

  function Mul9<B>(o: Ops<B>, a: B): B { o.xor(Mul8(o, a), a) }

  /** The laws of the field and the S-box. */
  ghost predicate XorLaws<B>(o: Ops<B>, x: B, y: B, z: B)
  {
    && o.xor(x, y) == o.xor(y, x) && o.xor(o.xor(x, y), z) == o.xor(x, o.xor(y, z))
    && o.xor(o.xor(x, y), y) == x && o.xor(x, o.zero) == x
  }

  ghost predicate SubLaws<B>(o: Ops<B>, x: B)
  {
    o.invSub(o.sub(x)) == x && o.sub(o.invSub(x)) == x
  }

  ghost predicate MixLaws<B>(o: Ops<B>, a: B, b: B, c: B, d: B)
  {
    && InvMixAt(o, MixAt(o, a, b, c, d), MixAt(o, b, c, d, a), MixAt(o, c, d, a, b), MixAt(o, d, a, b, c)) == a
    && MixAt(o, InvMixAt(o, a, b, c, d), InvMixAt(o, b, c, d, a), InvMixAt(o, c, d, a, b), InvMixAt(o, d, a, b, c)) == a
  }

  /** The form of the matrix product with one multiplication for each row. */
  ghost predicate TrickLaws<B>(o: Ops<B>, a: B, b: B, c: B, d: B)
  {
    var t := o.xor(o.xor(o.xor(a, b), c), d);
    && o.xor(o.xor(a, o.mul2(o.xor(a, b))), t) == MixAt(o, a, b, c, d)
    && o.xor(o.xor(b, o.mul2(o.xor(b, c))), t) == MixAt(o, b, c, d, a)
    && o.xor(o.xor(c, o.mul2(o.xor(c, d))), t) == MixAt(o, c, d, a, b)
    && o.xor(o.xor(d, o.mul2(o.xor(d, a))), t) == MixAt(o, d, a, b, c)
  }

  ghost predicate Lawful<B(!new)>(o: Ops<B>)
  {
    && (forall x, y, z {:trigger XorLaws(o, x, y, z)} :: XorLaws(o, x, y, z))
    && (forall x {:trigger SubLaws(o, x)} :: SubLaws(o, x))
    && (forall a, b, c, d {:trigger MixLaws(o, a, b, c, d)} :: MixLaws(o, a, b, c, d))
    && (forall a, b, c, d {:trigger TrickLaws(o, a, b, c, d)} :: TrickLaws(o, a, b, c, d))
  }

  // ---------------------------------------------------------------- words

  function XorWord<B>(o: Ops<B>, x: Word<B>, y: Word<B>): Word<B>
  {
    Word(o.xor(x.b0, y.b0), o.xor(x.b1, y.b1), o.xor(x.b2, y.b2), o.xor(x.b3, y.b3))
  }

  function SubWord<B>(o: Ops<B>, x: Word<B>): Word<B>
  {
    Word(o.sub(x.b0), o.sub(x.b1), o.sub(x.b2), o.sub(x.b3))
  }

  function InvSubWord<B>(o: Ops<B>, x: Word<B>): Word<B>
  {
    Word(o.invSub(x.b0), o.invSub(x.b1), o.invSub(x.b2), o.invSub(x.b3))
  }

  function RotWord<B>(x: Word<B>): Word<B>
  {
    Word(x.b1, x.b2, x.b3, x.b0)
  }

  function MixWord<B>(o: Ops<B>, x: Word<B>): Word<B>
  {
    Word(MixAt(o, x.b0, x.b1, x.b2, x.b3), MixAt(o, x.b1, x.b2, x.b3, x.b0),
         MixAt(o, x.b2, x.b3, x.b0, x.b1), MixAt(o, x.b3, x.b0, x.b1, x.b2))
  }

  function InvMixWord<B>(o: Ops<B>, x: Word<B>): Word<B>
  {
    Word(InvMixAt(o, x.b0, x.b1, x.b2, x.b3), InvMixAt(o, x.b1, x.b2, x.b3, x.b0),
         InvMixAt(o, x.b2, x.b3, x.b0, x.b1), InvMixAt(o, x.b3, x.b0, x.b1, x.b2))
  }

  // ------------------------------------------------------------ section 5.1

  function AddRoundKey<B>(o: Ops<B>, s: State<B>, k: State<B>): State<B>
  {
    State(XorWord(o, s.w0, k.w0), XorWord(o, s.w1, k.w1), XorWord(o, s.w2, k.w2), XorWord(o, s.w3, k.w3))
  }

  function SubBytes<B>(o: Ops<B>, s: State<B>): State<B>
  {
    State(SubWord(o, s.w0), SubWord(o, s.w1), SubWord(o, s.w2), SubWord(o, s.w3))
  }

  /** Row r is shifted by r places to the left. */
  function ShiftRows<B>(s: State<B>): State<B>
  {
    State(Word(s.w0.b0, s.w1.b1, s.w2.b2, s.w3.b3), Word(s.w1.b0, s.w2.b1, s.w3.b2, s.w0.b3),
          Word(s.w2.b0, s.w3.b1, s.w0.b2, s.w1.b3), Word(s.w3.b0, s.w0.b1, s.w1.b2, s.w2.b3))
  }

  function MixColumns<B>(o: Ops<B>, s: State<B>): State<B>
  {
    State(MixWord(o, s.w0), MixWord(o, s.w1), MixWord(o, s.w2), MixWord(o, s.w3))
  }

  function FullRound<B>(o: Ops<B>, s: State<B>, k: State<B>): State<B>
  {
    AddRoundKey(o, MixColumns(o, ShiftRows(SubBytes(o, s))), k)
  }

  /** A step f with the keys w[1] to w[n], and a step g with the keys w[n] to w[1]. */
  function Forward<S, K>(f: (S, K) -> S, s: S, w: seq<K>, n: nat): S
    requires n < |w|
  {
    if n == 0 then s else f(Forward(f, s, w, n - 1), w[n])
  }

  function Backward<S, K>(g: (S, K) -> S, t: S, w: seq<K>, n: nat): S
    requires n < |w|
    decreases n
  {
    if n == 0 then t else Backward(g, g(t, w[n]), w, n - 1)
  }

  function Step<B>(o: Ops<B>): (State<B>, State<B>) -> State<B>
  {
    (s, k) => FullRound(o, s, k)
  }

  /** The state after the first n full rounds. */
  function Rounds<B>(o: Ops<B>, w: seq<State<B>>, s: State<B>, n: nat): State<B>
    requires |w| == 11 && n <= 9
  {
    Forward(Step(o), AddRoundKey(o, s, w[0]), w, n)
  }

  /** Cipher: nine full rounds and one without MixColumns. */
  function Cipher<B>(o: Ops<B>, w: seq<State<B>>, s: State<B>): State<B>
    requires |w| == 11
  {
    AddRoundKey(o, ShiftRows(SubBytes(o, Rounds(o, w, s, |w| - 2))), w[|w| - 1])
  }

  // ------------------------------------------------------------ section 5.2

  /** x to the power n, which is the first byte of Rcon[n + 1]. */
  function Power<B>(o: Ops<B>, n: nat): B
  {
    if n == 0 then o.one else o.mul2(Power(o, n - 1))
  }

  /** The n-th round key: words w[4n] to w[4n + 3] of KeyExpansion. */
  function RoundKey<B>(o: Ops<B>, key: seq<B>, n: nat): State<B>
    requires |key| == 16
  {
    if n == 0 then StateOf(key) else
      var p := RoundKey(o, key, n - 1);
      var w0 := XorWord(o, p.w0, XorWord(o, SubWord(o, RotWord(p.w3)), Word(Power(o, n - 1), o.zero, o.zero, o.zero)));
      var w1 := XorWord(o, p.w1, w0);
      var w2 := XorWord(o, p.w2, w1);
      State(w0, w1, w2, XorWord(o, p.w3, w2))
  }

  function Expanded<B>(o: Ops<B>, key: seq<B>): (w: seq<State<B>>)
    requires |key| == 16
    ensures |w| == 11
  {
    seq(11, n requires 0 <= n < 11 => RoundKey(o, key, n))
  }

  // ------------------------------------------------------------ section 5.3

  function InvSubBytes<B>(o: Ops<B>, s: State<B>): State<B>
  {
    State(InvSubWord(o, s.w0), InvSubWord(o, s.w1), InvSubWord(o, s.w2), InvSubWord(o, s.w3))
  }

  /** Row r is shifted by r places to the right. */
  function InvShiftRows<B>(s: State<B>): State<B>
  {
    State(Word(s.w0.b0, s.w3.b1, s.w2.b2, s.w1.b3), Word(s.w1.b0, s.w0.b1, s.w3.b2, s.w2.b3),
          Word(s.w2.b0, s.w1.b1, s.w0.b2, s.w3.b3), Word(s.w3.b0, s.w2.b1, s.w1.b2, s.w0.b3))
  }

  function InvMixColumns<B>(o: Ops<B>, s: State<B>): State<B>
  {
    State(InvMixWord(o, s.w0), InvMixWord(o, s.w1), InvMixWord(o, s.w2), InvMixWord(o, s.w3))
  }

  function InvFullRound<B>(o: Ops<B>, t: State<B>, k: State<B>): State<B>
  {
    InvSubBytes(o, InvShiftRows(InvMixColumns(o, AddRoundKey(o, t, k))))
  }

  function InvStep<B>(o: Ops<B>): (State<B>, State<B>) -> State<B>
  {
    (t, k) => InvFullRound(o, t, k)
  }

  /** The state before the first n full rounds. */
  function InvRounds<B>(o: Ops<B>, w: seq<State<B>>, t: State<B>, n: nat): State<B>
    requires |w| == 11 && n <= 9
  {
    AddRoundKey(o, Backward(InvStep(o), t, w, n), w[0])
  }

  /** InvCipher. */
  function InvCipher<B>(o: Ops<B>, w: seq<State<B>>, t: State<B>): State<B>
    requires |w| == 11
  {
    InvRounds(o, w, InvSubBytes(o, InvShiftRows(AddRoundKey(o, t, w[|w| - 1]))), |w| - 2)
  }

  // ------------------------------------------------------------ each step is undone

  lemma XorWordTwice<B(!new)>(o: Ops<B>, x: Word<B>, k: Word<B>)
    requires Lawful(o)
    ensures XorWord(o, XorWord(o, x, k), k) == x
  {
    assert XorLaws(o, x.b0, k.b0, k.b0) && XorLaws(o, x.b1, k.b1, k.b1);
    assert XorLaws(o, x.b2, k.b2, k.b2) && XorLaws(o, x.b3, k.b3, k.b3);
  }

  lemma AddTwice<B(!new)>(o: Ops<B>, s: State<B>, k: State<B>)
    requires Lawful(o)
    ensures AddRoundKey(o, AddRoundKey(o, s, k), k) == s
  {
    XorWordTwice(o, s.w0, k.w0);
    XorWordTwice(o, s.w1, k.w1);
    XorWordTwice(o, s.w2, k.w2);
    XorWordTwice(o, s.w3, k.w3);
  }

  lemma SubWordUndone<B(!new)>(o: Ops<B>, x: Word<B>)
    requires Lawful(o)
    ensures InvSubWord(o, SubWord(o, x)) == x && SubWord(o, InvSubWord(o, x)) == x
  {
    assert SubLaws(o, x.b0) && SubLaws(o, x.b1) && SubLaws(o, x.b2) && SubLaws(o, x.b3);
  }

  lemma SubUndone<B(!new)>(o: Ops<B>, s: State<B>)
    requires Lawful(o)
    ensures InvSubBytes(o, SubBytes(o, s)) == s && SubBytes(o, InvSubBytes(o, s)) == s
  {
    SubWordUndone(o, s.w0);
    SubWordUndone(o, s.w1);
    SubWordUndone(o, s.w2);
    SubWordUndone(o, s.w3);
  }

  lemma ShiftUndone<B>(s: State<B>)
    ensures InvShiftRows(ShiftRows(s)) == s && ShiftRows(InvShiftRows(s)) == s
  {
  }

  lemma MixWordUndone<B(!new)>(o: Ops<B>, x: Word<B>)
    requires Lawful(o)
    ensures InvMixWord(o, MixWord(o, x)) == x && MixWord(o, InvMixWord(o, x)) == x
  {
    assert MixLaws(o, x.b0, x.b1, x.b2, x.b3) && MixLaws(o, x.b1, x.b2, x.b3, x.b0);
    assert MixLaws(o, x.b2, x.b3, x.b0, x.b1) && MixLaws(o, x.b3, x.b0, x.b1, x.b2);
  }

  lemma MixUndone<B(!new)>(o: Ops<B>, s: State<B>)
    requires Lawful(o)
    ensures InvMixColumns(o, MixColumns(o, s)) == s && MixColumns(o, InvMixColumns(o, s)) == s
  {
    MixWordUndone(o, s.w0);
    MixWordUndone(o, s.w1);
    MixWordUndone(o, s.w2);
    MixWordUndone(o, s.w3);
  }

  lemma FullRoundUndone<B(!new)>(o: Ops<B>, s: State<B>, k: State<B>)
    requires Lawful(o)
    ensures InvFullRound(o, FullRound(o, s, k), k) == s
  {
    AddTwice(o, MixColumns(o, ShiftRows(SubBytes(o, s))), k);
    MixUndone(o, ShiftRows(SubBytes(o, s)));
    ShiftUndone(SubBytes(o, s));
    SubUndone(o, s);
  }

  lemma FullRoundRedone<B(!new)>(o: Ops<B>, t: State<B>, k: State<B>)
    requires Lawful(o)
    ensures FullRound(o, InvFullRound(o, t, k), k) == t
  {
    var a := AddRoundKey(o, t, k);
    var m := InvMixColumns(o, a);
    SubUndone(o, InvShiftRows(m));
    ShiftUndone(m);
    MixUndone(o, a);
    AddTwice(o, t, k);
  }

  ghost predicate Undoes<S, K>(f: (S, K) -> S, g: (S, K) -> S, s: S, k: K)
  {
    g(f(s, k), k) == s
  }

  ghost predicate Inverse<S(!new), K(!new)>(f: (S, K) -> S, g: (S, K) -> S)
  {
    forall s, k {:trigger Undoes(f, g, s, k)} :: Undoes(f, g, s, k)
  }

  lemma {:induction false} BackAfterForth<S(!new), K(!new)>(f: (S, K) -> S, g: (S, K) -> S, s: S, w: seq<K>, n: nat)
    requires Inverse(f, g) && n < |w|
    ensures Backward(g, Forward(f, s, w, n), w, n) == s
  {
    if n > 0 {
      assert Undoes(f, g, Forward(f, s, w, n - 1), w[n]);
      BackAfterForth(f, g, s, w, n - 1);
    }
  }

  lemma {:induction false} ForthAfterBack<S(!new), K(!new)>(f: (S, K) -> S, g: (S, K) -> S, t: S, w: seq<K>, n: nat)
    requires Inverse(g, f) && n < |w|
    ensures Forward(f, Backward(g, t, w, n), w, n) == t
    decreases n
  {
    if n > 0 {
      assert Undoes(g, f, t, w[n]);
      ForthAfterBack(f, g, g(t, w[n]), w, n - 1);
    }
  }

  lemma StepsInverse<B(!new)>(o: Ops<B>)
    requires Lawful(o)
    ensures Inverse(Step(o), InvStep(o)) && Inverse(InvStep(o), Step(o))
  {
    var f, g := Step(o), InvStep(o);
    forall s, k {:trigger Undoes(f, g, s, k)} ensures Undoes(f, g, s, k) {
      FullRoundUndone(o, s, k);
    }
    forall s, k {:trigger Undoes(g, f, s, k)} ensures Undoes(g, f, s, k) {
      FullRoundRedone(o, s, k);
    }
  }

  lemma RoundsUndone<B(!new)>(o: Ops<B>, w: seq<State<B>>, s: State<B>, n: nat)
    requires Lawful(o) && |w| == 11 && n <= 9
    ensures InvRounds(o, w, Rounds(o, w, s, n), n) == s && Rounds(o, w, InvRounds(o, w, s, n), n) == s
  {
    StepsInverse(o);
    BackAfterForth(Step(o), InvStep(o), AddRoundKey(o, s, w[0]), w, n);
    AddTwice(o, s, w[0]);
    ForthAfterBack(Step(o), InvStep(o), s, w, n);
    AddTwice(o, Backward(InvStep(o), s, w, n), w[0]);
  }

  /** For every key schedule the cipher is a bijection on blocks, and InvCipher is its inverse. */
  lemma CipherIsBijective<B(!new)>(o: Ops<B>, w: seq<State<B>>, s: State<B>)
    requires Lawful(o) && |w| == 11
    ensures InvCipher(o, w, Cipher(o, w, s)) == s && Cipher(o, w, InvCipher(o, w, s)) == s
  {
    var n := |w| - 2;
    var t := Rounds(o, w, s, n);
    AddTwice(o, ShiftRows(SubBytes(o, t)), w[10]);
    ShiftUndone(SubBytes(o, t));
    SubUndone(o, t);
    RoundsUndone(o, w, s, n);
    var a := AddRoundKey(o, s, w[10]);
    var h := InvShiftRows(a);
    RoundsUndone(o, w, InvSubBytes(o, h), n);
    SubUndone(o, h);
    ShiftUndone(a);
    AddTwice(o, s, w[10]);
  }
}
