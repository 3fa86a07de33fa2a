/**
 The example of FIPS 197 appendices A.1 and B: by the definitions in AesSpec and AesBytes the key is expanded and the
 block is enciphered as it is published.
 */
module AesAnswer {
  import opened AesBytes
  import opened AesSpec
  import opened Arith
  import CcmAes

  const KEY: seq<byte> :=
    [0x2b, 0x7e, 0x15, 0x16, 0x28, 0xae, 0xd2, 0xa6, 0xab, 0xf7, 0x15, 0x88, 0x09, 0xcf, 0x4f, 0x3c]
  const INPUT: seq<byte> :=
    [0x32, 0x43, 0xf6, 0xa8, 0x88, 0x5a, 0x30, 0x8d, 0x31, 0x31, 0x98, 0xa2, 0xe0, 0x37, 0x07, 0x34]
  const OUTPUT: seq<byte> :=
    [0x39, 0x25, 0x84, 0x1d, 0x02, 0xdc, 0x09, 0xfb, 0xdc, 0x11, 0x85, 0x97, 0x19, 0x6a, 0x0b, 0x32]

  /** The round keys. */
  const K0: State<byte> :=
    State(Word(0x2b, 0x7e, 0x15, 0x16), Word(0x28, 0xae, 0xd2, 0xa6),
          Word(0xab, 0xf7, 0x15, 0x88), Word(0x09, 0xcf, 0x4f, 0x3c))
  const K1: State<byte> :=
    State(Word(0xa0, 0xfa, 0xfe, 0x17), Word(0x88, 0x54, 0x2c, 0xb1),
          Word(0x23, 0xa3, 0x39, 0x39), Word(0x2a, 0x6c, 0x76, 0x05))
  const K2: State<byte> :=
    State(Word(0xf2, 0xc2, 0x95, 0xf2), Word(0x7a, 0x96, 0xb9, 0x43),
          Word(0x59, 0x35, 0x80, 0x7a), Word(0x73, 0x59, 0xf6, 0x7f))
  const K3: State<byte> :=
    State(Word(0x3d, 0x80, 0x47, 0x7d), Word(0x47, 0x16, 0xfe, 0x3e),
          Word(0x1e, 0x23, 0x7e, 0x44), Word(0x6d, 0x7a, 0x88, 0x3b))
  const K4: State<byte> :=
    State(Word(0xef, 0x44, 0xa5, 0x41), Word(0xa8, 0x52, 0x5b, 0x7f),
          Word(0xb6, 0x71, 0x25, 0x3b), Word(0xdb, 0x0b, 0xad, 0x00))
  const K5: State<byte> :=
    State(Word(0xd4, 0xd1, 0xc6, 0xf8), Word(0x7c, 0x83, 0x9d, 0x87),
          Word(0xca, 0xf2, 0xb8, 0xbc), Word(0x11, 0xf9, 0x15, 0xbc))
  const K6: State<byte> :=
    State(Word(0x6d, 0x88, 0xa3, 0x7a), Word(0x11, 0x0b, 0x3e, 0xfd),
          Word(0xdb, 0xf9, 0x86, 0x41), Word(0xca, 0x00, 0x93, 0xfd))
  const K7: State<byte> :=
    State(Word(0x4e, 0x54, 0xf7, 0x0e), Word(0x5f, 0x5f, 0xc9, 0xf3),
          Word(0x84, 0xa6, 0x4f, 0xb2), Word(0x4e, 0xa6, 0xdc, 0x4f))
  const K8: State<byte> :=
    State(Word(0xea, 0xd2, 0x73, 0x21), Word(0xb5, 0x8d, 0xba, 0xd2),
          Word(0x31, 0x2b, 0xf5, 0x60), Word(0x7f, 0x8d, 0x29, 0x2f))
  const K9: State<byte> :=
    State(Word(0xac, 0x77, 0x66, 0xf3), Word(0x19, 0xfa, 0xdc, 0x21),
          Word(0x28, 0xd1, 0x29, 0x41), Word(0x57, 0x5c, 0x00, 0x6e))
  const K10: State<byte> :=
    State(Word(0xd0, 0x14, 0xf9, 0xa8), Word(0xc9, 0xee, 0x25, 0x89),
          Word(0xe1, 0x3f, 0x0c, 0xc8), Word(0xb6, 0x63, 0x0c, 0xa6))

  /** The state before the first full round and after each. */
  const S0: State<byte> :=
    State(Word(0x19, 0x3d, 0xe3, 0xbe), Word(0xa0, 0xf4, 0xe2, 0x2b),
          Word(0x9a, 0xc6, 0x8d, 0x2a), Word(0xe9, 0xf8, 0x48, 0x08))
  const S1: State<byte> :=
    State(Word(0xa4, 0x9c, 0x7f, 0xf2), Word(0x68, 0x9f, 0x35, 0x2b),
          Word(0x6b, 0x5b, 0xea, 0x43), Word(0x02, 0x6a, 0x50, 0x49))
  const S2: State<byte> :=
    State(Word(0xaa, 0x8f, 0x5f, 0x03), Word(0x61, 0xdd, 0xe3, 0xef),
          Word(0x82, 0xd2, 0x4a, 0xd2), Word(0x68, 0x32, 0x46, 0x9a))
  const S3: State<byte> :=
    State(Word(0x48, 0x6c, 0x4e, 0xee), Word(0x67, 0x1d, 0x9d, 0x0d),
          Word(0x4d, 0xe3, 0xb1, 0x38), Word(0xd6, 0x5f, 0x58, 0xe7))
  const S4: State<byte> :=
    State(Word(0xe0, 0x92, 0x7f, 0xe8), Word(0xc8, 0x63, 0x63, 0xc0),
          Word(0xd9, 0xb1, 0x35, 0x50), Word(0x85, 0xb8, 0xbe, 0x01))
  const S5: State<byte> :=
    State(Word(0xf1, 0x00, 0x6f, 0x55), Word(0xc1, 0x92, 0x4c, 0xef),
          Word(0x7c, 0xc8, 0x8b, 0x32), Word(0x5d, 0xb5, 0xd5, 0x0c))
  const S6: State<byte> :=
    State(Word(0x26, 0x0e, 0x2e, 0x17), Word(0x3d, 0x41, 0xb7, 0x7d),
          Word(0xe8, 0x64, 0x72, 0xa9), Word(0xfd, 0xd2, 0x8b, 0x25))
  const S7: State<byte> :=
    State(Word(0x5a, 0x41, 0x42, 0xb1), Word(0x19, 0x49, 0xdc, 0x1f),
          Word(0xa3, 0xe0, 0x19, 0x65), Word(0x7a, 0x8c, 0x04, 0x0c))
  const S8: State<byte> :=
    State(Word(0xea, 0x83, 0x5c, 0xf0), Word(0x04, 0x45, 0x33, 0x2d),
          Word(0x65, 0x5d, 0x98, 0xad), Word(0x85, 0x96, 0xb0, 0xc5))
  const S9: State<byte> :=
    State(Word(0xeb, 0x40, 0xf2, 0x1e), Word(0x59, 0x2e, 0x38, 0x84),
          Word(0x8b, 0xa1, 0x13, 0xe7), Word(0x1b, 0xc3, 0x42, 0xd2))

  const KEYS: seq<State<byte>> := [K0, K1, K2, K3, K4, K5, K6, K7, K8, K9, K10]
  const STATES: seq<State<byte>> := [S0, S1, S2, S3, S4, S5, S6, S7, S8, S9]

  // ------------------------------------------------------------- key expansion

  function NextKey<B>(o: Ops<B>, p: State<B>, c: B): State<B>
  {
    var w0 := XorWord(o, p.w0, XorWord(o, SubWord(o, RotWord(p.w3)), Word(c, o.zero, o.zero, o.zero)));
    var w1 := XorWord(o, p.w1, w0);
    var w2 := XorWord(o, p.w2, w1);
    State(w0, w1, w2, XorWord(o, p.w3, w2))
  }

  ghost predicate KeyRow<B>(o: Ops<B>, c: seq<B>, ks: seq<State<B>>, n: nat)
    requires n < |c| && n + 1 < |ks|
  {
    NextKey(o, ks[n], c[n]) == ks[n + 1]
  }

  /** Rows of which each is the next key are the key expansion. */
  lemma {:induction false} KeysAre<B>(o: Ops<B>, key: seq<B>, c: seq<B>, ks: seq<State<B>>, n: nat)
    requires |key| == 16 && n < |ks| == |c| + 1 && ks[0] == StateOf(key)
    requires forall i: nat {:trigger KeyRow(o, c, ks, i)} :: i < |c| ==> KeyRow(o, c, ks, i)
    requires forall i: nat {:trigger c[i]} :: i < |c| ==> Power(o, i) == c[i]
    ensures RoundKey(o, key, n) == ks[n]
  {
    if n > 0 {
      KeysAre(o, key, c, ks, n - 1);
      assert KeyRow(o, c, ks, n - 1) && Power(o, n - 1) == c[n - 1];
    }
  }

  lemma KeyRowIs(o: Ops<byte>, n: nat, p: State<byte>, c: byte, q: State<byte>)
    requires n < 10 && KEYS[n] == p && RCON[n] == c && KEYS[n + 1] == q && NextKey(o, p, c) == q
    ensures KeyRow(o, RCON, KEYS, n)
  {
  }

  lemma KeyStep0()
    ensures NextKey(Bytes(), K0, 0x01) == K1
  {
  }

  lemma KeyStep1()
    ensures NextKey(Bytes(), K1, 0x02) == K2
  {
  }

  lemma KeyStep2()
    ensures NextKey(Bytes(), K2, 0x04) == K3
  {
  }

  lemma KeyStep3()
    ensures NextKey(Bytes(), K3, 0x08) == K4
  {
  }

  lemma KeyStep4()
    ensures NextKey(Bytes(), K4, 0x10) == K5
  {
  }

  lemma KeyStep5()
    ensures NextKey(Bytes(), K5, 0x20) == K6
  {
  }

  lemma KeyStep6()
    ensures NextKey(Bytes(), K6, 0x40) == K7
  {
  }

  lemma KeyStep7()
    ensures NextKey(Bytes(), K7, 0x80) == K8
  {
  }

  lemma KeyStep8()
    ensures NextKey(Bytes(), K8, 0x1b) == K9
  {
  }

  lemma KeyStep9()
    ensures NextKey(Bytes(), K9, 0x36) == K10
  {
  }

  ghost predicate IsKey(n: nat)
    requires n < 10
  {
    KeyRow(Bytes(), RCON, KEYS, n)
  }

  lemma Key0()
    ensures IsKey(0)
  {
    KeyStep0();
    KeyRowIs(Bytes(), 0, K0, 0x01, K1);
  }

  lemma Key1()
    ensures IsKey(1)
  {
    KeyStep1();
    KeyRowIs(Bytes(), 1, K1, 0x02, K2);
  }

  lemma Key2()
    ensures IsKey(2)
  {
    KeyStep2();
    KeyRowIs(Bytes(), 2, K2, 0x04, K3);
  }

  lemma Key3()
    ensures IsKey(3)
  {
    KeyStep3();
    KeyRowIs(Bytes(), 3, K3, 0x08, K4);
  }

  lemma Key4()
    ensures IsKey(4)
  {
    KeyStep4();
    KeyRowIs(Bytes(), 4, K4, 0x10, K5);
  }

  lemma Key5()
    ensures IsKey(5)
  {
    KeyStep5();
    KeyRowIs(Bytes(), 5, K5, 0x20, K6);
  }

  lemma Key6()
    ensures IsKey(6)
  {
    KeyStep6();
    KeyRowIs(Bytes(), 6, K6, 0x40, K7);
  }

  lemma Key7()
    ensures IsKey(7)
  {
    KeyStep7();
    KeyRowIs(Bytes(), 7, K7, 0x80, K8);
  }

  lemma Key8()
    ensures IsKey(8)
  {
    KeyStep8();
    KeyRowIs(Bytes(), 8, K8, 0x1b, K9);
  }

  lemma Key9()
    ensures IsKey(9)
  {
    KeyStep9();
    KeyRowIs(Bytes(), 9, K9, 0x36, K10);
  }

  lemma EveryKey(n: nat)
    requires n < 10
    ensures IsKey(n)
  {
    match n
    case 0 => Key0();
    case 1 => Key1();
    case 2 => Key2();
    case 3 => Key3();
    case 4 => Key4();
    case 5 => Key5();
    case 6 => Key6();
    case 7 => Key7();
    case 8 => Key8();
    case _ => Key9();
  }

  /** The key expansion of appendix A.1. */
  lemma KeyExpansion()
    ensures Expanded(Bytes(), KEY) == KEYS
  {
    forall n: nat {:trigger KeyRow(Bytes(), RCON, KEYS, n)} | n < 10
      ensures KeyRow(Bytes(), RCON, KEYS, n)
    {
      EveryKey(n);
      assert IsKey(n);
    }
    forall n: nat {:trigger RCON[n]} | n < 10
      ensures Power(Bytes(), n) == RCON[n]
    {
      RconIs(n);
    }
    Expansion(Bytes());
  }

  lemma Expansion(o: Ops<byte>)
    requires forall i: nat {:trigger KeyRow(o, RCON, KEYS, i)} :: i < 10 ==> KeyRow(o, RCON, KEYS, i)
    requires forall i: nat {:trigger RCON[i]} :: i < 10 ==> Power(o, i) == RCON[i]
    ensures Expanded(o, KEY) == KEYS
  {
    forall n: nat | n < 11
      ensures RoundKey(o, KEY, n) == KEYS[n]
    {
      KeysAre(o, KEY, RCON, KEYS, n);
    }
  }

  // ------------------------------------------------------------------- rounds

  ghost predicate RoundRow<B>(o: Ops<B>, ks: seq<State<B>>, ts: seq<State<B>>, n: nat)
    requires n + 1 < |ts| && n + 1 < |ks|
  {
    FullRound(o, ts[n], ks[n + 1]) == ts[n + 1]
  }

  lemma RoundNext<B>(o: Ops<B>, w: seq<State<B>>, s: State<B>, n: nat)
    requires n < 9 && |w| == 11
    ensures Rounds(o, w, s, n + 1) == FullRound(o, Rounds(o, w, s, n), w[n + 1])
  {
  }

  /** Rows of which each is the next state are the rounds. */
  lemma StatesAre<B>(o: Ops<B>, w: seq<State<B>>, s: State<B>, ts: seq<State<B>>, n: nat)
    requires n < |ts| == 10 && |w| == 11 && ts[0] == AddRoundKey(o, s, w[0])
    requires forall i: nat {:trigger RoundRow(o, w, ts, i)} :: i < 9 ==> RoundRow(o, w, ts, i)
    ensures Rounds(o, w, s, n) == ts[n]
  {
    var a := seq(10, i requires 0 <= i < 10 => Rounds(o, w, s, i));
    forall i: nat {:trigger StaysEqual(a, ts, i)} | i + 1 < 10
      ensures StaysEqual(a, ts, i)
    {
      RoundNext(o, w, s, i);
      assert RoundRow(o, w, ts, i);
    }
    EqualOn(a, ts, n);
  }

  lemma RoundRowIs(o: Ops<byte>, n: nat, s: State<byte>, k: State<byte>, t: State<byte>)
    requires n < 9 && STATES[n] == s && KEYS[n + 1] == k && STATES[n + 1] == t && FullRound(o, s, k) == t
    ensures RoundRow(o, KEYS, STATES, n)
  {
  }

  lemma RoundStep0()
    ensures FullRound(Bytes(), S0, K1) == S1
  {
  }

  lemma RoundStep1()
    ensures FullRound(Bytes(), S1, K2) == S2
  {
  }

  lemma RoundStep2()
    ensures FullRound(Bytes(), S2, K3) == S3
  {
  }

  lemma RoundStep3()
    ensures FullRound(Bytes(), S3, K4) == S4
  {
  }

  lemma RoundStep4()
    ensures FullRound(Bytes(), S4, K5) == S5
  {
  }

  lemma RoundStep5()
    ensures FullRound(Bytes(), S5, K6) == S6
  {
  }

  lemma RoundStep6()
    ensures FullRound(Bytes(), S6, K7) == S7
  {
  }

  lemma RoundStep7()
    ensures FullRound(Bytes(), S7, K8) == S8
  {
  }

  lemma RoundStep8()
    ensures FullRound(Bytes(), S8, K9) == S9
  {
  }

  ghost predicate IsRound(n: nat)
    requires n < 9
  {
    RoundRow(Bytes(), KEYS, STATES, n)
  }

  lemma Round0()
    ensures IsRound(0)
  {
    RoundStep0();
    RoundRowIs(Bytes(), 0, S0, K1, S1);
  }

  lemma Round1()
    ensures IsRound(1)
  {
    RoundStep1();
    RoundRowIs(Bytes(), 1, S1, K2, S2);
  }

  lemma Round2()
    ensures IsRound(2)
  {
    RoundStep2();
    RoundRowIs(Bytes(), 2, S2, K3, S3);
  }

  lemma Round3()
    ensures IsRound(3)
  {
    RoundStep3();
    RoundRowIs(Bytes(), 3, S3, K4, S4);
  }

  lemma Round4()
    ensures IsRound(4)
  {
    RoundStep4();
    RoundRowIs(Bytes(), 4, S4, K5, S5);
  }

  lemma Round5()
    ensures IsRound(5)
  {
    RoundStep5();
    RoundRowIs(Bytes(), 5, S5, K6, S6);
  }

  lemma Round6()
    ensures IsRound(6)
  {
    RoundStep6();
    RoundRowIs(Bytes(), 6, S6, K7, S7);
  }

  lemma Round7()
    ensures IsRound(7)
  {
    RoundStep7();
    RoundRowIs(Bytes(), 7, S7, K8, S8);
  }

  lemma Round8()
    ensures IsRound(8)
  {
    RoundStep8();
    RoundRowIs(Bytes(), 8, S8, K9, S9);
  }

  lemma EveryRound(n: nat)
    requires n < 9
    ensures IsRound(n)
  {
    match n
    case 0 => Round0();
    case 1 => Round1();
    case 2 => Round2();
    case 3 => Round3();
    case 4 => Round4();
    case 5 => Round5();
    case 6 => Round6();
    case 7 => Round7();
    case _ => Round8();
  }

  lemma FirstKey()
    ensures AddRoundKey(Bytes(), StateOf(INPUT), K0) == S0
  {
  }

  lemma LastKey()
    ensures AddRoundKey(Bytes(), ShiftRows(SubBytes(Bytes(), S9)), K10) == StateOf(OUTPUT)
  {
  }

  lemma Ciphered(o: Ops<byte>)
    requires AddRoundKey(o, StateOf(INPUT), K0) == S0
    requires AddRoundKey(o, ShiftRows(SubBytes(o, S9)), K10) == StateOf(OUTPUT)
    requires forall i: nat {:trigger RoundRow(o, KEYS, STATES, i)} :: i < 9 ==> RoundRow(o, KEYS, STATES, i)
    ensures Cipher(o, KEYS, StateOf(INPUT)) == StateOf(OUTPUT)
  {
    StatesAre(o, KEYS, StateOf(INPUT), STATES, 9);
  }

  lemma CipherOfInput()
    ensures Cipher(Bytes(), KEYS, StateOf(INPUT)) == StateOf(OUTPUT)
  {
    FirstKey();
    LastKey();
    forall n: nat {:trigger RoundRow(Bytes(), KEYS, STATES, n)} | n < 9
      ensures RoundRow(Bytes(), KEYS, STATES, n)
    {
      EveryRound(n);
      assert IsRound(n);
    }
    Ciphered(Bytes());
  }

  lemma EncryptIs(key: seq<byte>, w: seq<State<byte>>, b: seq<byte>, c: seq<byte>)
    requires |key| == |b| == |c| == 16
    requires Expanded(Bytes(), key) == w && Cipher(Bytes(), w, StateOf(b)) == StateOf(c)
    ensures CcmAes.Encrypt(key, b) == c
  {
    BytesAndState(StateOf(c), c);
  }

  /** The cipher of appendix B. */
  lemma EncryptedExample(key: seq<byte>, b: seq<byte>)
    requires key == KEY && b == INPUT
    ensures CcmAes.Encrypt(key, b) == OUTPUT
  {
    KeyExpansion();
    CipherOfInput();
    EncryptIs(key, KEYS, b, OUTPUT);
  }
}
