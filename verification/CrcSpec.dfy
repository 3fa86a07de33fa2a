/**
 The 16-bit CRC as a shift register that is fed one bit at a time: generator x^16 + x^12 + x^5 + 1, least significant
 bit first.
 */
module CrcSpec {
  import opened ShiftRegister

  /** One step: the bit that drops out is fed back. */
  function Shift(x: bv16): bv16
  {
    if x & 1 == 1 then (x >> 1) ^ 0x8408 else x >> 1
  }

  function Bit(b: bool): bv16
  {
    if b then 1 else 0
  }

  function Join(w: bv16, b: bool): bv16
  {
    (w << 1) | Bit(b)
  }

  /** w has k bits. */
  predicate Below(w: bv16, k: nat)
  {
    if k == 0 then w == 0 else Below(w >> 1, k - 1)
  }

  function RightNibble(w: bv16): bv16
  {
    w >> 1 >> 1 >> 1 >> 1
  }

  /** The register of the CRC. */
  function Lfsr(): Register<bv16>
  {
    Register(0, (x, y) => x ^ y, x => Shift(x), (w, b) => Join(w, b), (w, k) => Below(w, k))
  }

  /** The n low bits of a word, least significant first. */
  function LowBits(w: bv16, n: nat): (bits: seq<bool>)
    ensures |bits| == n
  {
    if n == 0 then [] else [w & 1 == 1] + LowBits(w >> 1, n - 1)
  }

  function ByteBits(b: bv8): (bits: seq<bool>)
    ensures |bits| == 8
  {
    LowBits(b as bv16, 8)
  }

  /** The bits of a message in the order in which they are sent. */
  function MessageBits(m: seq<bv8>): (bits: seq<bool>)
    ensures |bits| == 8 * |m|
  {
    if m == [] then [] else MessageBits(m[..|m| - 1]) + ByteBits(m[|m| - 1])
  }

  /** The register after a message. */
  function Crc(m: seq<bv8>, x: bv16): bv16
  {
    Feed(Lfsr(), MessageBits(m), x)
  }

  // --------------------------------------------------------------------- laws

  lemma FourBelow(w: bv16, n: nat)
    ensures Below(w, n + 4) == Below(RightNibble(w), n)
  {
    assert Below(w, n + 4) == Below(w >> 1, n + 3);
    assert Below(w >> 1, n + 3) == Below(w >> 1 >> 1, n + 2);
    assert Below(w >> 1 >> 1, n + 2) == Below(w >> 1 >> 1 >> 1, n + 1);
  }

  /** How much is left of a word, a byte and 15 bits. */
  lemma NothingLeft(w: bv16, b: bv8)
    ensures RightNibble(RightNibble(RightNibble(RightNibble(w)))) == 0
    ensures RightNibble(RightNibble(b as bv16)) == 0
    ensures RightNibble(RightNibble(RightNibble(w))) >> 1 >> 1 >> 1 == 0 ==> w < 0x8000
  {
  }

  lemma {:induction false} BelowMore(w: bv16, k: nat, n: nat)
    requires Below(w, k) && k <= n
    ensures Below(w, n)
  {
    if n > 0 {
      if k == 0 {
        NoBits(w);
        BelowMore(w >> 1, 0, n - 1);
      } else {
        BelowMore(w >> 1, k - 1, n - 1);
      }
    }
  }

  lemma NoBits(w: bv16)
    requires w == 0
    ensures w >> 1 == 0
  {
  }

  lemma AnyBelow(w: bv16)
    ensures Below(w, 16)
  {
    var n := 0;
    FourBelow(w, n + 12);
    FourBelow(RightNibble(w), n + 8);
    FourBelow(RightNibble(RightNibble(w)), n + 4);
    FourBelow(RightNibble(RightNibble(RightNibble(w))), n);
    NothingLeft(w, 0);
  }

  lemma ByteBelow(b: bv8)
    ensures Below(b as bv16, 8)
  {
    var n := 0;
    FourBelow(b as bv16, n + 4);
    FourBelow(RightNibble(b as bv16), n);
    NothingLeft(0, b);
  }

  lemma ThreeBelow(w: bv16)
    requires Below(w, 3)
    ensures w >> 1 >> 1 >> 1 == 0
  {
    assert Below(w >> 1, 2);
    assert Below(w >> 1 >> 1, 1);
    assert Below(w >> 1 >> 1 >> 1, 0);
  }

  lemma WordBelow(w: bv16, k: nat)
    requires k < 16 && Below(w, k)
    ensures w < 0x8000
  {
    var n := 3;
    BelowMore(w, k, n + 12);
    FourBelow(w, n + 8);
    FourBelow(RightNibble(w), n + 4);
    FourBelow(RightNibble(RightNibble(w)), n);
    ThreeBelow(RightNibble(RightNibble(RightNibble(w))));
    NothingLeft(w, 0);
  }

  lemma JoinedHalf(w: bv16, b: bool)
    requires w < 0x8000
    ensures Join(w, b) >> 1 == w
  {
  }

  lemma BelowNext(w: bv16, b: bool, k: nat)
    requires k < 15 && Below(w, k)
    ensures Below(Join(w, b), k + 1)
  {
    WordBelow(w, k);
    JoinedHalf(w, b);
  }

  lemma XorWords(x: bv16, v: bv16, w: bv16)
    ensures (x ^ v == x ^ w ==> v == w) && (x ^ w == v ^ w ==> x == v) && (x ^ w == 0 <==> x == w) && x ^ 0 == x
  {
  }

  lemma ShiftTellsWord(x: bv16, y: bv16)
    requires Shift(x) == Shift(y)
    ensures x == y
  {
  }

  lemma ShiftLater(x: bv16, w: bv16, b: bool)
    requires w < 0x8000
    ensures Shift(x ^ Join(0, b)) ^ w == Shift(x ^ Join(w, b))
  {
  }

  lemma Halves(v: bv16, w: bv16, a: bool, b: bool)
    requires v < 0x8000 && w < 0x8000 && Join(v, a) == Join(w, b)
    ensures v == w && a == b
  {
  }

  lemma LaterHolds(r: Register<bv16>, x: bv16, w: bv16, b: bool, k: nat)
    requires r == Lfsr()
    ensures LaterLaw(r, x, w, b, k)
  {
    if k < 16 && Below(w, k) {
      WordBelow(w, k);
      LaterValues(r, x, w, b);
    }
  }

  lemma LaterValues(r: Register<bv16>, x: bv16, w: bv16, b: bool)
    requires r == Lfsr() && w < 0x8000
    ensures r.xor(Enter(r, x, b), w) == r.shift(r.xor(x, r.join(w, b)))
  {
    JoinedIs(r, x, 0, b);
    JoinedIs(r, x, w, b);
    XorIs(r, Enter(r, x, b), w);
    ShiftLater(x, w, b);
  }

  /** The value of three operations from that of each. */
  lemma JoinedFrom<T>(r: Register<T>, x: T, w: T, b: bool, j: T, s: T, t: T)
    requires r.join(w, b) == j && r.xor(x, j) == s && r.shift(s) == t
    ensures r.shift(r.xor(x, r.join(w, b))) == t
  {
  }

  lemma JoinedIs(r: Register<bv16>, x: bv16, w: bv16, b: bool)
    requires r == Lfsr()
    ensures r.shift(r.xor(x, r.join(w, b))) == Shift(x ^ Join(w, b))
  {
    var j := Join(w, b);
    JoinIs(r, w, b);
    XorIs(r, x, j);
    ShiftIs(r, x ^ j);
    JoinedFrom(r, x, w, b, j, x ^ j, Shift(x ^ j));
  }

  lemma JoinIs(r: Register<bv16>, w: bv16, b: bool)
    requires r == Lfsr()
    ensures r.join(w, b) == Join(w, b)
  {
  }

  lemma ShiftIs(r: Register<bv16>, x: bv16)
    requires r == Lfsr()
    ensures r.shift(x) == Shift(x)
  {
  }

  lemma JoinHolds(r: Register<bv16>, v: bv16, a: bool, w: bv16, b: bool, k: nat)
    requires r == Lfsr()
    ensures JoinLaw(r, v, a, w, b, k)
  {
    if k < 16 && Below(v, k) && Below(w, k) && Join(v, a) == Join(w, b) {
      WordBelow(v, k);
      WordBelow(w, k);
      Halves(v, w, a, b);
    }
  }

  lemma XorHolds(r: Register<bv16>, x: bv16, v: bv16, w: bv16)
    requires r == Lfsr()
    ensures XorLaw(r, x, v, w)
  {
    var p, q, s := r.xor(x, v), r.xor(x, w), r.xor(v, w);
    XorIs(r, x, v);
    XorIs(r, x, w);
    XorIs(r, v, w);
    XorIs(r, x, 0);
    XorValues(x, v, w, p, q, s);
  }

  lemma XorIs(r: Register<bv16>, x: bv16, y: bv16)
    requires r == Lfsr()
    ensures r.xor(x, y) == x ^ y
  {
  }

  lemma XorValues(x: bv16, v: bv16, w: bv16, p: bv16, q: bv16, s: bv16)
    requires p == x ^ v && q == x ^ w && s == v ^ w
    ensures (p == q ==> v == w) && (q == s ==> x == v) && (q == 0 <==> x == w) && x ^ 0 == x
  {
    XorWords(x, v, w);
  }

  lemma ShiftHolds(r: Register<bv16>, x: bv16, y: bv16)
    requires r == Lfsr()
    ensures ShiftLaw(r, x, y)
  {
    if Shift(x) == Shift(y) {
      ShiftTellsWord(x, y);
    }
  }

  lemma BelowHolds(r: Register<bv16>, w: bv16, b: bool, k: nat)
    requires r == Lfsr()
    ensures BelowLaw(r, w, b, k)
  {
    if k < 15 && Below(w, k) {
      BelowNext(w, b, k);
    }
  }

  lemma ZeroHolds(r: Register<bv16>)
    requires r == Lfsr()
    ensures r.shift(r.zero) == r.zero && r.below(r.zero, 0)
  {
  }

  /** The register of the CRC obeys the laws. */
  lemma LfsrLaws(r: Register<bv16>)
    requires r == Lfsr()
    ensures Laws(r)
  {
    ZeroHolds(r);
    forall x, v, w {:trigger XorLaw(r, x, v, w)} ensures XorLaw(r, x, v, w) {
      XorHolds(r, x, v, w);
    }
    forall x, y {:trigger ShiftLaw(r, x, y)} ensures ShiftLaw(r, x, y) {
      ShiftHolds(r, x, y);
    }
    forall w, b, k: nat {:trigger BelowLaw(r, w, b, k)} ensures BelowLaw(r, w, b, k) {
      BelowHolds(r, w, b, k);
    }
    forall x, w, b, k: nat {:trigger LaterLaw(r, x, w, b, k)} ensures LaterLaw(r, x, w, b, k) {
      LaterHolds(r, x, w, b, k);
    }
    forall v, a, w, b, k: nat {:trigger JoinLaw(r, v, a, w, b, k)} ensures JoinLaw(r, v, a, w, b, k) {
      JoinHolds(r, v, a, w, b, k);
    }
  }

  // -------------------------------------------------------------------- bytes

  lemma JoinHalf(w: bv16)
    ensures Join(w >> 1, w & 1 == 1) == w
  {
  }

  lemma WordOfNext(r: Register<bv16>, w: bv16, n: nat)
    requires r == Lfsr() && Word(r, LowBits(w >> 1, n)) == w >> 1
    ensures Word(r, LowBits(w, n + 1)) == w
  {
    WordNext(r, w & 1 == 1, LowBits(w >> 1, n));
    JoinIs(r, w >> 1, w & 1 == 1);
    JoinHalf(w);
  }

  /** The bits of a word are the word. */
  lemma {:induction false} WordOfLow(r: Register<bv16>, w: bv16, n: nat)
    requires r == Lfsr() && Below(w, n)
    ensures Word(r, LowBits(w, n)) == w
  {
    if n > 0 {
      WordOfLow(r, w >> 1, n - 1);
      WordOfNext(r, w, n - 1);
    }
  }

  lemma WordOfByte(r: Register<bv16>, b: bv8)
    requires r == Lfsr()
    ensures Word(r, ByteBits(b)) == b as bv16
  {
    ByteBelow(b);
    WordOfLow(r, b as bv16, 8);
  }

  /** n steps to the right. */
  function Right(w: bv16, n: nat): bv16
  {
    if n == 0 then w else Right(w >> 1, n - 1)
  }

  /** The words agree in their n low bits. */
  predicate SameLow(v: bv16, w: bv16, n: nat)
  {
    n == 0 || ((v & 1 == 1) == (w & 1 == 1) && SameLow(v >> 1, w >> 1, n - 1))
  }

  lemma {:induction false} LowSplit(v: bv16, w: bv16, n: nat, m: nat)
    requires SameLow(v, w, n)
    ensures LowBits(v, n + m) == LowBits(w, n) + LowBits(Right(v, n), m)
  {
    if n > 0 {
      LowSplit(v >> 1, w >> 1, n - 1, m);
    }
  }

  lemma RightFour(w: bv16, n: nat)
    ensures Right(w, n + 4) == Right(RightNibble(w), n)
  {
    assert Right(w, n + 4) == Right(w >> 1, n + 3);
    assert Right(w >> 1, n + 3) == Right(w >> 1 >> 1, n + 2);
  }

  lemma SameFour(v: bv16, w: bv16, n: nat)
    requires SameLow(RightNibble(v), RightNibble(w), n)
    requires v & 15 == w & 15
    ensures SameLow(v, w, n + 4)
  {
    SameBits(v, w);
    assert SameLow(v >> 1 >> 1 >> 1, w >> 1 >> 1 >> 1, n + 1);
    assert SameLow(v >> 1 >> 1, w >> 1 >> 1, n + 2);
    assert SameLow(v >> 1, w >> 1, n + 3);
  }

  lemma SameBits(v: bv16, w: bv16)
    requires v & 15 == w & 15
    ensures (v & 1 == 1) == (w & 1 == 1) && ((v >> 1) & 1 == 1) == ((w >> 1) & 1 == 1)
    ensures ((v >> 1 >> 1) & 1 == 1) == ((w >> 1 >> 1) & 1 == 1)
    ensures ((v >> 1 >> 1 >> 1) & 1 == 1) == ((w >> 1 >> 1 >> 1) & 1 == 1)
  {
  }

  lemma LowByte(c: bv16, lo: bv8, hi: bv8)
    requires c == ((hi as bv16) << 8) | lo as bv16
    ensures c & 15 == (lo as bv16) & 15 && RightNibble(c) & 15 == RightNibble(lo as bv16) & 15
    ensures RightNibble(RightNibble(c)) == hi as bv16
  {
  }

  /** The bits of a word are the bits of its low byte and then those of its high byte. */
  lemma TwoBytes(c: bv16, lo: bv8, hi: bv8)
    requires c == ((hi as bv16) << 8) | lo as bv16
    ensures LowBits(c, 16) == ByteBits(lo) + ByteBits(hi)
  {
    LowByte(c, lo, hi);
    EightAndMore(c, RightNibble(c), lo as bv16, RightNibble(lo as bv16), 0, 8);
  }

  lemma EightAndMore(c: bv16, d: bv16, v: bv16, w: bv16, n: nat, m: nat)
    requires d == RightNibble(c) && w == RightNibble(v) && c & 15 == v & 15 && d & 15 == w & 15 && n == 0
    ensures LowBits(c, 8 + m) == LowBits(v, 8) + LowBits(RightNibble(d), m)
  {
    RightFour(c, n + 4);
    RightFour(d, n);
    SameFour(d, w, n);
    SameFour(c, v, n + 4);
    LowSplit(c, v, 8, m);
  }

  /** The bits of two bytes are the word of the two, the first byte low. */
  lemma WordOfTwo(r: Register<bv16>, lo: bv8, hi: bv8)
    requires r == Lfsr()
    ensures Word(r, ByteBits(lo) + ByteBits(hi)) == ((hi as bv16) << 8) | lo as bv16
  {
    var c := ((hi as bv16) << 8) | lo as bv16;
    TwoBytes(c, lo, hi);
    AnyBelow(c);
    WordOfLow(r, c, 16);
  }

  lemma {:induction false} BitsTellByte(a: bv8, b: bv8)
    requires ByteBits(a) == ByteBits(b)
    ensures a == b
  {
    var r := Lfsr();
    WordOfByte(r, a);
    WordOfByte(r, b);
  }

  lemma {:induction false} BitsTellMessage(a: seq<bv8>, b: seq<bv8>)
    requires |a| == |b| && MessageBits(a) == MessageBits(b)
    ensures a == b
  {
    if a != [] {
      var n := |a| - 1;
      var u, v := MessageBits(a), MessageBits(b);
      assert u[..8 * n] == MessageBits(a[..n]) && v[..8 * n] == MessageBits(b[..n]);
      assert u[8 * n..] == ByteBits(a[n]) && v[8 * n..] == ByteBits(b[n]);
      BitsTellMessage(a[..n], b[..n]);
      BitsTellByte(a[n], b[n]);
      assert a == a[..n] + [a[n]] && b == b[..n] + [b[n]];
    }
  }

  lemma BitsNext(m: seq<bv8>, b: bv8)
    ensures MessageBits(m + [b]) == MessageBits(m) + ByteBits(b)
  {
    assert (m + [b])[..|m|] == m;
  }

  lemma CrcNext(m: seq<bv8>, b: bv8, x: bv16)
    ensures Crc(m + [b], x) == Feed(Lfsr(), ByteBits(b), Crc(m, x))
  {
    BitsNext(m, b);
    FeedSplit(Lfsr(), MessageBits(m), ByteBits(b), x);
  }

  // ------------------------------------------------------------- main properties

  /** A message followed by two bytes leaves nothing in the register exactly when these are the message's CRC, the low
      byte first. */
  lemma ResidueZero(m: seq<bv8>, lo: bv8, hi: bv8, x: bv16)
    ensures Crc(m + [lo] + [hi], x) == 0 <==> Crc(m, x) == ((hi as bv16) << 8) | lo as bv16
  {
    var r := Lfsr();
    LfsrLaws(r);
    TrailerBits(m, lo, hi);
    Residue(r, MessageBits(m), ByteBits(lo) + ByteBits(hi), x);
    WordOfTwo(r, lo, hi);
  }

  lemma TrailerBits(m: seq<bv8>, lo: bv8, hi: bv8)
    ensures MessageBits(m + [lo] + [hi]) == MessageBits(m) + (ByteBits(lo) + ByteBits(hi))
  {
    BitsNext(m, lo);
    BitsNext(m + [lo], hi);
    Associative(MessageBits(m), ByteBits(lo), ByteBits(hi));
  }

  lemma Associative(s: seq<bool>, t: seq<bool>, u: seq<bool>)
    ensures s + t + u == s + (t + u)
  {
  }

  /** Messages of the same length that differ only within 16 consecutive bits have different CRCs. */
  lemma BurstDetected(a: seq<bv8>, b: seq<bv8>, k: nat, x: bv16)
    requires |a| == |b| && a != b && AgreeOutside(MessageBits(a), MessageBits(b), k, 16)
    ensures Crc(a, x) != Crc(b, x)
  {
    LfsrLaws(Lfsr());
    if Crc(a, x) == Crc(b, x) {
      Burst(Lfsr(), MessageBits(a), MessageBits(b), k, x);
      BitsTellMessage(a, b);
    }
  }

  lemma OneShift(x: bv16)
    ensures Shift(x ^ 1) ^ 0x8408 == Shift(x)
  {
    if x & 1 == 1 {
      assert Shift(x) == (x >> 1) ^ 0x8408;
      assert Shift(x ^ 1) == (x ^ 1) >> 1;
    } else {
      assert Shift(x) == x >> 1;
      assert Shift(x ^ 1) == ((x ^ 1) >> 1) ^ 0x8408;
    }
  }

  lemma JoinZero(x: bv16)
    ensures x ^ Join(0, true) == x ^ 1 && x ^ Join(0, false) == x && x ^ 0 == x
  {
  }

  /** 16 is the best possible: 17 bits that differ by the generator lead to the same register, from every start value
      and whatever follows. */
  lemma LongerBurstUndetected(x: bv16, rest: seq<bool>)
    ensures Feed(Lfsr(), [true] + LowBits(0x8408, 16) + rest, x) == Feed(Lfsr(), [false] + LowBits(0, 16) + rest, x)
  {
    var r := Lfsr();
    var u, v := LowBits(0x8408, 16), LowBits(0, 16);
    LfsrLaws(r);
    AnyBelow(0x8408);
    AnyBelow(0);
    WordOfLow(r, 0x8408, 16);
    WordOfLow(r, 0, 16);
    GeneratorXor(r, x, Word(r, u), Word(r, v));
    XorBoth(r, Enter(r, x, true), Enter(r, x, false), Word(r, u), Word(r, v));
    LongerBurst(r, true, u, false, v, x);
    FeedSplit(r, [true] + u, rest, x);
    FeedSplit(r, [false] + v, rest, x);
  }

  lemma EnterOne(r: Register<bv16>, x: bv16)
    requires r == Lfsr()
    ensures Enter(r, x, true) == Shift(x ^ 1)
  {
    JoinedIs(r, x, 0, true);
    JoinZero(x);
  }

  lemma EnterNone(r: Register<bv16>, x: bv16)
    requires r == Lfsr()
    ensures Enter(r, x, false) == Shift(x)
  {
    JoinedIs(r, x, 0, false);
    JoinZero(x);
  }

  lemma XorNone(q: bv16, w: bv16)
    requires w == 0
    ensures q ^ w == q
  {
  }

  lemma XorBoth(r: Register<bv16>, p: bv16, q: bv16, v: bv16, w: bv16)
    requires r == Lfsr() && p ^ v == q ^ w
    ensures r.xor(p, v) == r.xor(q, w)
  {
    XorIs(r, p, v);
    XorIs(r, q, w);
  }

  lemma ShiftsApart(x: bv16, p: bv16, q: bv16, v: bv16, w: bv16)
    requires p == Shift(x ^ 1) && q == Shift(x) && v == 0x8408 && w == 0
    ensures p ^ v == q ^ w
  {
    OneShift(x);
    XorNone(q, w);
  }

  lemma GeneratorXor(r: Register<bv16>, x: bv16, v: bv16, w: bv16)
    requires r == Lfsr() && v == 0x8408 && w == 0
    ensures Enter(r, x, true) ^ v == Enter(r, x, false) ^ w
  {
    EnterOne(r, x);
    EnterNone(r, x);
    ShiftsApart(x, Enter(r, x, true), Enter(r, x, false), v, w);
  }
}
