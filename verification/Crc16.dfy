/**
 os/lib/crc16.c: the CRC a byte at a time, without a branch and without a table.
 */
module Crc16 {
  import opened CrcSpec
  import opened ShiftRegister

  /** Four steps of the shift register. */
  function Nibble(x: bv16): bv16
  {
    (x >> 4) ^ ((x & 15) << 12) ^ ((x & 15) << 7) ^ (x & 15)
  }

  /** One step without a branch. */
  function Smooth(x: bv16): bv16
  {
    (x >> 1) ^ ((x & 1) << 15) ^ ((x & 1) << 10) ^ ((x & 1) << 3)
  }

  lemma ShiftIsSmooth(x: bv16)
    ensures Shift(x) == Smooth(x)
  {
    if x & 1 == 1 {
      assert Shift(x) == (x >> 1) ^ 0x8408;
    } else {
      assert x & 1 == 0;
    }
  }

  lemma FourSmooth(x: bv16)
    ensures Smooth(Smooth(Smooth(Smooth(x)))) == Nibble(x)
  {
  }

  lemma FourShifts(x: bv16)
    ensures Nibble(x) == Shift(Shift(Shift(Shift(x))))
  {
    ShiftIsSmooth(x);
    ShiftIsSmooth(Smooth(x));
    ShiftIsSmooth(Smooth(Smooth(x)));
    ShiftIsSmooth(Smooth(Smooth(Smooth(x))));
    FourSmooth(x);
  }

  lemma EightShifts(r: Register<bv16>, x: bv16)
    requires r == Lfsr()
    ensures Shifts(r, 8, x) == Nibble(Nibble(x))
  {
    var n := 0;
    FourMore(r, n + 4, x);
    FourShifts(x);
    FourMore(r, n, Nibble(x));
    FourShifts(Nibble(x));
  }

  function Swapped(x: bv16): bv16
  {
    (x >> 8) | (x << 8)
  }

  /** The three combinations after the bytes have been swapped. */
  function Folded(x: bv16): bv16
  {
    var y := x ^ ((x & 0xff00) << 4);
    var z := y ^ ((y >> 8) >> 4);
    z ^ ((z & 0xff00) >> 5)
  }

  /** Eight steps at once. */
  function Octet(x: bv16): bv16
  {
    var v, u := x & 15, ((x >> 4) ^ x) & 15;
    (x >> 8) ^ (v << 8) ^ (v << 3) ^ (u << 12) ^ (u << 7) ^ u
  }

  lemma TwoNibbles(x: bv16)
    ensures Nibble(Nibble(x)) == Octet(x)
  {
  }

  lemma FoldedIsOctet(x: bv16)
    ensures Folded(Swapped(x)) == Octet(x)
  {
  }

  /** A byte combined with the register and eight steps is the byte fed bit by bit. */
  lemma ByteAtOnce(b: bv8, x: bv16)
    ensures Feed(Lfsr(), ByteBits(b), x) == Folded(Swapped(x ^ b as bv16))
  {
    var r := Lfsr();
    LfsrLaws(r);
    FeedAtOnce(r, ByteBits(b), x);
    WordOfByte(r, b);
    EightShifts(r, x ^ b as bv16);
    TwoNibbles(x ^ b as bv16);
    FoldedIsOctet(x ^ b as bv16);
  }

  lemma CrcOf(m: seq<bv8>, c: bv8, x: bv16, y: bv16)
    requires Crc(m, 0) == x && Folded(Swapped(x ^ c as bv16)) == y
    ensures Crc(m + [c], 0) == y
  {
    CrcNext(m, c, 0);
    ByteAtOnce(c, x);
  }

  /** The digits from 1 to 9 give 0x2189, the check value by which this CRC is identified. */
  lemma CheckValue(m: seq<bv8>)
    requires m == [0x31, 0x32, 0x33, 0x34, 0x35, 0x36, 0x37, 0x38, 0x39]
    ensures Crc(m, 0) == 0x2189
  {
    var s: seq<bv8> := [];
    CrcOf(s, 0x31, 0x0000, 0x200a);
    s := s + [0x31];
    CrcOf(s, 0x32, 0x200a, 0xbdeb);
    s := s + [0x32];
    CrcOf(s, 0x33, 0xbdeb, 0x5a78);
    s := s + [0x33];
    CrcOf(s, 0x34, 0x5a78, 0x8832);
    s := s + [0x34];
    CrcOf(s, 0x35, 0x8832, 0x7437);
    s := s + [0x35];
    CrcOf(s, 0x36, 0x7437, 0x11fd);
    s := s + [0x36];
    CrcOf(s, 0x37, 0x11fd, 0x6947);
    s := s + [0x37];
    CrcOf(s, 0x38, 0x6947, 0x8b19);
    s := s + [0x38];
    CrcOf(s, 0x39, 0x8b19, 0x2189);
    s := s + [0x39];
    assert s == m;
  }

  /** crc16_add: the register after the eight bits of b. */
  method Add(b: bv8, acc0: bv16) returns (acc: bv16)
    ensures acc == Feed(Lfsr(), ByteBits(b), acc0)
  {
    ByteAtOnce(b, acc0);
    acc := acc0 ^ b as bv16;
    acc := (acc >> 8) | (acc << 8);
    acc := acc ^ ((acc & 0xff00) << 4);
    acc := acc ^ ((acc >> 8) >> 4);
    acc := acc ^ ((acc & 0xff00) >> 5);
  }

  /** crc16_data: the CRC of the first len bytes, of none if len is negative. */
  method Data(data: seq<bv8>, len: int, acc0: bv16) returns (acc: bv16)
    requires len <= |data|
    ensures acc == Crc(data[..if len < 0 then 0 else len], acc0)
  {
    acc := acc0;
    var i := 0;
    while i < len
      invariant 0 <= i <= if len < 0 then 0 else len
      invariant acc == Crc(data[..i], acc0)
    {
      CrcNext(data[..i], data[i], acc0);
      assert data[..i + 1] == data[..i] + [data[i]];
      acc := Add(data[i], acc);
      i := i + 1;
    }
  }
}
