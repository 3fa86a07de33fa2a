/**
 Feedback shift registers that are fed one bit at a time, for any kind of register contents that obeys the laws below.
 */
module ShiftRegister {

  /** Contents T: nothing, combining, one step, a bit in front of the lower bits, and how many bits are in use. */
  datatype Register<!T> =
    Register(zero: T, xor: (T, T) -> T, shift: T -> T, join: (T, bool) -> T, below: (T, nat) -> bool)

  /** The contents after one bit. */
  function Enter<T>(r: Register<T>, x: T, b: bool): T
  {
    r.shift(r.xor(x, r.join(r.zero, b)))
  }

  /** The contents after all the bits. */
  function Feed<T>(r: Register<T>, bits: seq<bool>, x: T): T
  {
    if bits == [] then x else Feed(r, bits[1..], Enter(r, x, bits[0]))
  }

  function Shifts<T>(r: Register<T>, n: nat, x: T): T
  {
    if n == 0 then x else Shifts(r, n - 1, r.shift(x))
  }

  /** Bits as contents, the first bit lowest. */
  function Word<T>(r: Register<T>, bits: seq<bool>): T
  {
    if bits == [] then r.zero else r.join(Word(r, bits[1..]), bits[0])
  }

  // --------------------------------------------------------------------- laws

  predicate XorLaw<T(==)>(r: Register<T>, x: T, v: T, w: T)
  {
    && r.xor(x, r.zero) == x
    && (r.xor(x, v) == r.xor(x, w) ==> v == w)
    && (r.xor(x, w) == r.xor(v, w) ==> x == v)
    && (r.xor(x, w) == r.zero <==> x == w)
  }

  /** No contents are lost by a step. */
  predicate ShiftLaw<T(==)>(r: Register<T>, x: T, y: T)
  {
    r.shift(x) == r.shift(y) ==> x == y
  }

  predicate BelowLaw<T>(r: Register<T>, w: T, b: bool, k: nat)
  {
    k < 15 && r.below(w, k) ==> r.below(r.join(w, b), k + 1)
  }

  /** Up to 15 bits may as well be combined with the contents before a step. */
  predicate LaterLaw<T(==)>(r: Register<T>, x: T, w: T, b: bool, k: nat)
  {
    k < 16 && r.below(w, k) ==> r.xor(Enter(r, x, b), w) == r.shift(r.xor(x, r.join(w, b)))
  }

  predicate JoinLaw<T(==)>(r: Register<T>, v: T, a: bool, w: T, b: bool, k: nat)
  {
    k < 16 && r.below(v, k) && r.below(w, k) && r.join(v, a) == r.join(w, b) ==> v == w && a == b
  }

  ghost predicate Laws<T(!new)>(r: Register<T>)
  {
    && r.shift(r.zero) == r.zero && r.below(r.zero, 0)
    && (forall x, v, w {:trigger XorLaw(r, x, v, w)} :: XorLaw(r, x, v, w))
    && (forall x, y {:trigger ShiftLaw(r, x, y)} :: ShiftLaw(r, x, y))
    && (forall w, b, k: nat {:trigger BelowLaw(r, w, b, k)} :: BelowLaw(r, w, b, k))
    && (forall x, w, b, k: nat {:trigger LaterLaw(r, x, w, b, k)} :: LaterLaw(r, x, w, b, k))
    && (forall v, a, w, b, k: nat {:trigger JoinLaw(r, v, a, w, b, k)} :: JoinLaw(r, v, a, w, b, k))
  }

  // -------------------------------------------------------------- consequences

  lemma {:induction false} FeedSplit<T>(r: Register<T>, u: seq<bool>, v: seq<bool>, x: T)
    ensures Feed(r, u + v, x) == Feed(r, v, Feed(r, u, x))
  {
    if u == [] {
      assert u + v == v;
    } else {
      assert (u + v)[1..] == u[1..] + v;
      FeedSplit(r, u[1..], v, Enter(r, x, u[0]));
    }
  }

  lemma {:induction false} WordFits<T(!new)>(r: Register<T>, bits: seq<bool>)
    requires Laws(r) && |bits| < 16
    ensures r.below(Word(r, bits), |bits|)
  {
    if bits != [] {
      WordFits(r, bits[1..]);
      assert BelowLaw(r, Word(r, bits[1..]), bits[0], |bits| - 1);
    }
  }

  /** Different bits are different words. */
  lemma {:induction false} WordTellsBits<T(!new)>(r: Register<T>, u: seq<bool>, v: seq<bool>)
    requires Laws(r) && |u| == |v| <= 16 && Word(r, u) == Word(r, v)
    ensures u == v
  {
    if u != [] {
      WordFits(r, u[1..]);
      WordFits(r, v[1..]);
      assert JoinLaw(r, Word(r, u[1..]), u[0], Word(r, v[1..]), v[0], |u| - 1);
      WordTellsBits(r, u[1..], v[1..]);
      assert u == [u[0]] + u[1..] && v == [v[0]] + v[1..];
    }
  }

  lemma {:induction false} ShiftsTellWord<T(!new)>(r: Register<T>, n: nat, x: T, y: T)
    requires Laws(r) && Shifts(r, n, x) == Shifts(r, n, y)
    ensures x == y
  {
    if n > 0 {
      ShiftsTellWord(r, n - 1, r.shift(x), r.shift(y));
      assert ShiftLaw(r, x, y);
    }
  }

  lemma {:induction false} ShiftsOfZero<T(!new)>(r: Register<T>, n: nat)
    requires Laws(r)
    ensures Shifts(r, n, r.zero) == r.zero
  {
    if n > 0 {
      ShiftsOfZero(r, n - 1);
    }
  }

  /** Up to 16 bits may be combined with the contents all at once. */
  lemma {:induction false} FeedAtOnce<T(!new)>(r: Register<T>, bits: seq<bool>, x: T)
    requires Laws(r) && |bits| <= 16
    ensures Feed(r, bits, x) == Shifts(r, |bits|, r.xor(x, Word(r, bits)))
  {
    if bits == [] {
      assert XorLaw(r, x, x, x);
    } else {
      WordFits(r, bits[1..]);
      assert LaterLaw(r, x, Word(r, bits[1..]), bits[0], |bits| - 1);
      FeedAtOnce(r, bits[1..], Enter(r, x, bits[0]));
    }
  }

  /** The same bits keep different contents different. */
  lemma {:induction false} FeedTellsWord<T(!new)>(r: Register<T>, bits: seq<bool>, x: T, y: T)
    requires Laws(r) && Feed(r, bits, x) == Feed(r, bits, y)
    ensures x == y
  {
    if bits != [] {
      var b := r.join(r.zero, bits[0]);
      FeedTellsWord(r, bits[1..], Enter(r, x, bits[0]), Enter(r, y, bits[0]));
      assert ShiftLaw(r, r.xor(x, b), r.xor(y, b));
      assert XorLaw(r, x, y, b);
    }
  }

  /** Bits are followed by 16 more that empty the register exactly when these are the register's contents. */
  lemma Residue<T(!new)>(r: Register<T>, bits: seq<bool>, trailer: seq<bool>, x: T)
    requires Laws(r) && |trailer| == 16
    ensures Feed(r, bits + trailer, x) == r.zero <==> Feed(r, bits, x) == Word(r, trailer)
  {
    var c, w, n := Feed(r, bits, x), Word(r, trailer), |trailer|;
    FeedSplit(r, bits, trailer, x);
    FeedAtOnce(r, trailer, c);
    ShiftsOfZero(r, n);
    if Shifts(r, n, r.xor(c, w)) == r.zero {
      ShiftsTellWord(r, n, r.xor(c, w), r.zero);
    }
    assert XorLaw(r, c, c, w);
  }

  /** Two bit strings agree outside the n bits from k on. */
  ghost predicate AgreeOutside(u: seq<bool>, v: seq<bool>, k: nat, n: nat)
  {
    |u| == |v| && forall i :: 0 <= i < |u| && !(k <= i < k + n) ==> u[i] == v[i]
  }

  /** Up to 16 different bits lead to different contents. */
  lemma ShortBurst<T(!new)>(r: Register<T>, u: seq<bool>, v: seq<bool>, x: T)
    requires Laws(r) && |u| == |v| <= 16 && Feed(r, u, x) == Feed(r, v, x)
    ensures u == v
  {
    var n := |u|;
    FeedAtOnce(r, u, x);
    FeedAtOnce(r, v, x);
    ShiftsTellWord(r, n, r.xor(x, Word(r, u)), r.xor(x, Word(r, v)));
    assert XorLaw(r, x, Word(r, u), Word(r, v));
    WordTellsBits(r, u, v);
  }

  lemma Parts(u: seq<bool>, i: nat, j: nat)
    requires i <= j <= |u|
    ensures u == u[..i] + u[i..j] + u[j..]
  {
  }

  lemma FeedThree<T>(r: Register<T>, u: seq<bool>, i: nat, j: nat, x: T)
    requires i <= j <= |u|
    ensures Feed(r, u, x) == Feed(r, u[j..], Feed(r, u[i..j], Feed(r, u[..i], x)))
  {
    Parts(u, i, j);
    FeedSplit(r, u[..i] + u[i..j], u[j..], x);
    FeedSplit(r, u[..i], u[i..j], x);
  }

  lemma SameEnds(u: seq<bool>, v: seq<bool>, k: nat, n: nat) returns (i: nat, j: nat)
    requires AgreeOutside(u, v, k, n)
    ensures i <= j <= |u| && j - i <= n && u[..i] == v[..i] && u[j..] == v[j..]
  {
    i := if k < |u| then k else |u|;
    j := if k + n < |u| then k + n else |u|;
  }

  /** Bit strings that differ only within 16 consecutive bits lead to different contents. */
  lemma Burst<T(!new)>(r: Register<T>, u: seq<bool>, v: seq<bool>, k: nat, x: T)
    requires Laws(r) && AgreeOutside(u, v, k, 16) && Feed(r, u, x) == Feed(r, v, x)
    ensures u == v
  {
    var i, j := SameEnds(u, v, k, 16);
    var y := Feed(r, u[..i], x);
    FeedThree(r, u, i, j, x);
    FeedThree(r, v, i, j, x);
    FeedTellsWord(r, u[j..], Feed(r, u[i..j], y), Feed(r, v[i..j], y));
    ShortBurst(r, u[i..j], v[i..j], y);
    Parts(u, i, j);
    Parts(v, i, j);
  }

  /** With one more bit in front, all depends on what the first step did. */
  lemma LongerBurst<T(!new)>(r: Register<T>, a: bool, u: seq<bool>, b: bool, v: seq<bool>, x: T)
    requires Laws(r) && |u| == |v| == 16
    ensures Feed(r, [a] + u, x) == Feed(r, [b] + v, x)
            <==> r.xor(Enter(r, x, a), Word(r, u)) == r.xor(Enter(r, x, b), Word(r, v))
  {
    var p, q, n := Enter(r, x, a), Enter(r, x, b), |u|;
    assert ([a] + u)[1..] == u && ([b] + v)[1..] == v;
    FeedAtOnce(r, u, p);
    FeedAtOnce(r, v, q);
    if Shifts(r, n, r.xor(p, Word(r, u))) == Shifts(r, n, r.xor(q, Word(r, v))) {
      ShiftsTellWord(r, n, r.xor(p, Word(r, u)), r.xor(q, Word(r, v)));
    }
  }

  lemma WordNext<T>(r: Register<T>, b: bool, rest: seq<bool>)
    ensures Word(r, [b] + rest) == r.join(Word(r, rest), b)
  {
    assert ([b] + rest)[1..] == rest;
  }

  lemma FourMore<T>(r: Register<T>, n: nat, x: T)
    ensures Shifts(r, n + 4, x) == Shifts(r, n, r.shift(r.shift(r.shift(r.shift(x)))))
  {
    var x1 := r.shift(x);
    var x2 := r.shift(x1);
    assert Shifts(r, n + 4, x) == Shifts(r, n + 3, x1);
    assert Shifts(r, n + 3, x1) == Shifts(r, n + 2, x2);
  }
}
