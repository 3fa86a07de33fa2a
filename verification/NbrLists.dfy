/**
 The parts under os/net/nbr-table.c: bitmaps of tables, the singly linked key list of os/lib/list.c and the block
 pool of os/lib/memb.c. Pointers into the pool are block numbers, NULL is -1.
 */
module NbrBits {

  predicate Bit(b: bv8, t: nat)
    requires t < 8
  {
    b & (1 << t) != 0
  }

  /** The tables whose bits are set. */
  ghost function Tables(b: bv8): (s: set<nat>)
  {
    set t: nat | t < 8 && Bit(b, t)
  }

  lemma SetBit(b: bv8, t: nat, s: nat)
    requires t < 8 && s < 8
    ensures Bit(b | (1 << t), s) <==> s == t || Bit(b, s)
  {
  }

  lemma ClearBit(b: bv8, t: nat, s: nat)
    requires t < 8 && s < 8
    ensures Bit(b & !(1 << t), s) <==> s != t && Bit(b, s)
  {
  }

  lemma NoBits(b: bv8, k: nat, s: nat)
    requires k <= s < 8 && b >> k == 0
    ensures !Bit(b, s)
  {
  }

  lemma ShiftBit(b: bv8, k: nat)
    requires k < 8
    ensures (b >> k) & 1 == 1 <==> Bit(b, k)
    ensures (b >> k) >> 1 == b >> (k + 1)
  {
  }

  lemma ShiftEnds(b: bv8)
    ensures b >> 0 == b && b >> 8 == 0
  {
  }

  lemma EmptyMap(b: bv8)
    ensures b == 0 <==> Tables(b) == {}
  {
    if b != 0 {
      SomeBit(b);
      var t: nat :| t < 8 && Bit(b, t);
      assert t in Tables(b);
    } else {
      forall t: nat | t < 8 ensures t !in Tables(b) {
        ZeroBit(t);
      }
    }
  }

  lemma ZeroBit(t: nat)
    requires t < 8
    ensures !Bit(0, t)
  {
  }

  lemma SomeBit(b: bv8)
    requires b != 0
    ensures exists t: nat :: t < 8 && Bit(b, t)
  {
    assert Bit(b, 0) || Bit(b, 1) || Bit(b, 2) || Bit(b, 3) || Bit(b, 4) || Bit(b, 5) || Bit(b, 6) || Bit(b, 7);
  }

  /** nbr_set_bit on one byte of a bitmap. */
  method WriteBit(b: bv8, t: nat, value: bool) returns (b': bv8)
    requires t < 8
    ensures Tables(b') == if value then Tables(b) + {t} else Tables(b) - {t}
  {
    b' := if value then b | (1 << t) else b & !(1 << t);
    forall s: nat | s < 8
      ensures s in Tables(b') <==> if value then s == t || s in Tables(b) else s != t && s in Tables(b)
    {
      if value { SetBit(b, t, s); } else { ClearBit(b, t, s); }
    }
  }

  method ReadBit(b: bv8, t: nat) returns (r: bool)
    requires t < 8
    ensures r <==> t in Tables(b)
  {
    r := Bit(b, t);
  }

  /** The elements below k. */
  ghost function Upto(s: set<nat>, k: nat): set<nat>
  {
    set t | t in s && t < k
  }

  lemma UptoNext(s: set<nat>, k: nat)
    ensures |Upto(s, k + 1)| == |Upto(s, k)| + (if k in s then 1 else 0)
  {
    assert Upto(s, k + 1) == Upto(s, k) + (if k in s then {k} else {});
  }

  lemma NoneAbove(b: bv8, k: nat)
    requires k <= 8 && b >> k == 0
    ensures Upto(Tables(b), k) == Tables(b)
  {
    forall t: nat | k <= t < 8 ensures t !in Tables(b) {
      NoBits(b, k, t);
    }
  }

  lemma NextBit(b: bv8, k: nat)
    requires k < 8
    ensures (b >> k) & 1 == 1 <==> k in Tables(b)
    ensures (b >> k) >> 1 == b >> (k + 1)
  {
    ShiftBit(b, k);
  }

  lemma ShiftedOut(b: bv8, k: nat)
    requires k <= 8 && b >> k != 0
    ensures k < 8
  {
    ShiftEnds(b);
  }

  /** The counting loop of used_count. */
  method CountTables(b: bv8) returns (count: nat)
    ensures count == |Tables(b)|
  {
    var used := b;
    count := 0;
    ghost var k := 0;
    ShiftEnds(b);
    assert Upto(Tables(b), 0) == {};
    while used != 0
      invariant k <= 8 && used == b >> k && count == |Upto(Tables(b), k)|
      decreases 8 - k
    {
      ShiftedOut(b, k);
      NextBit(b, k);
      UptoNext(Tables(b), k);
      if used & 1 == 1 {
        count := count + 1;
      }
      used := used >> 1;
      k := k + 1;
    }
    NoneAbove(b, k);
  }
}

module NbrLists {

  /** The i-th key as a pointer. */
  function At(keys: seq<nat>, i: nat): int
  {
    if i < |keys| then keys[i] else -1
  }

  ghost predicate LinkAt(next: seq<int>, keys: seq<nat>, i: nat)
    requires i < |keys|
  {
    keys[i] < |next| && next[keys[i]] == At(keys, i + 1)
  }

  ghost predicate Apart(keys: seq<nat>, i: nat, j: nat)
    requires i < |keys| && j < |keys|
  {
    keys[i] != keys[j]
  }

  ghost predicate Distinct(keys: seq<nat>)
  {
    forall i: nat, j: nat {:trigger Apart(keys, i, j)} :: i < j < |keys| ==> Apart(keys, i, j)
  }

  /** The pointers from head on visit exactly the keys, in this order, and end with NULL. */
  ghost predicate Chain(head: int, next: seq<int>, keys: seq<nat>)
  {
    && head == At(keys, 0) && Distinct(keys)
    && forall i: nat {:trigger LinkAt(next, keys, i)} :: i < |keys| ==> LinkAt(next, keys, i)
  }

  /** keys without its p-th element. */
  function Cut<T>(keys: seq<T>, p: nat): (r: seq<T>)
    requires p < |keys|
    ensures |r| == |keys| - 1
    ensures forall i: nat {:trigger r[i]} :: i < |r| ==> r[i] == keys[if i < p then i else i + 1]
  {
    keys[..p] + keys[p + 1..]
  }

  lemma CutDistinct(keys: seq<nat>, p: nat)
    requires p < |keys| && Distinct(keys)
    ensures Distinct(Cut(keys, p)) && keys[p] !in Cut(keys, p)
  {
    var r := Cut(keys, p);
    forall i: nat, j: nat {:trigger Apart(r, i, j)} | i < j < |r| ensures Apart(r, i, j) {
      assert Apart(keys, if i < p then i else i + 1, if j < p then j else j + 1);
    }
    forall i: nat {:trigger r[i]} | i < |r| ensures r[i] != keys[p] {
      if i < p { assert Apart(keys, i, p); } else { assert Apart(keys, p, i + 1); }
    }
  }

  lemma OnlyOnce(keys: seq<nat>, p: nat, q: nat)
    requires p < |keys| && q < |keys| && Distinct(keys)
    ensures keys[p] == keys[q] <==> p == q
  {
    assert p < q ==> Apart(keys, p, q);
    assert q < p ==> Apart(keys, q, p);
  }

  /** Taking the p-th key out of the list. */
  lemma Unlink(head: int, next: seq<int>, keys: seq<nat>, p: nat, head': int, next': seq<int>)
    requires Chain(head, next, keys) && p < |keys| && keys[p] < |next|
    requires head' == if p == 0 then next[keys[p]] else head
    requires p > 0 ==> keys[p - 1] < |next|
    requires next' == (if p == 0 then next else next[keys[p - 1] := next[keys[p]]])[keys[p] := -1]
    ensures Chain(head', next', Cut(keys, p))
  {
    var r := Cut(keys, p);
    CutDistinct(keys, p);
    assert LinkAt(next, keys, p);
    forall i: nat {:trigger LinkAt(next', r, i)} | i < |r| ensures LinkAt(next', r, i) {
      var j := if i < p then i else i + 1;
      assert LinkAt(next, keys, j);
      assert r[i] != keys[p];
      if p > 0 && j != p - 1 {
        if j < p - 1 { assert Apart(keys, j, p - 1); } else { assert Apart(keys, p - 1, j); }
      }
    }
  }

  /** Putting a key behind the last one. */
  lemma Append(head: int, next: seq<int>, keys: seq<nat>, k: nat, head': int, next': seq<int>)
    requires Chain(head, next, keys) && k !in keys && k < |next|
    requires keys == [] ==> head' == k && next' == next[k := -1]
    requires keys != [] ==> keys[|keys| - 1] < |next| && head' == head && next' == next[k := -1][keys[|keys| - 1] := k]
    ensures Chain(head', next', keys + [k])
  {
    var r := keys + [k];
    forall i: nat, j: nat {:trigger Apart(r, i, j)} | i < j < |r| ensures Apart(r, i, j) {
      if j < |keys| { assert Apart(keys, i, j); }
    }
    forall i: nat {:trigger LinkAt(next', r, i)} | i < |r| ensures LinkAt(next', r, i) {
      if i < |keys| {
        assert LinkAt(next, keys, i);
        if i < |keys| - 1 { assert Apart(keys, i, |keys| - 1); }
      }
    }
  }

  /** A list of keys in the pool: list.c on pointers into memb.c's blocks. */
  class KeyPool {
    const n: nat
    var head: int
    var next: seq<int>
    var taken: seq<bool>
    ghost var keys: seq<nat>

    /** A block is taken iff its key is listed, up to a block that is just changing hands. */
    ghost predicate Linked()
      reads this
    {
      |next| == n && |taken| == n && Chain(head, next, keys)
    }

    constructor (blocks: nat)
      ensures Linked() && n == blocks && keys == [] && taken == seq(blocks, _ => false)
    {
      n := blocks;
      head := -1;
      next := seq(blocks, _ => -1);
      taken := seq(blocks, _ => false);
      keys := [];
    }

    /** list_tail. */
    method Tail() returns (l: int)
      requires Linked()
      ensures l == if keys == [] then -1 else keys[|keys| - 1]
    {
      if head == -1 {
        return -1;
      }
      l := head;
      ghost var p := 0;
      assert LinkAt(next, keys, 0);
      while next[l] != -1
        invariant p < |keys| && l == keys[p] && LinkAt(next, keys, p)
        decreases |keys| - p
      {
        assert LinkAt(next, keys, p);
        l := next[l];
        p := p + 1;
        assert LinkAt(next, keys, p);
      }
    }

    /** list_remove. */
    method Remove(item: nat)
      requires Linked()
      modifies this`head, this`next, this`keys
      ensures Linked() && item !in keys
      ensures item !in old(keys) ==> keys == old(keys)
      ensures forall p: nat {:trigger old(keys)[p]} :: p < |old(keys)| && old(keys)[p] == item ==>
              keys == Cut(old(keys), p)
    {
      var r, l := -1, head;
      ghost var p := 0;
      while l != -1
        invariant p <= |keys| && l == At(keys, p) && r == (if p == 0 then -1 else keys[p - 1]) && Linked()
        invariant keys == old(keys) && head == old(head) && next == old(next)
        invariant forall q: nat {:trigger keys[q]} :: q < p ==> keys[q] != item
        decreases |keys| - p
      {
        assert LinkAt(next, keys, p);
        if l == item {
          Drop(r, l, p);
          return;
        }
        r := l;
        l := next[l];
        p := p + 1;
      }
    }

    /** The body of list_remove where the item is found. */
    method Drop(r: int, l: int, ghost p: nat)
      requires Linked() && p < |keys| && l == keys[p] && r == if p == 0 then -1 else keys[p - 1]
      modifies this`head, this`next, this`keys
      ensures Linked() && keys == Cut(old(keys), p) && l !in keys
      ensures forall q: nat {:trigger old(keys)[q]} :: q < |old(keys)| && old(keys)[q] == l ==> q == p
    {
      assert LinkAt(next, keys, p);
      if p > 0 {
        assert LinkAt(next, keys, p - 1);
      }
      ghost var head0, next0 := head, next;
      if r == -1 {
        head := next[l];
      } else {
        next := next[r := next[l]];
      }
      next := next[l := -1];
      Unlink(head0, next0, keys, p, head, next);
      CutDistinct(keys, p);
      forall q: nat {:trigger keys[q]} | q < |keys| && keys[q] == l ensures q == p {
        OnlyOnce(keys, p, q);
      }
      keys := Cut(keys, p);
    }

    /** list_add. */
    method Add(item: nat)
      requires Linked() && item < n && item !in keys
      modifies this`head, this`next, this`keys
      ensures Linked() && keys == old(keys) + [item]
    {
      Remove(item);
      ghost var head0, next0 := head, next;
      next := next[item := -1];
      AddLast(item, next0);
    }

    /** The end of list_add: the last element is made to point to the new one. */
    method AddLast(item: nat, ghost next0: seq<int>)
      requires item < n && item !in keys && |taken| == n && |next0| == n && Chain(head, next0, keys) &&
               next == next0[item := -1]
      modifies this`head, this`next, this`keys
      ensures Linked() && keys == old(keys) + [item]
    {
      ghost var head0 := head;
      SkipUnlisted(head, next0, keys, item);
      var l := Tail();
      if l == -1 {
        head := item;
      } else {
        assert LinkAt(next, keys, |keys| - 1);
        next := next[l := item];
      }
      Append(head0, next0, keys, item, head, next);
      keys := keys + [item];
    }

    /** memb_alloc: the first block that is not taken. */
    method Alloc() returns (k: int)
      requires Linked()
      modifies this`taken
      ensures Linked()
      ensures k == -1 ==> taken == old(taken) && forall i: nat {:trigger taken[i]} :: i < n ==> taken[i]
      ensures k != -1 ==> 0 <= k < n && !old(taken)[k] && taken == old(taken)[k := true]
      ensures k != -1 ==> forall i: nat {:trigger old(taken)[i]} :: i < k ==> old(taken)[i]
    {
      var i := 0;
      while i < n
        invariant i <= n && taken == old(taken)
        invariant forall j: nat {:trigger taken[j]} :: j < i ==> taken[j]
      {
        if !taken[i] {
          taken := taken[i := true];
          return i;
        }
        i := i + 1;
      }
      k := -1;
    }

    /** memb_free: 0, or -1 for a block that is not taken or not in the pool. */
    method Free(k: int) returns (r: int)
      requires Linked()
      modifies this`taken
      ensures Linked()
      ensures r == 0 <==> 0 <= k < n && old(taken)[k]
      ensures r == 0 || r == -1
      ensures taken == if 0 <= k < n then old(taken)[k := false] else old(taken)
    {
      var i := 0;
      while i < n
        invariant i <= n && taken == old(taken) && (0 <= k ==> i <= k || k >= n)
      {
        if i == k {
          if !taken[i] {
            return -1;
          }
          taken := taken[i := false];
          return 0;
        }
        i := i + 1;
      }
      return -1;
    }

    /** memb_numfree. */
    method NumFree() returns (count: nat)
      requires Linked()
      ensures count == |FreeBlocks(taken)|
      ensures count > 0 <==> exists i: nat :: i < n && !taken[i]
    {
      var i := 0;
      count := 0;
      assert FreeBelow(taken, 0) == {};
      while i < n
        invariant i <= n && count == |FreeBelow(taken, i)|
      {
        FreeNext(taken, i);
        if !taken[i] {
          count := count + 1;
        }
        i := i + 1;
      }
      assert FreeBelow(taken, n) == FreeBlocks(taken);
      SomeFree(taken);
    }
  }

  lemma SomeFree(taken: seq<bool>)
    ensures |FreeBlocks(taken)| > 0 <==> exists i: nat :: i < |taken| && !taken[i]
  {
    if FreeBlocks(taken) != {} {
      var b :| b in FreeBlocks(taken);
    } else {
      forall i: nat | i < |taken| ensures taken[i] {
        assert i !in FreeBlocks(taken);
      }
    }
  }

  ghost function FreeBlocks(taken: seq<bool>): set<nat>
  {
    set i: nat | i < |taken| && !taken[i]
  }

  ghost function FreeBelow(taken: seq<bool>, k: nat): set<nat>
  {
    set i: nat | i < |taken| && i < k && !taken[i]
  }

  lemma FreeNext(taken: seq<bool>, k: nat)
    requires k < |taken|
    ensures |FreeBelow(taken, k + 1)| == |FreeBelow(taken, k)| + (if taken[k] then 0 else 1)
  {
    assert FreeBelow(taken, k + 1) == FreeBelow(taken, k) + (if taken[k] then {} else {k});
  }

  /** The link of an unlisted key does not matter. */
  lemma SkipUnlisted(head: int, next: seq<int>, keys: seq<nat>, k: nat)
    requires Chain(head, next, keys) && k !in keys && k < |next|
    ensures Chain(head, next[k := -1], keys)
  {
    var next' := next[k := -1];
    forall i: nat {:trigger LinkAt(next', keys, i)} | i < |keys| ensures LinkAt(next', keys, i) {
      assert LinkAt(next, keys, i);
    }
  }
}
