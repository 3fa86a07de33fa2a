/**
 How the key list, the block pool and the two bitmaps of os/net/nbr-table.c stand for the neighbours and their
 tables, and what each elementary write does to that view.
 */
module NbrView {
  import opened NbrBits
  import opened NbrLists
  import opened NbrSpec

  // ------------------------------------------------------- the view, on values

  /** The neighbours in list order, as the list, the keys and the two bitmaps have them. */
  ghost function ViewOf<A>(keys: seq<nat>, lladdr: seq<A>, used: seq<bv8>, locked: seq<bv8>): (v: seq<Entry<A>>)
    requires |used| == |lladdr| == |locked| && forall i: nat {:trigger keys[i]} :: i < |keys| ==> keys[i] < |lladdr|
    ensures |v| == |keys|
    ensures forall i: nat {:trigger v[i]} :: i < |v| ==>
              v[i] == Entry(keys[i], lladdr[keys[i]], Tables(used[keys[i]]), Tables(locked[keys[i]]))
  {
    seq(|keys|,
      i requires 0 <= i < |keys| => Entry(keys[i], lladdr[keys[i]], Tables(used[keys[i]]), Tables(locked[keys[i]])))
  }

  ghost predicate InPool(keys: seq<nat>, n: nat)
  {
    forall i: nat {:trigger keys[i]} :: i < |keys| ==> keys[i] < n
  }

  /** What holds of block k: taken iff listed, no bits unless listed, bits of registered tables only. Block e is the
      one that is changing hands: taken and not listed. */
  ghost predicate BlockOk(keys: seq<nat>, taken: seq<bool>, used: seq<bv8>, locked: seq<bv8>, tables: nat, e: int,
      k: nat)
    requires k < |taken| == |used| == |locked|
  {
    && (taken[k] <==> k in keys || k == e) && (k == e ==> k !in keys)
    && (k !in keys ==> Tables(used[k]) == {} && Tables(locked[k]) == {})
    && (forall t {:trigger t in Tables(used[k])} :: t in Tables(used[k]) ==> t < tables)
    && (forall t {:trigger t in Tables(locked[k])} :: t in Tables(locked[k]) ==> t < tables)
  }

  ghost predicate BlocksOk(keys: seq<nat>, taken: seq<bool>, used: seq<bv8>, locked: seq<bv8>, tables: nat, e: int)
  {
    && |taken| == |used| == |locked|
    && forall k: nat {:trigger BlockOk(keys, taken, used, locked, tables, e, k)} :: k < |taken| ==>
         BlockOk(keys, taken, used, locked, tables, e, k)
  }

  ghost predicate AddrApart<A>(keys: seq<nat>, lladdr: seq<A>, i: nat, j: nat)
    requires InPool(keys, |lladdr|) && i < |keys| && j < |keys|
  {
    lladdr[keys[i]] != lladdr[keys[j]]
  }

  /** Listed addresses are distinct. */
  ghost predicate AddrsApart<A>(keys: seq<nat>, lladdr: seq<A>)
    requires InPool(keys, |lladdr|)
  {
    forall i: nat, j: nat {:trigger AddrApart(keys, lladdr, i, j)} :: i < j < |keys| ==> AddrApart(keys, lladdr, i, j)
  }

  lemma ViewApart<A>(keys: seq<nat>, lladdr: seq<A>, used: seq<bv8>, locked: seq<bv8>)
    requires |used| == |lladdr| == |locked| && InPool(keys, |lladdr|) && Distinct(keys) && AddrsApart(keys, lladdr)
    ensures var v := ViewOf(keys, lladdr, used, locked); DistinctAddrs(v) && DistinctSlots(v)
  {
    var v := ViewOf(keys, lladdr, used, locked);
    forall i: nat, j: nat {:trigger v[i], v[j]} | i < j < |v| ensures v[i].addr != v[j].addr && v[i].slot != v[j].slot {
      assert Apart(keys, i, j) && AddrApart(keys, lladdr, i, j);
    }
  }

  /** A new key with no bits. */
  lemma ViewAppend<A>(keys: seq<nat>, lladdr: seq<A>, used: seq<bv8>, locked: seq<bv8>, k: nat, a: A)
    requires |used| == |lladdr| == |locked| && InPool(keys, |lladdr|) && k < |lladdr| && k !in keys
    ensures InPool(keys + [k], |lladdr|)
    ensures ViewOf(keys + [k], lladdr[k := a], used, locked)
         == ViewOf(keys, lladdr, used, locked) + [Entry(k, a, Tables(used[k]), Tables(locked[k]))]
  {
    var v := ViewOf(keys, lladdr, used, locked);
    var v' := ViewOf(keys + [k], lladdr[k := a], used, locked);
    forall i: nat {:trigger v'[i]} | i < |keys| ensures v'[i] == v[i] {
      assert (keys + [k])[i] == keys[i] != k;
    }
    assert v' == v + [v'[|keys|]];
  }

  /** A key that goes, and whose bits are cleared. */
  lemma ViewCut<A>(keys: seq<nat>, lladdr: seq<A>, used: seq<bv8>, locked: seq<bv8>, p: nat)
    requires |used| == |lladdr| == |locked| && InPool(keys, |lladdr|) && p < |keys| && Distinct(keys)
    ensures InPool(Cut(keys, p), |lladdr|)
    ensures ViewOf(Cut(keys, p), lladdr, used[keys[p] := 0], locked[keys[p] := 0]) ==
            Drop(ViewOf(keys, lladdr, used, locked), p)
  {
    var r := Cut(keys, p);
    var v := ViewOf(keys, lladdr, used, locked);
    var v' := ViewOf(r, lladdr, used[keys[p] := 0], locked[keys[p] := 0]);
    CutDistinct(keys, p);
    forall i: nat {:trigger v'[i]} | i < |r| ensures v'[i] == Drop(v, p)[i] {
      assert r[i] == keys[if i < p then i else i + 1] != keys[p];
    }
  }

  /** One of a key's bits is written. */
  lemma ViewUse<A>(keys: seq<nat>, lladdr: seq<A>, used: seq<bv8>, locked: seq<bv8>, p: nat, b: bv8)
    requires |used| == |lladdr| == |locked| && InPool(keys, |lladdr|) && p < |keys| && Distinct(keys)
    ensures var v := ViewOf(keys, lladdr, used, locked);
            ViewOf(keys, lladdr, used[keys[p] := b], locked) == v[p := v[p].(users := Tables(b))]
    ensures var v := ViewOf(keys, lladdr, used, locked);
            ViewOf(keys, lladdr, used, locked[keys[p] := b]) == v[p := v[p].(locks := Tables(b))]
  {
    var v := ViewOf(keys, lladdr, used, locked);
    var v' := ViewOf(keys, lladdr, used[keys[p] := b], locked);
    var v'' := ViewOf(keys, lladdr, used, locked[keys[p] := b]);
    forall i: nat {:trigger v[i]} {:trigger v'[i]} {:trigger v''[i]} | i < |keys| && i != p
      ensures v'[i] == v[i] == v''[i]
    {
      OnlyOnce(keys, p, i);
    }
    assert v'[p] == v[p].(users := Tables(b)) && v''[p] == v[p].(locks := Tables(b));
    assert v' == v[p := v[p].(users := Tables(b))];
    assert v'' == v[p := v[p].(locks := Tables(b))];
  }

  /** Bits that no listed key has do not show. */
  lemma ViewUnlisted<A>(keys: seq<nat>, lladdr: seq<A>, used: seq<bv8>, locked: seq<bv8>, k: nat, b: bv8)
    requires |used| == |lladdr| == |locked| && InPool(keys, |lladdr|) && k < |lladdr| && k !in keys
    ensures ViewOf(keys, lladdr, used[k := b], locked) == ViewOf(keys, lladdr, used, locked)
    ensures ViewOf(keys, lladdr, used, locked[k := b]) == ViewOf(keys, lladdr, used, locked)
  {
    var v := ViewOf(keys, lladdr, used, locked);
    var v' := ViewOf(keys, lladdr, used[k := b], locked);
    var v'' := ViewOf(keys, lladdr, used, locked[k := b]);
    forall i: nat {:trigger v[i]} {:trigger v'[i]} {:trigger v''[i]} | i < |keys| ensures v'[i] == v[i] == v''[i] {
      assert keys[i] != k;
    }
    assert v' == v && v'' == v;
  }

  // -------------------------------------------------------- the blocks, on values

  lemma BlocksWrite(keys: seq<nat>, taken: seq<bool>, used: seq<bv8>, locked: seq<bv8>, tables: nat, k: nat, t: nat,
      value: bool, b: bv8)
    requires BlocksOk(keys, taken, used, locked, tables, -1) && k < |taken| && t < tables
    requires value ==> k in keys
    ensures Tables(b) == (if value then Tables(used[k]) + {t} else Tables(used[k]) - {t}) ==>
              BlocksOk(keys, taken, used[k := b], locked, tables, -1)
    ensures Tables(b) == (if value then Tables(locked[k]) + {t} else Tables(locked[k]) - {t}) ==>
              BlocksOk(keys, taken, used, locked[k := b], tables, -1)
  {
    var used', locked' := used[k := b], locked[k := b];
    forall j: nat {:trigger BlockOk(keys, taken, used', locked, tables, -1, j)} | j < |taken|
      ensures Tables(b) == (if value then Tables(used[k]) + {t} else Tables(used[k]) - {t}) ==>
                BlockOk(keys, taken, used', locked, tables, -1, j)
    {
      assert BlockOk(keys, taken, used, locked, tables, -1, j);
    }
    forall j: nat {:trigger BlockOk(keys, taken, used, locked', tables, -1, j)} | j < |taken|
      ensures Tables(b) == (if value then Tables(locked[k]) + {t} else Tables(locked[k]) - {t}) ==>
                BlockOk(keys, taken, used, locked', tables, -1, j)
    {
      assert BlockOk(keys, taken, used, locked, tables, -1, j);
    }
  }

  /** A bit of a block that is not listed is out of place. */
  lemma StrayBit(keys: seq<nat>, taken: seq<bool>, used: seq<bv8>, locked: seq<bv8>, tables: nat, k: nat, t: nat)
    requires k < |taken| == |used| == |locked| && k !in keys && t in Tables(locked[k])
    ensures !BlocksOk(keys, taken, used, locked, tables, -1)
  {
    assert !BlockOk(keys, taken, used, locked, tables, -1, k);
  }

  /** A key leaves the list and its block stays taken or is released. */
  lemma BlocksCut(keys: seq<nat>, taken: seq<bool>, used: seq<bv8>, locked: seq<bv8>, tables: nat, p: nat)
    requires BlocksOk(keys, taken, used, locked, tables, -1) && Distinct(keys) && p < |keys| && keys[p] < |taken|
    ensures BlocksOk(Cut(keys, p), taken, used[keys[p] := 0], locked[keys[p] := 0], tables, keys[p])
    ensures BlocksOk(Cut(keys, p), taken[keys[p] := false], used[keys[p] := 0], locked[keys[p] := 0], tables, -1)
    ensures taken[keys[p]]
  {
    var r, k := Cut(keys, p), keys[p];
    var used', locked', taken' := used[k := 0], locked[k := 0], taken[k := false];
    CutDistinct(keys, p);
    EmptyMap(0);
    assert BlockOk(keys, taken, used, locked, tables, -1, k);
    forall j: nat {:trigger BlockOk(r, taken, used', locked', tables, k, j)}
        {:trigger BlockOk(r, taken', used', locked', tables, -1, j)} | j < |taken|
      ensures BlockOk(r, taken, used', locked', tables, k, j) && BlockOk(r, taken', used', locked', tables, -1, j)
    {
      assert BlockOk(keys, taken, used, locked, tables, -1, j);
      if j != k { CutKeeps(keys, p, j); }
    }
  }

  lemma CutKeeps(keys: seq<nat>, p: nat, j: nat)
    requires p < |keys| && j != keys[p]
    ensures j in Cut(keys, p) <==> j in keys
  {
    if j in keys {
      var i :| 0 <= i < |keys| && keys[i] == j;
      assert Cut(keys, p)[if i < p then i else i - 1] == j;
    }
  }

  /** A free block is taken. */
  lemma BlocksTake(keys: seq<nat>, taken: seq<bool>, used: seq<bv8>, locked: seq<bv8>, tables: nat, k: nat)
    requires BlocksOk(keys, taken, used, locked, tables, -1) && k < |taken| && !taken[k]
    ensures BlocksOk(keys, taken[k := true], used, locked, tables, k) && k !in keys
  {
    var taken' := taken[k := true];
    assert BlockOk(keys, taken, used, locked, tables, -1, k);
    forall j: nat {:trigger BlockOk(keys, taken', used, locked, tables, k, j)} | j < |taken|
      ensures BlockOk(keys, taken', used, locked, tables, k, j)
    {
      assert BlockOk(keys, taken, used, locked, tables, -1, j);
    }
  }

  /** The taken block's key is listed. */
  lemma BlocksAppend(keys: seq<nat>, taken: seq<bool>, used: seq<bv8>, locked: seq<bv8>, tables: nat, k: nat)
    requires BlocksOk(keys, taken, used, locked, tables, k) && k < |taken|
    ensures BlocksOk(keys + [k], taken, used, locked, tables, -1)
    ensures k !in keys && Tables(used[k]) == {} && Tables(locked[k]) == {}
  {
    var r := keys + [k];
    assert BlockOk(keys, taken, used, locked, tables, k, k);
    forall j: nat {:trigger BlockOk(r, taken, used, locked, tables, -1, j)} | j < |taken|
      ensures BlockOk(r, taken, used, locked, tables, -1, j)
    {
      assert BlockOk(keys, taken, used, locked, tables, k, j);
    }
  }

  lemma MoreTables(keys: seq<nat>, taken: seq<bool>, used: seq<bv8>, locked: seq<bv8>, tables: nat)
    requires BlocksOk(keys, taken, used, locked, tables, -1)
    ensures BlocksOk(keys, taken, used, locked, tables + 1, -1)
  {
    forall j: nat {:trigger BlockOk(keys, taken, used, locked, tables + 1, -1, j)} | j < |taken|
      ensures BlockOk(keys, taken, used, locked, tables + 1, -1, j)
    {
      assert BlockOk(keys, taken, used, locked, tables, -1, j);
    }
  }

  /** A slot is in the view iff its block is taken. */
  lemma SlotsAreTaken<A>(keys: seq<nat>, lladdr: seq<A>, taken: seq<bool>, used: seq<bv8>, locked: seq<bv8>,
      tables: nat, k: nat)
    requires BlocksOk(keys, taken, used, locked, tables, -1) && |lladdr| == |used| && InPool(keys, |lladdr|) &&
             k < |taken|
    ensures HasSlot(ViewOf(keys, lladdr, used, locked), k) <==> taken[k]
  {
    assert BlockOk(keys, taken, used, locked, tables, -1, k);
    var v := ViewOf(keys, lladdr, used, locked);
    if k in keys {
      var i :| 0 <= i < |keys| && keys[i] == k;
      assert v[i].slot == k;
    }
    if HasSlot(v, k) {
      var i :| 0 <= i < |v| && v[i].slot == k;
      assert keys[i] == k;
    }
  }

  /** The first block that is not taken is the lowest free slot. */
  lemma FirstFree<A>(keys: seq<nat>, lladdr: seq<A>, taken: seq<bool>, used: seq<bv8>, locked: seq<bv8>, tables: nat,
      k: nat)
    requires BlocksOk(keys, taken, used, locked, tables, -1) && |lladdr| == |used| && InPool(keys, |lladdr|)
    requires k <= |taken| && (k < |taken| ==> !taken[k])
    requires forall i: nat {:trigger taken[i]} :: i < k ==> taken[i]
    ensures LowestFree(ViewOf(keys, lladdr, used, locked), |taken|, 0) == k
  {
    var v := ViewOf(keys, lladdr, used, locked);
    forall j: nat {:trigger HasSlot(v, j)} | j < k ensures HasSlot(v, j) {
      SlotsAreTaken(keys, lladdr, taken, used, locked, tables, j);
    }
    if k < |taken| {
      SlotsAreTaken(keys, lladdr, taken, used, locked, tables, k);
      LowestFreeIs(v, |taken|, 0, k);
    } else {
      NoneFree(v, |taken|, 0);
    }
  }
}
