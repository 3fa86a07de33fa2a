/**
 os/net/nbr-table.c: neighbour tables over one list of addresses, with the default eviction policy. Items are
 slot numbers, the same in every table; NULL is -1.
 */
module NbrTable {
  import opened NbrBits
  import opened NbrLists
  import opened NbrSpec
  import opened NbrView

  const MAX_NUM_TABLES: nat := 8

  class NbrTable<H(==), A(==,!new), D> {
    const n: nat
    const nullAddr: A
    const zero: D
    const pool: KeyPool
    var usedMap: seq<bv8>
    var lockedMap: seq<bv8>
    /** The address in each key. */
    var lladdr: seq<A>
    /** all_tables, the index field of every table structure, and which tables have a callback. */
    var handles: seq<H>
    var index: map<H, nat>
    var callbacks: seq<bool>
    /** The items of each table. */
    var data: seq<seq<D>>
    /** The callbacks made so far: table and item. */
    var calls: seq<(nat, nat)>

    /** Every key is a block of the pool, with its place in the arrays. */
    ghost predicate Shaped()
      reads this, pool
    {
      |lladdr| == n && |usedMap| == n && |lockedMap| == n && InPool(pool.keys, n)
    }

    /** Everything is as it should be, up to block e that is just changing hands. */
    ghost predicate ValidBut(e: int)
      reads this, pool
    {
      && pool.n == n && pool.Linked() && Shaped()
      && BlocksOk(pool.keys, pool.taken, usedMap, lockedMap, |callbacks|, e)
      && AddrsApart(pool.keys, lladdr)
      && |handles| == |callbacks| == |data| <= MAX_NUM_TABLES
      && (forall t: nat {:trigger data[t]} :: t < |data| ==> |data[t]| == n)
      && (forall t: nat {:trigger handles[t]} :: t < |handles| ==> handles[t] in index && index[handles[t]] == t)
    }

    ghost predicate Valid()
      reads this, pool
    {
      ValidBut(-1)
    }

    /** The neighbours, in list order. */
    ghost function View(): (v: seq<Entry<A>>)
      requires Shaped()
      reads this, pool
    {
      ViewOf(pool.keys, lladdr, usedMap, lockedMap)
    }

    constructor (neighbors: nat, none: A, blank: D)
      ensures Valid() && fresh(pool) && n == neighbors && nullAddr == none && zero == blank
      ensures View() == [] && callbacks == [] && calls == []
    {
      n := neighbors;
      nullAddr := none;
      zero := blank;
      pool := new KeyPool(neighbors);
      usedMap := seq(neighbors, _ => 0);
      lockedMap := seq(neighbors, _ => 0);
      lladdr := seq(neighbors, _ => none);
      handles, index, callbacks, data, calls := [], map[], [], [], [];
      new;
      EmptyMap(0);
      forall k: nat {:trigger BlockOk(pool.keys, pool.taken, usedMap, lockedMap, 0, -1, k)} | k < n
        ensures BlockOk(pool.keys, pool.taken, usedMap, lockedMap, 0, -1, k)
      {
      }
    }

    // ------------------------------------------------------------------ registration

    /** nbr_table_is_registered. */
    predicate IsRegistered(h: H)
      reads this
    {
      h in index && index[h] < |handles| && handles[index[h]] == h
    }

    /** nbr_table_register. */
    method Register(h: H, callback: bool, mem: seq<D>) returns (ok: bool)
      requires Valid() && |mem| == n
      modifies this
      ensures Valid() && View() == old(View()) && calls == old(calls)
      ensures ok <==> h in old(handles) || |old(handles)| < MAX_NUM_TABLES
      ensures handles == if ok && h !in old(handles) then old(handles) + [h] else old(handles)
      ensures ok ==> h in index && index[h] < |handles| && handles[index[h]] == h
      ensures ok && h in old(handles) ==> callbacks == old(callbacks)[index[h] := callback]
      ensures ok && h !in old(handles) ==> callbacks == old(callbacks) + [callback]
      ensures !ok ==> callbacks == old(callbacks) && index == old(index)
    {
      if IsRegistered(h) {
        callbacks := callbacks[index[h] := callback];
        return true;
      }
      assert h !in handles;
      if |handles| < MAX_NUM_TABLES {
        MoreTables(pool.keys, pool.taken, usedMap, lockedMap, |callbacks|);
        index := index[h := |handles|];
        handles, callbacks, data := handles + [h], callbacks + [callback], data + [mem];
        return true;
      }
      return false;
    }

    // ------------------------------------------------------------------ reading

    /** index_from_lladdr; no address stands for the null address. */
    method IndexFromLladdr(a: Option<A>) returns (k: int)
      requires Valid()
      ensures k == SlotAt(View(), Find(View(), if a.Some? then a.value else nullAddr))
      ensures k >= 0 ==> k < n && k in pool.keys
    {
      var addr := if a.Some? then a.value else nullAddr;
      var key := pool.head;
      ghost var p := 0;
      while key != -1
        invariant p <= |pool.keys| && key == At(pool.keys, p)
        invariant forall q: nat {:trigger View()[q]} :: q < p ==> View()[q].addr != addr
        decreases |pool.keys| - p
      {
        assert LinkAt(pool.next, pool.keys, p);
        if addr == lladdr[key] {
          FindIs(View(), addr, p);
          return key;
        }
        key := pool.next[key];
        p := p + 1;
      }
      k := -1;
    }

    /** nbr_get_bit on the used map. */
    method UsedBit(t: nat, item: int) returns (r: bool)
      requires Valid() && t < |callbacks| && -1 <= item < n
      ensures r <==> item != -1 && t in Tables(usedMap[item])
    {
      if item != -1 {
        r := ReadBit(usedMap[item], t);
      } else {
        r := false;
      }
    }

    /** nbr_table_get_from_lladdr. */
    method GetFromLladdr(t: nat, a: Option<A>) returns (item: int)
      requires Valid() && t < |callbacks|
      ensures var v, p := View(), Find(View(), if a.Some? then a.value else nullAddr);
              item == if p != -1 && t in v[p].users then v[p].slot else -1
    {
      item := IndexFromLladdr(a);
      var used := UsedBit(t, item);
      if !used {
        item := -1;
      }
    }

    /** used_count. */
    method UsedCount(a: A) returns (count: nat)
      requires Valid()
      ensures var p := Find(View(), a); count == if p == -1 then 0 else |View()[p].users|
    {
      var k := IndexFromLladdr(Some(a));
      count := 0;
      if k != -1 {
        count := CountTables(usedMap[k]);
      }
    }

    /** nbr_table_gc_get_worst. */
    method GetWorst(a: A, b: A) returns (worst: A)
      requires Valid()
      ensures var v, p, q := View(), Find(View(), a), Find(View(), b);
              worst == if (if q == -1 then 0 else |v[q].users|) < (if p == -1 then 0 else |v[p].users|) then b else a
    {
      var count2 := UsedCount(b);
      var count1 := UsedCount(a);
      worst := if count2 < count1 then b else a;
    }

    lemma FindListed(p: nat)
      requires Valid() && p < |View()|
      ensures Find(View(), View()[p].addr) == p
    {
      ViewApart(pool.keys, lladdr, usedMap, lockedMap);
      SameAddr(View(), p, View()[p].addr);
      FindIs(View(), View()[p].addr, p);
    }

    /** select_for_removal: the address of the victim. */
    method SelectForRemoval() returns (worst: Option<A>)
      requires Valid()
      ensures var v := View(); var w := Victim(v, |v|); worst == if w == -1 then None else Some(v[w].addr)
    {
      worst := None;
      var k := pool.head;
      ghost var p := 0;
      while k != -1
        invariant p <= |pool.keys| && k == At(pool.keys, p)
        invariant var v := View(); var w := Victim(v, p); worst == if w == -1 then None else Some(v[w].addr)
        decreases |pool.keys| - p
      {
        assert LinkAt(pool.next, pool.keys, p);
        worst := Consider(worst, k, p);
        k := pool.next[k];
        p := p + 1;
      }
    }

    /** The body of that loop. */
    method Consider(worst: Option<A>, k: nat, ghost p: nat) returns (worst': Option<A>)
      requires Valid() && p < |pool.keys| && k == pool.keys[p]
      requires var v := View(); var w := Victim(v, p); worst == if w == -1 then None else Some(v[w].addr)
      ensures var v := View(); var w := Victim(v, p + 1); worst' == if w == -1 then None else Some(v[w].addr)
    {
      ghost var v := View();
      assert v[p] == Entry(k, lladdr[k], Tables(usedMap[k]), Tables(lockedMap[k]));
      EmptyMap(lockedMap[k]);
      worst' := worst;
      if lockedMap[k] == 0 {
        if worst == None {
          worst' := Some(lladdr[k]);
        } else {
          FindListed(p);
          FindListed(Victim(v, p));
          var a := GetWorst(worst.value, lladdr[k]);
          worst' := Some(a);
        }
      }
    }

    /** entry_is_allowed with the policy of nbr_table_can_accept_new. */
    method EntryIsAllowed(t: nat, a: A) returns (ok: bool, toBeRemoved: Option<A>)
      requires Valid() && t < |callbacks|
      ensures var r := AddEntry(View(), n, t, a);
              ok == (r.position != -1) && toBeRemoved == if r.victim == -1 then None else Some(View()[r.victim].addr)
    {
      toBeRemoved := None;
      var item := GetFromLladdr(t, Some(a));
      if item != -1 {
        ok := true;
      } else {
        var k := IndexFromLladdr(Some(a));
        var free := pool.NumFree();
        FreeSlots();
        if k != -1 || free > 0 {
          ok := true;
        } else {
          toBeRemoved := SelectForRemoval();
          ok := toBeRemoved != None;
        }
      }
    }

    lemma FreeSlots()
      requires Valid()
      ensures LowestFree(View(), n, 0) < n <==> exists i: nat :: i < n && !pool.taken[i]
    {
      if exists i: nat :: i < n && !pool.taken[i] {
        var i: nat :| i < n && !pool.taken[i];
        SlotsAreTaken(pool.keys, lladdr, pool.taken, usedMap, lockedMap, |callbacks|, i);
        if LowestFree(View(), n, 0) == n {
          LowestPast(View(), n, 0, i);
        }
      } else {
        FirstFree(pool.keys, lladdr, pool.taken, usedMap, lockedMap, |callbacks|, n);
      }
    }

    // ------------------------------------------------------------------ writing

    /** The callback of one table, if it has one and uses the item. */
    method Notify(i: nat, k: nat)
      requires Valid() && k < n
      modifies this`calls
      ensures Valid()
      ensures calls == old(calls) + CallOf(callbacks, Tables(usedMap[k]), k, i)
    {
      if i < |callbacks| && callbacks[i] {
        var used := UsedBit(i, k);
        if used {
          calls := calls + [(i, k)];
        }
      }
    }

    /** The callbacks of remove_key. */
    method CallBack(k: nat)
      requires Valid() && k < n
      modifies this`calls
      ensures Valid() && calls == old(calls) + CallsFor(callbacks, Tables(usedMap[k]), k, |callbacks|)
    {
      ghost var users := Tables(usedMap[k]);
      var i := 0;
      while i < MAX_NUM_TABLES
        invariant i <= MAX_NUM_TABLES && Valid()
        invariant calls == old(calls) + CallsFor(callbacks, users, k, i)
      {
        Notify(i, k);
        i := i + 1;
      }
      NoMoreCalls(callbacks, users, k, i);
    }

    /** remove_key for the key at position p. */
    method RemoveKey(k: nat, doFree: bool, ghost p: nat)
      requires Valid() && p < |pool.keys| && k == pool.keys[p]
      modifies this`calls, this`usedMap, this`lockedMap, pool
      ensures ValidBut(if doFree then -1 else k) && k < n
      ensures View() == Drop(old(View()), p)
      ensures calls == old(calls) + CallsFor(callbacks, old(View())[p].users, k, |callbacks|)
    {
      CallBack(k);
      BlocksCut(pool.keys, pool.taken, usedMap, lockedMap, |callbacks|, p);
      ViewCut(pool.keys, lladdr, usedMap, lockedMap, p);
      CutApart(pool.keys, lladdr, p);
      usedMap := usedMap[k := 0];
      lockedMap := lockedMap[k := 0];
      Unlist(k, doFree, p);
    }

    /** The end of remove_key: the key leaves the list and its block, if wanted, goes back to the pool. */
    method Unlist(k: nat, doFree: bool, ghost p: nat)
      requires pool.Linked() && pool.n == n && k < n && p < |pool.keys| && k == pool.keys[p]
      modifies pool
      ensures pool.Linked() && pool.keys == Cut(old(pool.keys), p)
      ensures pool.taken == if doFree then old(pool.taken)[k := false] else old(pool.taken)
    {
      pool.Remove(k);
      if doFree {
        var r := pool.Free(k);
      }
    }

    /** nbr_table_allocate: a block for a new key, from the pool or from the neighbour to be removed. */
    method Allocate(toBeRemoved: Option<A>) returns (k: int)
      requires Valid()
      modifies this`calls, this`usedMap, this`lockedMap, pool
      ensures ValidBut(k) && -1 <= k < n
      ensures var v, s := old(View()), LowestFree(old(View()), n, 0);
              var w := if toBeRemoved.None? then -1 else Find(v, toBeRemoved.value);
              && (s < n ==> k == s && View() == v && calls == old(calls))
              && (s == n && w == -1 ==> k == -1 && View() == v && calls == old(calls))
              && (s == n && w != -1 ==>
                k == v[w].slot && View() == Drop(v, w) && calls == old(calls) + Evicted(callbacks, v, w))
    {
      k := pool.Alloc();
      if k != -1 {
        FirstFree(pool.keys, lladdr, old(pool.taken), usedMap, lockedMap, |callbacks|, k);
        BlocksTake(pool.keys, old(pool.taken), usedMap, lockedMap, |callbacks|, k);
      } else {
        FirstFree(pool.keys, lladdr, pool.taken, usedMap, lockedMap, |callbacks|, n);
        if toBeRemoved != None {
          k := IndexFromLladdr(toBeRemoved);
          if k != -1 {
            RemoveKey(k, false, Find(View(), toBeRemoved.value));
          }
        }
      }
    }

    /** list_add and linkaddr_copy for the new key. */
    method ListKey(k: nat, a: A)
      requires ValidBut(k) && k < n && Find(View(), a) == -1
      modifies this`lladdr, pool
      ensures Valid() && View() == old(View()) + [Entry(k, a, {}, {})]
    {
      BlocksAppend(pool.keys, pool.taken, usedMap, lockedMap, |callbacks|, k);
      ViewAppend(pool.keys, lladdr, usedMap, lockedMap, k, a);
      AppendApart(pool.keys, lladdr, usedMap, lockedMap, k, a);
      pool.Add(k);
      lladdr := lladdr[k := a];
    }

    /** nbr_set_bit on the used map of a listed key. */
    method SetUsed(t: nat, k: nat, value: bool, ghost p: nat)
      requires Valid() && t < |callbacks| && p < |pool.keys| && k == pool.keys[p]
      modifies this`usedMap
      ensures Valid()
      ensures var e := old(View())[p];
              View() == old(View())[p := e.(users := if value then e.users + {t} else e.users - {t})]
    {
      var b := WriteBit(usedMap[k], t, value);
      BlocksWrite(pool.keys, pool.taken, usedMap, lockedMap, |callbacks|, k, t, value, b);
      ViewUse(pool.keys, lladdr, usedMap, lockedMap, p, b);
      usedMap := usedMap[k := b];
    }

    /** A key for a new neighbour. */
    method MakeKey(a: A, toBeRemoved: Option<A>, ghost base: seq<Entry<A>>, ghost w: int) returns (k: int)
      requires Valid() && Find(View(), a) == -1 && -1 <= w < |View()|
      requires toBeRemoved == if w == -1 then None else Some(View()[w].addr)
      requires w == -1 <==> LowestFree(View(), n, 0) < n
      requires base == if w == -1 then View() else Drop(View(), w)
      modifies this`calls, this`usedMap, this`lockedMap, this`lladdr, pool
      ensures Valid()
      ensures var v := old(View());
              && k == (if w == -1 then LowestFree(v, n, 0) else v[w].slot)
              && View() == base + [Entry(k, a, {}, {})]
              && calls == old(calls) + Evicted(callbacks, v, w)
    {
      if w != -1 {
        FindListed(w);
      }
      DropLacks(View(), a);
      k := Allocate(toBeRemoved);
      ListKey(k, a);
    }

    /** The part of nbr_table_add_lladdr that finds or makes the key. */
    method ObtainKey(a: A, toBeRemoved: Option<A>, ghost t: nat) returns (k: int)
      requires Valid()
      requires var r := AddEntry(View(), n, t, a);
               r.position != -1 && toBeRemoved == if r.victim == -1 then None else Some(View()[r.victim].addr)
      modifies this`calls, this`usedMap, this`lockedMap, this`lladdr, pool
      ensures Valid()
      ensures var r := AddEntry(old(View()), n, t, a);
              && r.position < |pool.keys| && k == pool.keys[r.position] && Using(View(), r.position, t) == r.entries
              && calls == old(calls) + Evicted(callbacks, old(View()), r.victim)
    {
      ghost var v := View();
      ghost var r := AddEntry(v, n, t, a);
      k := IndexFromLladdr(Some(a));
      if k == -1 {
        ghost var base := if r.victim == -1 then v else Drop(v, r.victim);
        k := MakeKey(a, toBeRemoved, base, r.victim);
        UsingLast(base, k, a, t);
        assert View()[r.position].slot == k;
      } else {
        assert View()[r.position].slot == k;
      }
    }

    /** nbr_table_add_lladdr. */
    method AddLladdr(t: int, lladdr: Option<A>) returns (item: int)
      requires Valid() && -1 <= t < |callbacks|
      modifies this`calls, this`usedMap, this`lockedMap, this`lladdr, this`data, pool
      ensures Valid()
      ensures t == -1 ==> item == -1 && View() == old(View()) && calls == old(calls) && data == old(data)
      ensures t >= 0 ==>
        var v := old(View());
        var r := AddEntry(v, n, t, if lladdr.Some? then lladdr.value else nullAddr);
        && View() == r.entries && item == SlotAt(r.entries, r.position)
        && calls == old(calls) + Evicted(callbacks, v, r.victim)
        && data == if item == -1 then old(data) else old(data)[t := old(data)[t][item := zero]]
    {
      if t == -1 {
        return -1;
      }
      var a := if lladdr.Some? then lladdr.value else nullAddr;
      var ok, toBeRemoved := EntryIsAllowed(t, a);
      if !ok {
        return -1;
      }
      item := AddAllowed(t, a, toBeRemoved);
    }

    /** The part of nbr_table_add_lladdr after the entry is allowed. */
    method AddAllowed(t: nat, a: A, toBeRemoved: Option<A>) returns (item: nat)
      requires Valid() && t < |callbacks|
      requires var r := AddEntry(View(), n, t, a);
               r.position != -1 && toBeRemoved == if r.victim == -1 then None else Some(View()[r.victim].addr)
      modifies this`calls, this`usedMap, this`lockedMap, this`lladdr, this`data, pool
      ensures Valid()
      ensures var r := AddEntry(old(View()), n, t, a);
              && View() == r.entries && item == r.entries[r.position].slot && item < n
              && calls == old(calls) + Evicted(callbacks, old(View()), r.victim)
              && data == old(data)[t := old(data)[t][item := zero]]
    {
      ghost var r := AddEntry(View(), n, t, a);
      item := ObtainKey(a, toBeRemoved, t);
      data := data[t := data[t][item := zero]];
      SetUsed(t, item, true, r.position);
    }

    // ------------------------------------------------------- items one by one

    /** Writing one bit of the used or the locked map, for any item. */
    method WriteUsed(t: nat, item: int) returns (ret: int)
      requires Valid() && t < |callbacks| && -1 <= item < n
      modifies this`usedMap
      ensures Valid() && ret == if item == -1 then 0 else 1
      ensures forall p: nat {:trigger old(View())[p]} :: p < |pool.keys| && item == pool.keys[p] ==>
                View() == old(View())[p := old(View())[p].(users := old(View())[p].users - {t})]
      ensures item == -1 || item !in pool.keys ==> View() == old(View())
    {
      if item == -1 {
        return 0;
      }
      ghost var v := View();
      var b := WriteBit(usedMap[item], t, false);
      BlocksWrite(pool.keys, pool.taken, usedMap, lockedMap, |callbacks|, item, t, false, b);
      forall p: nat {:trigger v[p]} | p < |pool.keys| && item == pool.keys[p]
        ensures ViewOf(pool.keys, lladdr, usedMap[item := b], lockedMap) == v[p := v[p].(users := v[p].users - {t})]
      {
        ViewUse(pool.keys, lladdr, usedMap, lockedMap, p, b);
      }
      if item !in pool.keys {
        ViewUnlisted(pool.keys, lladdr, usedMap, lockedMap, item, b);
      }
      usedMap := usedMap[item := b];
      ret := 1;
    }

    method WriteLocked(t: nat, item: int, value: bool) returns (ret: int)
      requires Valid() && t < |callbacks| && -1 <= item < n
      modifies this`lockedMap
      ensures Shaped() && ret == if item == -1 then 0 else 1
      ensures Valid() <==> !value || item == -1 || item in pool.keys
      ensures forall p: nat {:trigger old(View())[p]} :: p < |pool.keys| && item == pool.keys[p] ==>
                View() == old(View())[p := old(View())[p].(locks :=
                  if value then old(View())[p].locks + {t} else old(View())[p].locks - {t})]
      ensures item == -1 || item !in pool.keys ==> View() == old(View())
    {
      if item == -1 {
        return 0;
      }
      ghost var v := View();
      var b := WriteBit(lockedMap[item], t, value);
      ret := 1;
      if item in pool.keys {
        LockListed(t, item, value, b, v);
      } else {
        ViewUnlisted(pool.keys, lladdr, usedMap, lockedMap, item, b);
        if value {
          StrayBit(pool.keys, pool.taken, usedMap, lockedMap[item := b], |callbacks|, item, t);
        } else {
          BlocksWrite(pool.keys, pool.taken, usedMap, lockedMap, |callbacks|, item, t, value, b);
        }
      }
      lockedMap := lockedMap[item := b];
    }

    lemma LockListed(t: nat, item: nat, value: bool, b: bv8, v: seq<Entry<A>>)
      requires Valid() && t < |callbacks| && item < n && item in pool.keys && v == View()
      requires Tables(b) == if value then Tables(lockedMap[item]) + {t} else Tables(lockedMap[item]) - {t}
      ensures BlocksOk(pool.keys, pool.taken, usedMap, lockedMap[item := b], |callbacks|, -1)
      ensures var w := ViewOf(pool.keys, lladdr, usedMap, lockedMap[item := b]);
              forall p: nat {:trigger v[p]} :: p < |v| && item == pool.keys[p] ==>
                w == v[p := v[p].(locks := if value then v[p].locks + {t} else v[p].locks - {t})]
    {
      BlocksWrite(pool.keys, pool.taken, usedMap, lockedMap, |callbacks|, item, t, value, b);
      forall p: nat {:trigger v[p]} | p < |v| && item == pool.keys[p]
        ensures ViewOf(pool.keys, lladdr, usedMap, lockedMap[item := b])
             == v[p := v[p].(locks := if value then v[p].locks + {t} else v[p].locks - {t})]
      {
        ViewUse(pool.keys, lladdr, usedMap, lockedMap, p, b);
      }
    }

    /** What the position-wise contracts say of a mark. */
    lemma MarkedView(item: int, m: Mark, t: nat)
      requires Valid() && -1 <= item < n
      ensures forall p: nat {:trigger View()[p]} :: p < |pool.keys| && item == pool.keys[p] ==>
                MarkItem(View(), item, m, t) == View()[p := Marked(View()[p], m, t)]
      ensures item == -1 || item !in pool.keys ==> MarkItem(View(), item, m, t) == View()
    {
      var v := View();
      ViewApart(pool.keys, lladdr, usedMap, lockedMap);
      forall p: nat {:trigger v[p]} | p < |pool.keys| && item == pool.keys[p]
        ensures MarkItem(v, item, m, t) == v[p := Marked(v[p], m, t)]
      {
        MarkAt(v, p, m, t);
      }
      if item == -1 || item !in pool.keys {
        MarkNone(v, item, m, t);
      }
    }

    /** nbr_table_remove. */
    method RemoveItem(t: nat, item: int) returns (ret: int)
      requires Valid() && t < |callbacks| && -1 <= item < n
      modifies this`usedMap, this`lockedMap
      ensures Valid() && ret == (if item == -1 then 0 else 1) && View() == MarkItem(old(View()), item, Remove, t)
    {
      ghost var v := View();
      MarkedView(item, Remove, t);
      FindKey(item);
      ret := WriteUsed(t, item);
      ghost var u := View();
      var r := WriteLocked(t, item, false);
      if item in pool.keys {
        ghost var p: nat :| p < |v| && pool.keys[p] == item && v[p].slot == item;
        assert u == v[p := v[p].(users := v[p].users - {t})];
        assert View() == u[p := u[p].(locks := u[p].locks - {t})];
      }
    }

    /** An item is a listed key's, or no key's. */
    lemma FindKey(item: int)
      requires Valid()
      ensures item !in pool.keys || exists p: nat :: p < |View()| && pool.keys[p] == item && View()[p].slot == item
    {
      if item in pool.keys {
        var p :| 0 <= p < |pool.keys| && pool.keys[p] == item;
        assert View()[p].slot == item;
      }
    }

    /** nbr_table_lock. The item's key need not be listed any more for the source; the table is as it should be
        afterwards iff it is, although a bit that no listed key has does not show yet. */
    method LockItem(t: nat, item: int) returns (ret: int)
      requires Valid() && t < |callbacks| && -1 <= item < n
      modifies this`lockedMap
      ensures Shaped() && ret == (if item == -1 then 0 else 1) && View() == MarkItem(old(View()), item, Lock, t)
      ensures Valid() <==> item == -1 || HasSlot(old(View()), item)
    {
      MarkedView(item, Lock, t);
      SlotListed(item);
      FindKey(item);
      ret := WriteLocked(t, item, true);
    }

    /** nbr_table_unlock. */
    method UnlockItem(t: nat, item: int) returns (ret: int)
      requires Valid() && t < |callbacks| && -1 <= item < n
      modifies this`lockedMap
      ensures Valid() && ret == (if item == -1 then 0 else 1) && View() == MarkItem(old(View()), item, Unlock, t)
    {
      MarkedView(item, Unlock, t);
      FindKey(item);
      ret := WriteLocked(t, item, false);
    }

    lemma SlotListed(item: int)
      requires Valid()
      ensures item >= 0 ==> (HasSlot(View(), item) <==> item in pool.keys)
    {
      if item >= 0 && HasSlot(View(), item) {
        var i :| 0 <= i < |View()| && View()[i].slot == item;
        assert pool.keys[i] == item;
      }
      if item in pool.keys {
        var i :| 0 <= i < |pool.keys| && pool.keys[i] == item;
        assert View()[i].slot == item;
      }
    }

    /** nbr_table_get_lladdr. */
    method GetLladdr(item: int) returns (a: Option<A>)
      requires Valid() && -1 <= item < n
      ensures item == -1 ==> a == None
      ensures forall p: nat {:trigger View()[p]} :: p < |View()| && View()[p].slot == item ==> a == Some(View()[p].addr)
    {
      a := if item != -1 then Some(lladdr[item]) else None;
    }

    /** nbr_table_count_entries. */
    method CountEntries() returns (count: nat)
      requires Valid()
      ensures count == |UsedSlots(View())|
    {
      var i := 0;
      count := 0;
      ghost var slots := {};
      while i < n
        invariant i <= n && count == |slots|
        invariant forall k {:trigger k in slots} :: k in slots <==> 0 <= k < i && Tables(usedMap[k]) != {}
      {
        EmptyMap(usedMap[i]);
        if usedMap[i] > 0 {
          slots := slots + {i};
          count := count + 1;
        }
        i := i + 1;
      }
      UsedAre(slots);
    }

    lemma UsedAre(slots: set<int>)
      requires Valid()
      requires forall k {:trigger k in slots} :: k in slots <==> 0 <= k < n && Tables(usedMap[k]) != {}
      ensures |slots| == |UsedSlots(View())|
    {
      var v := View();
      var u: set<int> := set s | s in UsedSlots(v);
      forall k ensures k in slots <==> k in u {
        if k in slots {
          assert BlockOk(pool.keys, pool.taken, usedMap, lockedMap, |callbacks|, -1, k);
          FindKey(k);
          var p: nat :| p < |v| && pool.keys[p] == k && v[p].slot == k;
          assert v[p].users != {};
        }
        if k in u {
          var p: nat :| p < |v| && v[p].users != {} && v[p].slot == k;
          assert pool.keys[p] == k;
        }
      }
      assert slots == u;
      SameSize(UsedSlots(v), u);
    }

    /** One pass of nbr_table_clear's loop. */
    method ClearOne(k: nat)
      requires Valid() && k == pool.head
      modifies this`calls, this`usedMap, this`lockedMap, pool
      ensures Valid() && |old(View())| > 0 && View() == old(View())[1..]
      ensures var e := old(View())[0]; calls == old(calls) + CallsFor(callbacks, e.users, e.slot, |callbacks|)
    {
      ghost var v := View();
      assert LinkAt(pool.next, pool.keys, 0);
      RemoveKey(k, true, 0);
      assert Drop(v, 0) == v[1..];
    }

    /** nbr_table_clear. */
    method Clear()
      requires Valid()
      modifies this`calls, this`usedMap, this`lockedMap, pool
      ensures Valid() && View() == [] && calls == old(calls) + ClearCalls(callbacks, old(View()))
    {
      ghost var all := calls + ClearCalls(callbacks, View());
      var k := pool.head;
      while k != -1
        invariant Valid() && k == pool.head && calls + ClearCalls(callbacks, View()) == all
        decreases |View()|
      {
        ghost var v, before := View(), calls;
        ClearOne(k);
        Regroup(before, CallsFor(callbacks, v[0].users, v[0].slot, |callbacks|), ClearCalls(callbacks, v[1..]));
        k := pool.head;
      }
    }

    // ------------------------------------------------------------ enumeration

    /** nbr_table_next, from the item of the p-th key. */
    method Next(t: nat, item: int, ghost p: nat) returns (item': int)
      requires Valid() && t < |callbacks| && (item == -1 || (p < |pool.keys| && item == pool.keys[p]))
      ensures item' == if item == -1 then -1 else SlotAt(View(), MemberFrom(View(), t, p + 1))
    {
      if item == -1 {
        return -1;
      }
      assert LinkAt(pool.next, pool.keys, p);
      item' := pool.next[item];
      ghost var q := p + 1;
      var member := UsedBit(t, item');
      while item' != -1 && !member
        invariant q <= |pool.keys| && item' == At(pool.keys, q) &&
                  MemberFrom(View(), t, p + 1) == MemberFrom(View(), t, q)
        invariant member <==> item' != -1 && t in Tables(usedMap[item'])
        decreases |pool.keys| - q
      {
        assert View()[q].slot == item';
        assert LinkAt(pool.next, pool.keys, q);
        item' := pool.next[item'];
        q := q + 1;
        member := UsedBit(t, item');
      }
      if member {
        assert View()[q].slot == item';
      }
    }

    /** nbr_table_head. */
    method Head(t: nat) returns (item: int)
      requires Valid() && t < |callbacks|
      ensures item == SlotAt(View(), MemberFrom(View(), t, 0))
    {
      item := pool.head;
      if |pool.keys| > 0 {
        assert LinkAt(pool.next, pool.keys, 0) && View()[0].slot == item;
      }
      var member := UsedBit(t, item);
      if !member {
        item := Next(t, item, 0);
      }
    }

    /** The loop over a table by head and next that removes some of its members, each while it is the current one:
        every member is visited once, in order, and exactly the doomed ones leave the table. */
    method Walk(t: nat, doomed: set<nat>) returns (visited: seq<nat>)
      requires Valid() && t < |callbacks|
      modifies this`usedMap, this`lockedMap
      ensures Valid() && visited == MembersFrom(old(View()), t, 0)
      ensures View() == Weeded(old(View()), t, doomed, |old(View())|)
    {
      ghost var v := View();
      ViewApart(pool.keys, lladdr, usedMap, lockedMap);
      ghost var all := MembersFrom(v, t, 0);
      visited := [];
      var item := Head(t);
      ghost var p := 0;
      assert Weeded(v, t, doomed, 0) == v;
      while item != -1
        invariant AtWalk(t, doomed, v, p, item)
        invariant visited + MembersFrom(v, t, p) == all
        decreases |v| - p
      {
        ghost var p0 := p;
        visited := visited + [item];
        item, p := Pass(t, item, doomed, v, p);
        Regroup(visited[..|visited| - 1], [visited[|visited| - 1]], MembersFrom(v, t, p));
      }
      MembersNext(v, t, p);
      WeedRest(v, t, doomed, p);
    }

    /** Where the walk is: the first p neighbours are behind it. */
    ghost predicate AtWalk(t: nat, doomed: set<nat>, v: seq<Entry<A>>, p: nat, item: int)
      reads this, pool
    {
      && Valid() && DistinctSlots(v) && p <= |v| && View() == Weeded(v, t, doomed, p)
      && item == SlotAt(v, MemberFrom(v, t, p))
    }

    /** Where the current member stands, and what the pass has to do. */
    lemma WalkHere(t: nat, item: nat, doomed: set<nat>, v: seq<Entry<A>>, p: nat) returns (q: nat)
      requires t < |callbacks| && AtWalk(t, doomed, v, p, item)
      ensures p <= q < |v| == |View()| && View()[q] == v[q] && item == v[q].slot
      ensures Weeded(v, t, doomed, q + 1) == if item in doomed then MarkItem(View(), item, Remove, t) else View()
      ensures MembersFrom(v, t, p) == [item] + MembersFrom(v, t, q + 1)
    {
      q := MemberFrom(v, t, p);
      MembersNext(v, t, p);
      WeedNext(v, t, doomed, p, q);
    }

    /** One pass of that loop. */
    method Pass(t: nat, item: nat, doomed: set<nat>, ghost v: seq<Entry<A>>, ghost p: nat)
        returns (item': int, ghost p': nat)
      requires t < |callbacks| && AtWalk(t, doomed, v, p, item)
      modifies this`usedMap, this`lockedMap
      ensures AtWalk(t, doomed, v, p', item') && p < p'
      ensures MembersFrom(v, t, p) == [item] + MembersFrom(v, t, p')
    {
      ghost var q := WalkHere(t, item, doomed, v, p);
      item' := Step(t, item, doomed, v, q);
      p' := q + 1;
    }

    method Step(t: nat, item: nat, doomed: set<nat>, ghost v: seq<Entry<A>>, ghost q: nat) returns (item': int)
      requires Valid() && t < |callbacks| && q < |v| == |View()| && View()[q] == v[q] && item == v[q].slot
      requires Weeded(v, t, doomed, q + 1) == if item in doomed then MarkItem(View(), item, Remove, t) else View()
      modifies this`usedMap, this`lockedMap
      ensures Valid() && View() == Weeded(v, t, doomed, q + 1) && item' == SlotAt(v, MemberFrom(v, t, q + 1))
    {
      if item in doomed {
        Weed(t, item, q);
      }
      item' := Next(t, item, q);
      MemberUnweeded(v, t, doomed, q + 1, q + 1);
      SlotsUnweeded(v, t, doomed, q + 1);
    }

    /** The entry at q is removed from the table by the loop's body. */
    method Weed(t: nat, item: nat, ghost q: nat)
      requires Valid() && t < |callbacks| && q < |View()| && item == View()[q].slot
      modifies this`usedMap, this`lockedMap
      ensures Valid() && View() == MarkItem(old(View()), item, Remove, t) && |View()| == |old(View())|
    {
      assert pool.keys[q] == item;
      var r := RemoveItem(t, item);
    }
  }

  lemma Regroup<T>(a: seq<T>, b: seq<T>, c: seq<T>)
    ensures (a + b) + c == a + (b + c)
  {
  }

  lemma SlotsUnweeded<A>(v: seq<Entry<A>>, t: nat, doomed: set<nat>, p: nat)
    ensures forall i: nat {:trigger Weeded(v, t, doomed, p)[i]} :: i < |v| ==>
            Weeded(v, t, doomed, p)[i].slot == v[i].slot
  {
  }

  lemma {:induction false} SameSize(a: set<nat>, b: set<int>)
    requires b == set s | s in a
    ensures |a| == |b|
  {
    if a != {} {
      var x :| x in a;
      assert b - {x} == set s | s in a - {x};
      SameSize(a - {x}, b - {x});
    }
  }

  /** The neighbour at position p gets one more table. */
  ghost function Using<A>(v: seq<Entry<A>>, p: nat, t: nat): seq<Entry<A>>
    requires p < |v|
  {
    v[p := v[p].(users := v[p].users + {t})]
  }

  lemma UsingLast<A>(v: seq<Entry<A>>, k: nat, a: A, t: nat)
    ensures Using(v + [Entry(k, a, {}, {})], |v|, t) == v + [Entry(k, a, {t}, {})]
  {
    assert {} + {t} == {t};
  }

  /** The calls for the evicted neighbour, if any. */
  ghost function Evicted<A>(callbacks: seq<bool>, v: seq<Entry<A>>, w: int): seq<(nat, nat)>
    requires -1 <= w < |v|
  {
    if w == -1 then [] else CallsFor(callbacks, v[w].users, v[w].slot, |callbacks|)
  }

  lemma CutApart<A>(keys: seq<nat>, lladdr: seq<A>, p: nat)
    requires InPool(keys, |lladdr|) && AddrsApart(keys, lladdr) && p < |keys|
    ensures InPool(Cut(keys, p), |lladdr|) && AddrsApart(Cut(keys, p), lladdr)
  {
    var r := Cut(keys, p);
    forall i: nat, j: nat {:trigger AddrApart(r, lladdr, i, j)} | i < j < |r| ensures AddrApart(r, lladdr, i, j) {
      assert AddrApart(keys, lladdr, if i < p then i else i + 1, if j < p then j else j + 1);
    }
  }

  lemma AppendApart<A>(keys: seq<nat>, lladdr: seq<A>, used: seq<bv8>, locked: seq<bv8>, k: nat, a: A)
    requires |used| == |lladdr| == |locked| && InPool(keys, |lladdr|) && AddrsApart(keys, lladdr) && k < |lladdr| &&
             k !in keys
    requires Find(ViewOf(keys, lladdr, used, locked), a) == -1
    ensures InPool(keys + [k], |lladdr|) && AddrsApart(keys + [k], lladdr[k := a])
  {
    var v := ViewOf(keys, lladdr, used, locked);
    var r, lladdr' := keys + [k], lladdr[k := a];
    forall i: nat, j: nat {:trigger AddrApart(r, lladdr', i, j)} | i < j < |r| ensures AddrApart(r, lladdr', i, j) {
      assert v[i].addr != a;
      if j < |keys| { assert AddrApart(keys, lladdr, i, j); }
    }
  }

  lemma DropLacks<A>(v: seq<Entry<A>>, a: A)
    requires Find(v, a) == -1
    ensures forall w: nat {:trigger Drop(v, w)} :: w < |v| ==> Find(Drop(v, w), a) == -1
  {
    forall w: nat {:trigger Drop(v, w)} | w < |v| ensures Find(Drop(v, w), a) == -1 {
      var r := Drop(v, w);
      forall i: nat {:trigger r[i]} | i < |r| ensures r[i].addr != a {
        assert r[i] == v[if i < w then i else i + 1];
      }
    }
  }
}
