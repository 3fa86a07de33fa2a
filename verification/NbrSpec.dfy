/**
 What os/net/nbr-table.c keeps, without bitmaps, pool and links: the neighbours in list order, each with the set
 of tables that use it and the set of tables that lock it.
 */
module NbrSpec {

  datatype Option<T> = None | Some(value: T)

  /** A neighbour; its slot is where its item is in the data of every table. */
  datatype Entry<A> = Entry(slot: nat, addr: A, users: set<nat>, locks: set<nat>)

  /** The position of an address, or -1. */
  function Find<A(==)>(v: seq<Entry<A>>, a: A): (p: int)
    ensures -1 <= p < |v|
    ensures p >= 0 ==> v[p].addr == a
    ensures forall i: nat {:trigger v[i]} :: i < |v| && (p == -1 || i < p) ==> v[i].addr != a
  {
    if v == [] then -1
    else if v[0].addr == a then 0
    else var q := Find(v[1..], a); if q == -1 then -1 else q + 1
  }

  lemma FindIs<A>(v: seq<Entry<A>>, a: A, p: nat)
    requires p < |v| && v[p].addr == a
    requires forall i: nat {:trigger v[i]} :: i < p ==> v[i].addr != a
    ensures Find(v, a) == p
  {
    var q := Find(v, a);
    assert q != -1 && v[q].addr == a;
  }

  /** The first unlocked neighbour among the first i that is used by the fewest tables, or -1. */
  function Victim<A>(v: seq<Entry<A>>, i: nat): (w: int)
    requires i <= |v|
    ensures -1 <= w < i
  {
    if i == 0 then -1
    else
      var w := Victim(v, i - 1);
      if v[i - 1].locks != {} then w
      else if w == -1 || |v[i - 1].users| < |v[w].users| then i - 1
      else w
  }

  /** It is unlocked, no unlocked neighbour has fewer tables, and those before it have more. */
  ghost predicate FirstLeastUsed<A>(v: seq<Entry<A>>, w: nat)
  {
    && w < |v| && v[w].locks == {}
    && forall i: nat {:trigger v[i]} :: i < |v| && v[i].locks == {} ==>
         |v[w].users| <= |v[i].users| && (i < w ==> |v[w].users| < |v[i].users|)
  }

  lemma {:induction false} VictimSoFar<A>(v: seq<Entry<A>>, i: nat)
    requires i <= |v|
    ensures Victim(v, i) == -1 <==> forall j: nat {:trigger v[j]} :: j < i ==> v[j].locks != {}
    ensures Victim(v, i) >= 0 ==> v[Victim(v, i)].locks == {}
    ensures Victim(v, i) >= 0 ==> forall j: nat {:trigger v[j]} :: j < i && v[j].locks == {} ==>
              |v[Victim(v, i)].users| <= |v[j].users| && (j < Victim(v, i) ==> |v[Victim(v, i)].users| < |v[j].users|)
  {
    if i > 0 {
      VictimSoFar(v, i - 1);
    }
  }

  /** The victim is what the default policy promises, and there is none iff every neighbour is locked. */
  lemma VictimIsFirstLeastUsed<A>(v: seq<Entry<A>>, w: nat)
    ensures Victim(v, |v|) == w <==> FirstLeastUsed(v, w)
    ensures Victim(v, |v|) == -1 <==> forall j: nat {:trigger v[j]} :: j < |v| ==> v[j].locks != {}
  {
    VictimSoFar(v, |v|);
    if FirstLeastUsed(v, w) {
      var u := Victim(v, |v|);
      assert v[w].locks == {};
      assert v[u].locks == {};
    }
  }

  /** The lowest slot that no neighbour has, searched from s on; n if there is none. */
  function LowestFree<A>(v: seq<Entry<A>>, n: nat, s: nat): (k: nat)
    requires s <= n
    ensures s <= k <= n
    decreases n - s
  {
    if s == n || !HasSlot(v, s) then s else LowestFree(v, n, s + 1)
  }

  predicate HasSlot<A>(v: seq<Entry<A>>, s: nat)
  {
    exists i :: 0 <= i < |v| && v[i].slot == s
  }

  lemma {:induction false} LowestFreeIs<A>(v: seq<Entry<A>>, n: nat, s: nat, k: nat)
    requires s <= k < n && !HasSlot(v, k)
    requires forall j: nat {:trigger HasSlot(v, j)} :: s <= j < k ==> HasSlot(v, j)
    ensures LowestFree(v, n, s) == k
    decreases k - s
  {
    if s < k {
      assert HasSlot(v, s);
      LowestFreeIs(v, n, s + 1, k);
    }
  }

  lemma {:induction false} NoneFree<A>(v: seq<Entry<A>>, n: nat, s: nat)
    requires s <= n
    requires forall j: nat {:trigger HasSlot(v, j)} :: s <= j < n ==> HasSlot(v, j)
    ensures LowestFree(v, n, s) == n
    decreases n - s
  {
    if s < n {
      assert HasSlot(v, s);
      NoneFree(v, n, s + 1);
    }
  }

  lemma {:induction false} LowestPast<A>(v: seq<Entry<A>>, n: nat, s: nat, i: nat)
    requires s <= i < n && !HasSlot(v, i)
    ensures LowestFree(v, n, s) <= i
    decreases i - s
  {
    if s < i {
      LowestPast(v, n, s + 1, i);
    }
  }

  /** The call of one table for a neighbour that goes: if it uses the neighbour and has a callback. */
  function CallOf(callbacks: seq<bool>, users: set<nat>, slot: nat, t: nat): seq<(nat, nat)>
  {
    if t < |callbacks| && callbacks[t] && t in users then [(t, slot)] else []
  }

  /** The calls of the tables below t, in order. */
  function CallsFor(callbacks: seq<bool>, users: set<nat>, slot: nat, t: nat): seq<(nat, nat)>
  {
    if t == 0 then [] else CallsFor(callbacks, users, slot, t - 1) + CallOf(callbacks, users, slot, t - 1)
  }

  lemma {:induction false} NoMoreCalls(callbacks: seq<bool>, users: set<nat>, slot: nat, t: nat)
    requires t >= |callbacks|
    ensures CallsFor(callbacks, users, slot, t) == CallsFor(callbacks, users, slot, |callbacks|)
  {
    if t > |callbacks| {
      NoMoreCalls(callbacks, users, slot, t - 1);
    }
  }

  /** Every table that uses the neighbour and has a callback is called, with the neighbour's item. */
  lemma {:induction false} CallsAre(callbacks: seq<bool>, users: set<nat>, slot: nat, t: nat, c: (nat, nat))
    ensures c in CallsFor(callbacks, users, slot, t) <==>
              c.0 < t && c.0 < |callbacks| && callbacks[c.0] && c.0 in users && c.1 == slot
  {
    if t > 0 {
      CallsAre(callbacks, users, slot, t - 1, c);
    }
  }

  /** Each once. */
  lemma {:induction false} CallsOnce(callbacks: seq<bool>, users: set<nat>, slot: nat, t: nat)
    ensures forall i: nat, j: nat
              {:trigger CallsFor(callbacks, users, slot, t)[i], CallsFor(callbacks, users, slot, t)[j]} ::
              i < j < |CallsFor(callbacks, users, slot, t)| ==>
                CallsFor(callbacks, users, slot, t)[i] != CallsFor(callbacks, users, slot, t)[j]
  {
    if t > 0 {
      CallsOnce(callbacks, users, slot, t - 1);
      CallsAre(callbacks, users, slot, t - 1, (t - 1, slot));
    }
  }

  /** v without its p-th neighbour. */
  function Drop<A>(v: seq<Entry<A>>, p: nat): (r: seq<Entry<A>>)
    requires p < |v|
    ensures |r| == |v| - 1
  {
    v[..p] + v[p + 1..]
  }

  /** What add_lladdr does: the position where the neighbour is afterwards, or -1; the neighbour evicted, or -1. */
  datatype Addition<A> = Addition(entries: seq<Entry<A>>, position: int, victim: int)

  function AddEntry<A(==)>(v: seq<Entry<A>>, n: nat, t: nat, a: A): (r: Addition<A>)
  {
    var p := Find(v, a);
    if p != -1 then Addition(v[p := v[p].(users := v[p].users + {t})], p, -1)
    else if LowestFree(v, n, 0) < n then Addition(v + [Entry(LowestFree(v, n, 0), a, {t}, {})], |v|, -1)
    else
      var w := Victim(v, |v|);
      if w == -1 then Addition(v, -1, -1)
      else Addition(Drop(v, w) + [Entry(v[w].slot, a, {t}, {})], |v| - 1, w)
  }

  /** An address is used by a table. */
  ghost predicate Uses<A(!new)>(v: seq<Entry<A>>, a: A, t: nat)
  {
    exists i: nat :: i < |v| && v[i].addr == a && t in v[i].users
  }

  ghost predicate Locks<A(!new)>(v: seq<Entry<A>>, a: A, t: nat)
  {
    exists i: nat :: i < |v| && v[i].addr == a && t in v[i].locks
  }

  ghost predicate DistinctAddrs<A>(v: seq<Entry<A>>)
  {
    forall i: nat, j: nat {:trigger v[i], v[j]} :: i < j < |v| ==> v[i].addr != v[j].addr
  }

  /** Adding is adding one pair to the relation, and taking away all pairs of the evicted neighbour. */
  lemma AddEntryOnRelation<A(!new)>(v: seq<Entry<A>>, n: nat, t: nat, a: A, b: A, s: nat)
    requires DistinctAddrs(v)
    ensures var r := AddEntry(v, n, t, a);
            && (r.position == -1 ==> r.entries == v)
            && (r.position != -1 ==> (Uses(r.entries, b, s) <==>
                 (b == a && s == t) || (Uses(v, b, s) && (r.victim == -1 || v[r.victim].addr != b))))
            && (r.position != -1 ==> (Locks(r.entries, b, s) <==> Locks(v, b, s)))
  {
    var r := AddEntry(v, n, t, a);
    var e := r.entries;
    var p := Find(v, a);
    if r.position == -1 {
    } else if p != -1 {
      UseOnRelation(v, e, p, t, a, b, s);
    } else if r.victim == -1 {
      RelationOfAppend(v, e[|v|], b, s);
    } else {
      VictimIsFirstLeastUsed(v, r.victim);
      RelationOfDrop(v, r.victim, b, s);
      RelationOfAppend(Drop(v, r.victim), e[|v| - 1], b, s);
    }
  }

  /** A listed neighbour gets one more user. */
  lemma UseOnRelation<A(!new)>(v: seq<Entry<A>>, e: seq<Entry<A>>, p: nat, t: nat, a: A, b: A, s: nat)
    requires DistinctAddrs(v) && p < |v| && v[p].addr == a && e == v[p := v[p].(users := v[p].users + {t})]
    ensures Uses(e, b, s) <==> (b == a && s == t) || Uses(v, b, s)
    ensures Locks(e, b, s) <==> Locks(v, b, s)
  {
    SameAddr(v, p, a);
    assert forall i: nat {:trigger e[i]} :: i < |v| ==> e[i].addr == v[i].addr && e[i].locks == v[i].locks;
    assert forall i: nat {:trigger e[i]} :: i < |v| && i != p ==> e[i] == v[i];
    assert e[p].addr == a && e[p].users == v[p].users + {t};
    RelationOfUse(v, e, p, t, b, s);
  }

  lemma SameAddr<A>(v: seq<Entry<A>>, p: nat, a: A)
    requires DistinctAddrs(v) && p < |v| && v[p].addr == a
    ensures forall i: nat {:trigger v[i]} :: i < |v| && v[i].addr == a ==> i == p
  {
  }

  lemma RelationOfUse<A(!new)>(v: seq<Entry<A>>, e: seq<Entry<A>>, p: nat, t: nat, b: A, s: nat)
    requires p < |v| && e == v[p := v[p].(users := v[p].users + {t})]
    ensures Uses(e, b, s) <==> (b == v[p].addr && s == t) || Uses(v, b, s)
    ensures Locks(e, b, s) <==> Locks(v, b, s)
  {
    assert forall i: nat {:trigger v[i]} {:trigger e[i]} :: i < |v| ==>
      e[i].addr == v[i].addr && e[i].locks == v[i].locks &&
        e[i].users == if i == p then v[i].users + {t} else v[i].users;
    if Uses(e, b, s) {
      var i: nat :| i < |e| && e[i].addr == b && s in e[i].users;
      assert v[i].addr == b;
    }
    if Uses(v, b, s) {
      var i: nat :| i < |v| && v[i].addr == b && s in v[i].users;
      assert e[i].addr == b && s in e[i].users;
    }
    if b == v[p].addr && s == t {
      assert e[p].addr == b && s in e[p].users;
    }
    if Locks(e, b, s) {
      var i: nat :| i < |e| && e[i].addr == b && s in e[i].locks;
      assert v[i].addr == b && s in v[i].locks;
    }
    if Locks(v, b, s) {
      var i: nat :| i < |v| && v[i].addr == b && s in v[i].locks;
      assert e[i].addr == b && s in e[i].locks;
    }
  }

  lemma RelationOfAppend<A(!new)>(v: seq<Entry<A>>, x: Entry<A>, b: A, s: nat)
    ensures Uses(v + [x], b, s) <==> Uses(v, b, s) || (b == x.addr && s in x.users)
    ensures Locks(v + [x], b, s) <==> Locks(v, b, s) || (b == x.addr && s in x.locks)
  {
    var e := v + [x];
    assert forall i: nat {:trigger e[i]} {:trigger v[i]} :: i < |v| ==> e[i] == v[i];
    assert e[|v|] == x;
    if Uses(v, b, s) {
      var i: nat :| i < |v| && v[i].addr == b && s in v[i].users;
      assert e[i].addr == b && s in e[i].users;
    }
    if Locks(v, b, s) {
      var i: nat :| i < |v| && v[i].addr == b && s in v[i].locks;
      assert e[i].addr == b && s in e[i].locks;
    }
  }

  lemma RelationOfDrop<A(!new)>(v: seq<Entry<A>>, w: nat, b: A, s: nat)
    requires DistinctAddrs(v) && w < |v| && v[w].locks == {}
    ensures Uses(Drop(v, w), b, s) <==> Uses(v, b, s) && v[w].addr != b
    ensures Locks(Drop(v, w), b, s) <==> Locks(v, b, s)
  {
    var e := Drop(v, w);
    assert forall i: nat {:trigger e[i]} :: i < |e| ==> e[i] == v[if i < w then i else i + 1];
    SameAddr(v, w, v[w].addr);
    if Uses(v, b, s) && v[w].addr != b {
      var i: nat :| i < |v| && v[i].addr == b && s in v[i].users;
      assert e[if i < w then i else i - 1] == v[i];
    }
    if Locks(v, b, s) {
      var i: nat :| i < |v| && v[i].addr == b && s in v[i].locks;
      assert e[if i < w then i else i - 1] == v[i];
    }
    if Uses(e, b, s) {
      var i: nat :| i < |e| && e[i].addr == b && s in e[i].users;
      assert v[if i < w then i else i + 1].addr == b;
    }
    if Locks(e, b, s) {
      var i: nat :| i < |e| && e[i].addr == b && s in e[i].locks;
      assert v[if i < w then i else i + 1].addr == b;
    }
  }

  // ------------------------------------------------------------------ enumeration

  /** The position of the first neighbour from p on that table t uses, or -1. */
  function MemberFrom<A>(v: seq<Entry<A>>, t: nat, p: nat): (q: int)
    ensures q == -1 || p <= q < |v|
    decreases |v| - p
  {
    if p >= |v| then -1 else if t in v[p].users then p else MemberFrom(v, t, p + 1)
  }

  function SlotAt<A>(v: seq<Entry<A>>, p: int): int
    requires p < |v|
  {
    if p < 0 then -1 else v[p].slot
  }

  /** The slots of table t's neighbours from position p on, in list order. */
  function MembersFrom<A>(v: seq<Entry<A>>, t: nat, p: nat): (s: seq<nat>)
    decreases |v| - p
  {
    if p >= |v| then [] else (if t in v[p].users then [v[p].slot] else []) + MembersFrom(v, t, p + 1)
  }

  lemma {:induction false} MembersNext<A>(v: seq<Entry<A>>, t: nat, p: nat)
    ensures var q := MemberFrom(v, t, p);
            MembersFrom(v, t, p) == if q == -1 then [] else [v[q].slot] + MembersFrom(v, t, q + 1)
    decreases |v| - p
  {
    if p < |v| && t !in v[p].users {
      MembersNext(v, t, p + 1);
    }
  }

  /** Every neighbour of the table is enumerated, and nothing else. */
  lemma {:induction false} MembersAre<A>(v: seq<Entry<A>>, t: nat, p: nat, slot: nat)
    ensures slot in MembersFrom(v, t, p) <==> exists i: nat :: p <= i < |v| && v[i].slot == slot && t in v[i].users
    decreases |v| - p
  {
    if p < |v| {
      MembersAre(v, t, p + 1, slot);
      if exists i: nat :: p <= i < |v| && v[i].slot == slot && t in v[i].users {
        var i: nat :| p <= i < |v| && v[i].slot == slot && t in v[i].users;
        assert i == p || p + 1 <= i;
      }
    }
  }

  ghost predicate DistinctSlots<A>(v: seq<Entry<A>>)
  {
    forall i: nat, j: nat {:trigger v[i], v[j]} :: i < j < |v| ==> v[i].slot != v[j].slot
  }

  /** Each at most once. */
  lemma {:induction false} MembersOnce<A>(v: seq<Entry<A>>, t: nat, p: nat)
    requires DistinctSlots(v)
    ensures forall i: nat, j: nat {:trigger MembersFrom(v, t, p)[i], MembersFrom(v, t, p)[j]} ::
              i < j < |MembersFrom(v, t, p)| ==> MembersFrom(v, t, p)[i] != MembersFrom(v, t, p)[j]
    decreases |v| - p
  {
    if p < |v| {
      MembersOnce(v, t, p + 1);
      MembersAre(v, t, p + 1, v[p].slot);
    }
  }

  // ------------------------------------------------------------ single items

  datatype Mark = Remove | Lock | Unlock

  function Marked<A>(e: Entry<A>, m: Mark, t: nat): Entry<A>
  {
    match m
    case Remove => e.(users := e.users - {t}, locks := e.locks - {t})
    case Lock => e.(locks := e.locks + {t})
    case Unlock => e.(locks := e.locks - {t})
  }

  /** nbr_table_remove, lock and unlock: only the neighbour of this item is marked, and only for table t. */
  function MarkItem<A>(v: seq<Entry<A>>, item: int, m: Mark, t: nat): (r: seq<Entry<A>>)
    ensures |r| == |v|
  {
    seq(|v|, i requires 0 <= i < |v| => if v[i].slot == item then Marked(v[i], m, t) else v[i])
  }

  lemma MarkAt<A>(v: seq<Entry<A>>, p: nat, m: Mark, t: nat)
    requires DistinctSlots(v) && p < |v|
    ensures MarkItem(v, v[p].slot, m, t) == v[p := Marked(v[p], m, t)]
  {
    var r := MarkItem(v, v[p].slot, m, t);
    forall i: nat {:trigger r[i]} | i < |v| ensures r[i] == v[p := Marked(v[p], m, t)][i] {
      assert i < p ==> v[i].slot != v[p].slot;
      assert p < i ==> v[p].slot != v[i].slot;
    }
  }

  lemma MarkNone<A>(v: seq<Entry<A>>, item: int, m: Mark, t: nat)
    requires item < 0 || !HasSlot(v, item)
    ensures MarkItem(v, item, m, t) == v
  {
  }

  /** In terms of pairs of address and table: removing takes the pair of this neighbour and table out of both relations,
      locking adds it to the locks, unlocking takes it out of the locks; every other pair stays. */
  lemma MarkOnRelation<A(!new)>(v: seq<Entry<A>>, p: nat, m: Mark, t: nat, b: A, s: nat)
    requires DistinctAddrs(v) && DistinctSlots(v) && p < |v|
    ensures var w, named := MarkItem(v, v[p].slot, m, t), b == v[p].addr && s == t;
            && (Uses(w, b, s) <==> Uses(v, b, s) && !(m == Remove && named))
            && (Locks(w, b, s) <==> if m == Lock then Locks(v, b, s) || named else Locks(v, b, s) && !named)
  {
    var w, e := MarkItem(v, v[p].slot, m, t), Marked(v[p], m, t);
    MarkAt(v, p, m, t);
    EntryOnRelation(v, w, p, e, b, s);
  }

  /** A neighbour's sets are replaced. */
  lemma EntryOnRelation<A(!new)>(v: seq<Entry<A>>, w: seq<Entry<A>>, p: nat, e: Entry<A>, b: A, s: nat)
    requires DistinctAddrs(v) && p < |v| && e.addr == v[p].addr && w == v[p := e]
    ensures Uses(v, b, s) <==> if b == e.addr then s in v[p].users else Uses(w, b, s)
    ensures Uses(w, b, s) <==> if b == e.addr then s in e.users else Uses(v, b, s)
    ensures Locks(v, b, s) <==> if b == e.addr then s in v[p].locks else Locks(w, b, s)
    ensures Locks(w, b, s) <==> if b == e.addr then s in e.locks else Locks(v, b, s)
  {
    assert forall i: nat {:trigger v[i]} {:trigger w[i]} :: i < |v| ==> w[i] == if i == p then e else v[i];
    SameAddr(v, p, e.addr);
    assert w[p].addr == v[p].addr == e.addr;
    if Uses(w, b, s) {
      var i: nat :| i < |w| && w[i].addr == b && s in w[i].users;
      assert v[i].addr == b;
    }
    if Uses(v, b, s) {
      var i: nat :| i < |v| && v[i].addr == b && s in v[i].users;
      assert w[i].addr == b;
    }
    if Locks(w, b, s) {
      var i: nat :| i < |w| && w[i].addr == b && s in w[i].locks;
      assert v[i].addr == b;
    }
    if Locks(v, b, s) {
      var i: nat :| i < |v| && v[i].addr == b && s in v[i].locks;
      assert w[i].addr == b;
    }
  }

  /** The calls of nbr_table_clear. */
  function ClearCalls<A>(callbacks: seq<bool>, v: seq<Entry<A>>): seq<(nat, nat)>
  {
    if v == [] then []
    else CallsFor(callbacks, v[0].users, v[0].slot, |callbacks|) + ClearCalls(callbacks, v[1..])
  }

  /** They are those of all neighbours. */
  lemma {:induction false} ClearCallsAre<A(!new)>(callbacks: seq<bool>, v: seq<Entry<A>>, c: (nat, nat))
    ensures c in ClearCalls(callbacks, v) <==>
              exists i: nat {:trigger v[i]} :: i < |v| && c.1 == v[i].slot && c.0 in v[i].users
                                               && c.0 < |callbacks| && callbacks[c.0]
  {
    if v != [] {
      CallsAre(callbacks, v[0].users, v[0].slot, |callbacks|, c);
      ClearCallsAre(callbacks, v[1..], c);
      assert forall i: nat {:trigger v[i]} :: 0 < i < |v| ==> v[i] == v[1..][i - 1];
      assert forall i: nat {:trigger v[1..][i]} :: i < |v| - 1 ==> v[1..][i] == v[i + 1];
    }
  }

  /** The slots of the neighbours that are used by some table. */
  ghost function UsedSlots<A>(v: seq<Entry<A>>): set<nat>
  {
    set i: nat | i < |v| && v[i].users != {} :: v[i].slot
  }

  // -------------------------------------------------------- a walk with removals

  /** Table t's neighbours among the first p whose slots are doomed are removed from it. */
  function Weeded<A>(v: seq<Entry<A>>, t: nat, doomed: set<nat>, p: nat): (r: seq<Entry<A>>)
    ensures |r| == |v|
  {
    seq(|v|, i requires 0 <= i < |v| =>
      if i < p && t in v[i].users && v[i].slot in doomed then Marked(v[i], Remove, t) else v[i])
  }

  /** The neighbour with this address is to be removed from the table. */
  ghost predicate IsDoomed<A(!new)>(v: seq<Entry<A>>, doomed: set<nat>, b: A)
  {
    exists i: nat {:trigger v[i]} :: i < |v| && v[i].addr == b && v[i].slot in doomed
  }

  /** In terms of pairs: those of the doomed neighbours and table t are taken away, and no other. */
  lemma WeededOnRelation<A(!new)>(v: seq<Entry<A>>, t: nat, doomed: set<nat>, b: A, s: nat)
    requires DistinctAddrs(v)
    ensures var w, gone := Weeded(v, t, doomed, |v|), s == t && Uses(v, b, t) && IsDoomed(v, doomed, b);
            && (Uses(w, b, s) <==> Uses(v, b, s) && !gone)
            && (Locks(w, b, s) <==> Locks(v, b, s) && !gone)
  {
    var w := Weeded(v, t, doomed, |v|);
    if k: nat :| k < |v| && v[k].addr == b {
      SameAddr(v, k, b);
      assert w[k].addr == b;
      forall i: nat {:trigger w[i]} | i < |w| && w[i].addr == b
        ensures i == k
      {
        assert v[i].addr == b;
      }
    } else {
      forall i: nat {:trigger w[i]} | i < |w|
        ensures w[i].addr != b
      {
        assert v[i].addr != b;
      }
    }
  }

  lemma WeedNext<A>(v: seq<Entry<A>>, t: nat, doomed: set<nat>, p: nat, q: nat)
    requires DistinctSlots(v) && p <= q < |v| && MemberFrom(v, t, p) == q
    ensures var r := Weeded(v, t, doomed, p);
            r[q] == v[q] && DistinctSlots(r)
            && Weeded(v, t, doomed, q + 1) == if v[q].slot in doomed then MarkItem(r, v[q].slot, Remove, t) else r
  {
    var r := Weeded(v, t, doomed, p);
    MemberSkips(v, t, p);
    forall i: nat, j: nat {:trigger r[i], r[j]} | i < j < |r| ensures r[i].slot != r[j].slot {
      assert v[i].slot != v[j].slot;
    }
    MarkAt(r, q, Remove, t);
    var s := if v[q].slot in doomed then r[q := Marked(r[q], Remove, t)] else r;
    forall i: nat {:trigger s[i]} | i < |v| ensures Weeded(v, t, doomed, q + 1)[i] == s[i] {
      assert p <= i < q ==> t !in v[i].users;
    }
  }

  lemma {:induction false} MemberSkips<A>(v: seq<Entry<A>>, t: nat, p: nat)
    ensures var q := MemberFrom(v, t, p);
            && (q != -1 ==> t in v[q].users)
            && forall i: nat {:trigger v[i]} :: p <= i < (if q == -1 then |v| else q) ==> t !in v[i].users
    decreases |v| - p
  {
    if p < |v| && t !in v[p].users {
      MemberSkips(v, t, p + 1);
    }
  }

  lemma {:induction false} WeedRest<A>(v: seq<Entry<A>>, t: nat, doomed: set<nat>, p: nat)
    requires MemberFrom(v, t, p) == -1
    ensures Weeded(v, t, doomed, p) == Weeded(v, t, doomed, |v|)
  {
    MemberSkips(v, t, p);
    var r, s := Weeded(v, t, doomed, p), Weeded(v, t, doomed, |v|);
    forall i: nat {:trigger r[i]} | i < |v| ensures r[i] == s[i] {
      assert p <= i ==> t !in v[i].users;
    }
  }

  /** What comes next does not depend on what was removed before. */
  lemma {:induction false} MemberUnweeded<A>(v: seq<Entry<A>>, t: nat, doomed: set<nat>, p: nat, q: nat)
    requires p <= q
    ensures MemberFrom(Weeded(v, t, doomed, p), t, q) == MemberFrom(v, t, q)
    decreases |v| - q
  {
    if q < |v| {
      MemberUnweeded(v, t, doomed, p, q + 1);
    }
  }
}
