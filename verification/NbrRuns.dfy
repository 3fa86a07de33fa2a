/**
 os/net/nbr-table.c: whole runs. Every sequence of calls keeps the tables in step with the list of neighbours, and
 a locked neighbour stays where it is.
 */
module NbrRuns {
  import opened NbrBits
  import opened NbrSpec
  import opened NbrTable

  datatype Op<A> =
    | Add(t: nat, addr: Option<A>)
    | Get(t: nat, addr: Option<A>)
    | SetMark(t: nat, item: int, mark: Mark)
    | WalkAll(t: nat, doomed: set<nat>)
    | ClearAll

  /** The neighbours and the callbacks made. */
  datatype Net<A> = Net(entries: seq<Entry<A>>, calls: seq<(nat, nat)>)

  /** n neighbours, the null address, and which of the registered tables have a callback. */
  datatype Setup<A> = Setup(n: nat, nullAddr: A, callbacks: seq<bool>)

  /** What the source demands of its callers: a registered table, and only items in the list are locked. */
  predicate Allowed<A>(s: Setup<A>, net: Net<A>, op: Op<A>)
  {
    match op
    case ClearAll => true
    case SetMark(t, item, mark) =>
      t < |s.callbacks| && -1 <= item < s.n && (mark.Lock? && item != -1 ==> HasSlot(net.entries, item))
    case _ => op.t < |s.callbacks|
  }

  function AddrOf<A>(s: Setup<A>, a: Option<A>): A
  {
    if a.Some? then a.value else s.nullAddr
  }

  ghost function Next<A>(s: Setup<A>, net: Net<A>, op: Op<A>): Net<A>
  {
    var v := net.entries;
    match op
    case Add(t, a) =>
      var r := AddEntry(v, s.n, t, AddrOf(s, a));
      Net(r.entries, net.calls + Evicted(s.callbacks, v, r.victim))
    case Get(_, _) => net
    case SetMark(t, item, mark) => Net(MarkItem(v, item, mark, t), net.calls)
    case WalkAll(t, doomed) => Net(Weeded(v, t, doomed, |v|), net.calls)
    case ClearAll => Net([], net.calls + ClearCalls(s.callbacks, v))
  }

  /** The items a call hands out. */
  ghost function Items<A>(s: Setup<A>, net: Net<A>, op: Op<A>): seq<int>
  {
    var v := net.entries;
    match op
    case Add(t, a) =>
      var r := AddEntry(v, s.n, t, AddrOf(s, a));
      [SlotAt(r.entries, r.position)]
    case Get(t, a) =>
      var p := Find(v, AddrOf(s, a));
      [if p != -1 && t in v[p].users then v[p].slot else -1]
    case SetMark(_, _, _) => []
    case WalkAll(t, _) => MembersFrom(v, t, 0)
    case ClearAll => []
  }

  ghost predicate Legal<A>(s: Setup<A>, net: Net<A>, ops: seq<Op<A>>)
    decreases |ops|
  {
    ops == [] || (Allowed(s, net, ops[0]) && Legal(s, Next(s, net, ops[0]), ops[1..]))
  }

  ghost function After<A>(s: Setup<A>, net: Net<A>, ops: seq<Op<A>>): Net<A>
    decreases |ops|
  {
    if ops == [] then net else After(s, Next(s, net, ops[0]), ops[1..])
  }

  ghost function AllItems<A>(s: Setup<A>, net: Net<A>, ops: seq<Op<A>>): seq<int>
    decreases |ops|
  {
    if ops == [] then [] else Items(s, net, ops[0]) + AllItems(s, Next(s, net, ops[0]), ops[1..])
  }

  /** One call on the tables. */
  method Serve<H(==), A(==,!new), D>(tables: NbrTable<H, A, D>, op: Op<A>, ghost s: Setup<A>, ghost net: Net<A>)
    returns (items: seq<int>)
    requires tables.Valid() && s == Setup(tables.n, tables.nullAddr, tables.callbacks)
    requires net == Net(tables.View(), tables.calls) && Allowed(s, net, op)
    modifies tables, tables.pool
    ensures tables.Valid() && tables.callbacks == old(tables.callbacks)
    ensures Net(tables.View(), tables.calls) == Next(s, net, op) && items == Items(s, net, op)
  {
    items := [];
    match op {
      case Add(t, a) =>
        var item := tables.AddLladdr(t, a);
        items := [item];
      case Get(t, a) =>
        var item := tables.GetFromLladdr(t, a);
        items := [item];
      case SetMark(t, item, mark) =>
        Marks(tables, t, item, mark);
      case WalkAll(t, doomed) =>
        var visited := tables.Walk(t, doomed);
        items := visited;
      case ClearAll =>
        tables.Clear();
    }
  }

  method Marks<H(==), A(==,!new), D>(tables: NbrTable<H, A, D>, t: nat, item: int, mark: Mark)
    requires tables.Valid() && t < |tables.callbacks| && -1 <= item < tables.n
    requires mark.Lock? && item != -1 ==> HasSlot(tables.View(), item)
    modifies tables`usedMap, tables`lockedMap
    ensures tables.Valid() && tables.View() == MarkItem(old(tables.View()), item, mark, t)
  {
    var r;
    match mark {
      case Remove => r := tables.RemoveItem(t, item);
      case Lock => r := tables.LockItem(t, item);
      case Unlock => r := tables.UnlockItem(t, item);
    }
  }

  /** Every run does what the neighbours in list order say. */
  method Run<H(==), A(==,!new), D>(tables: NbrTable<H, A, D>, ops: seq<Op<A>>, i: nat, ghost s: Setup<A>,
      ghost net: Net<A>)
    returns (items: seq<int>)
    requires tables.Valid() && s == Setup(tables.n, tables.nullAddr, tables.callbacks)
    requires net == Net(tables.View(), tables.calls) && i <= |ops| && Legal(s, net, ops[i..])
    modifies tables, tables.pool
    ensures tables.Valid() && tables.callbacks == old(tables.callbacks)
    ensures Net(tables.View(), tables.calls) == After(s, net, ops[i..]) && items == AllItems(s, net, ops[i..])
    decreases |ops| - i
  {
    if i == |ops| {
      return [];
    }
    assert ops[i..][0] == ops[i] && ops[i..][1..] == ops[i + 1..];
    var first := Serve(tables, ops[i], s, net);
    var rest := Run(tables, ops, i + 1, s, Next(s, net, ops[i]));
    items := first + rest;
  }

  // ------------------------------------------------------------------ locks hold

  /** The neighbour a is listed with this slot and locked by table t. */
  ghost predicate Held<A(!new)>(v: seq<Entry<A>>, a: A, slot: nat, t: nat)
  {
    exists i: nat :: i < |v| && v[i].addr == a && v[i].slot == slot && t in v[i].locks
  }

  /** The call does not take table t's lock off this slot. */
  predicate Spares<A>(op: Op<A>, slot: nat, t: nat)
  {
    match op
    case ClearAll => false
    case SetMark(u, item, mark) => u != t || item != slot || mark.Lock?
    case WalkAll(u, doomed) => u != t || slot !in doomed
    case _ => true
  }

  lemma HeldAdd<A(!new)>(v: seq<Entry<A>>, n: nat, u: nat, b: A, a: A, slot: nat, t: nat)
    requires Held(v, a, slot, t)
    ensures Held(AddEntry(v, n, u, b).entries, a, slot, t)
  {
    var i: nat :| i < |v| && v[i].addr == a && v[i].slot == slot && t in v[i].locks;
    var r := AddEntry(v, n, u, b);
    var e, w := r.entries, r.victim;
    if w == -1 {
      assert e[i].addr == a && e[i].slot == slot && t in e[i].locks;
    } else {
      VictimIsFirstLeastUsed(v, w);
      assert e[if i < w then i else i - 1] == v[i];
    }
  }

  lemma HeldNext<A(!new)>(s: Setup<A>, net: Net<A>, op: Op<A>, a: A, slot: nat, t: nat)
    requires Held(net.entries, a, slot, t) && Spares(op, slot, t)
    ensures Held(Next(s, net, op).entries, a, slot, t)
  {
    if op.Add? {
      HeldAdd(net.entries, s.n, op.t, AddrOf(s, op.addr), a, slot, t);
    } else {
      var v, e := net.entries, Next(s, net, op).entries;
      var i: nat :| i < |v| && v[i].addr == a && v[i].slot == slot && t in v[i].locks;
      assert e[i].addr == a && e[i].slot == slot && t in e[i].locks;
    }
  }

  /** In every run a locked neighbour keeps its place until its lock is released: it is never evicted. */
  lemma {:induction false} LockedStays<A(!new)>(s: Setup<A>, net: Net<A>, ops: seq<Op<A>>, a: A, slot: nat, t: nat)
    requires Held(net.entries, a, slot, t)
    requires forall op {:trigger op in ops} :: op in ops ==> Spares(op, slot, t)
    ensures Held(After(s, net, ops).entries, a, slot, t)
    decreases |ops|
  {
    if ops != [] {
      assert ops[0] in ops;
      assert forall op {:trigger op in ops[1..]} :: op in ops[1..] ==> op in ops;
      HeldNext(s, net, ops[0], a, slot, t);
      LockedStays(s, Next(s, net, ops[0]), ops[1..], a, slot, t);
    }
  }
}
