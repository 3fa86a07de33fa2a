/**
 examples/ba_benjamin_ko/sf-simple.c on values: what its handlers do to a TSCH schedule, and the 6P protocol
 (RFC 8480, sections 3.1.1 and 3.3) between an initiator and a responder as a state machine over its steps.
 */
module SixpSpec {

  datatype Option<T> = None | Some(value: T)

  datatype LinkOption = Tx | Rx | Shared

  /** A link of the slotframe, in the order of its list. */
  datatype Link = Link(timeslot: nat, channel: nat, option: LinkOption, peer: nat)

  datatype Cell = Cell(timeslot: nat, channel: nat)

  /** The timeslot of a cell that is not used. */
  const NO_SLOT: nat := 0xffff

  function CellOf(l: Link): Cell
  {
    Cell(l.timeslot, l.channel)
  }

  // ------------------------------------------------- os/net/mac/tsch/tsch-schedule.c

  /** The position of the first link in a timeslot, or -1. */
  function FindSlot(s: seq<Link>, ts: nat): (k: int)
    ensures -1 <= k < |s|
    ensures k >= 0 ==> s[k].timeslot == ts
    ensures k == -1 <==> forall l {:trigger l in s} :: l in s ==> l.timeslot != ts
  {
    if s == [] then -1
    else if s[0].timeslot == ts then assert s[0] in s; 0
    else
      assert forall l {:trigger l in s} :: l in s <==> l == s[0] || l in s[1..];
      var k := FindSlot(s[1..], ts);
      assert k != -1 ==> s[k + 1] in s;
      if k == -1 then -1 else k + 1
  }

  /** The links that are not at this cell. */
  function Without(s: seq<Link>, c: Cell): (r: seq<Link>)
    ensures forall l {:trigger l in r} {:trigger l in s} :: l in r <==> l in s && CellOf(l) != c
    ensures |r| <= |s|
  {
    if s == [] then [] else
      var r := Without(s[..|s| - 1], c);
      if CellOf(s[|s| - 1]) == c then r else r + [s[|s| - 1]]
  }

  function DropAt(s: seq<Link>, k: nat): (r: seq<Link>)
    requires k < |s|
    ensures |r| == |s| - 1
  {
    s[..k] + s[k + 1..]
  }

  /** tsch_schedule_add_link in a slotframe of `size` timeslots: whatever is in the timeslot goes first. */
  function AddLink(s: seq<Link>, size: nat, l: Link): seq<Link>
  {
    if l.timeslot >= size then s
    else
      var k := FindSlot(s, l.timeslot);
      (if k == -1 then s else DropAt(s, k)) + [l]
  }

  // --------------------------------------------------------- the handlers, on values

  /** The first cell of a list with a timeslot. */
  function FirstValid(list: seq<Cell>): Option<Cell>
  {
    if list == [] then None else if list[0].timeslot != NO_SLOT then Some(list[0]) else FirstValid(list[1..])
  }

  /** add_links_to_schedule. */
  function AddLinks(s: seq<Link>, size: nat, option: LinkOption, peer: nat, list: seq<Cell>): seq<Link>
  {
    match FirstValid(list)
    case None => s
    case Some(c) => AddLink(s, size, Link(c.timeslot, c.channel, option, peer))
  }

  /** remove_links_to_schedule. */
  function RemoveLinks(s: seq<Link>, list: seq<Cell>): seq<Link>
  {
    if list == [] then s else
      var r := RemoveLinks(s, list[..|list| - 1]);
      var c := list[|list| - 1];
      if c.timeslot == NO_SLOT then r else Without(r, c)
  }

  /** The first candidate in whose timeslot there is no link. */
  function FirstFree(s: seq<Link>, cands: seq<Cell>): Option<Cell>
  {
    if cands == [] then None
    else if FindSlot(s, cands[0].timeslot) == -1 then Some(cands[0])
    else FirstFree(s, cands[1..])
  }

  /** Requests for one cell. */
  datatype Request = Add(cands: seq<Cell>) | Delete(cell: Cell) | Relocate(cell: Cell, cands: seq<Cell>)

  /** The cell list of the response, if there is one. */
  ghost function Response(s: seq<Link>, req: Request): Option<seq<Cell>>
  {
    match req
    case Add(cands) => ListOf(FirstFree(s, cands))
    case Delete(cell) => Some(if exists l :: l in s && CellOf(l) == cell then [cell] else [])
    case Relocate(_, cands) => ListOf(FirstFree(s, cands))
  }

  function ListOf(c: Option<Cell>): Option<seq<Cell>>
  {
    if c.None? then None else Some([c.value])
  }

  /** What a node's schedule becomes when the transaction succeeds: the responder adds RX links, the initiator TX. */
  function Commit(s: seq<Link>, size: nat, option: LinkOption, peer: nat, req: Request, res: seq<Cell>): seq<Link>
  {
    match req
    case Add(_) => AddLinks(s, size, option, peer, res)
    case Delete(_) => RemoveLinks(s, res)
    case Relocate(cell, _) => RemoveLinks(AddLinks(s, size, option, peer, res), [cell])
  }

  // ------------------------------------------------------------- views of a schedule

  ghost function Cells(s: seq<Link>): set<Cell>
  {
    set l | l in s :: CellOf(l)
  }

  /** The cells of the links with this option to this peer. */
  ghost function CellsTo(s: seq<Link>, option: LinkOption, peer: nat): set<Cell>
  {
    set l | l in s && l.option == option && l.peer == peer :: CellOf(l)
  }

  ghost function Occupied(s: seq<Link>): set<nat>
  {
    set l | l in s :: l.timeslot
  }

  /** No timeslot has two links. */
  ghost predicate OnePerSlot(s: seq<Link>)
  {
    forall i: nat, j: nat {:trigger s[i], s[j]} :: i < j < |s| ==> s[i].timeslot != s[j].timeslot
  }

  // ----------------------------------------------------------------- lemmas on lists

  lemma {:induction false} WithoutSlots(s: seq<Link>, c: Cell)
    requires OnePerSlot(s)
    ensures OnePerSlot(Without(s, c))
    ensures Cells(Without(s, c)) == Cells(s) - {c}
    ensures forall option, peer :: CellsTo(Without(s, c), option, peer) == CellsTo(s, option, peer) - {c}
    ensures |Without(s, c)| == |s| - (if c in Cells(s) then 1 else 0)
  {
    var r := Without(s, c);
    if s != [] {
      var h, l := s[..|s| - 1], s[|s| - 1];
      WithoutSlots(h, c);
      assert forall x :: x in h ==> x in s && x.timeslot != l.timeslot;
      assert l in s;
      assert Cells(s) == Cells(h) + {CellOf(l)};
      assert CellOf(l) !in Cells(h);
    }
    forall option, peer ensures CellsTo(r, option, peer) == CellsTo(s, option, peer) - {c} {
    }
  }

  /** Adding a link in a free timeslot takes nothing away. */
  lemma AddFree(s: seq<Link>, size: nat, l: Link)
    requires OnePerSlot(s) && l.timeslot < size && l.timeslot !in Occupied(s)
    ensures var r := AddLink(s, size, l);
            && r == s + [l] && OnePerSlot(r) && Cells(r) == Cells(s) + {CellOf(l)}
            && forall option, peer :: CellsTo(r, option, peer) ==
                 CellsTo(s, option, peer) + if option == l.option && peer == l.peer then {CellOf(l)} else {}
  {
    assert forall x {:trigger x in s} :: x in s ==> x.timeslot in Occupied(s);
    assert FindSlot(s, l.timeslot) == -1;
    Appended(s, l);
  }

  lemma Appended(s: seq<Link>, l: Link)
    requires OnePerSlot(s) && forall x {:trigger x in s} :: x in s ==> x.timeslot != l.timeslot
    ensures var r := s + [l];
            && OnePerSlot(r) && Cells(r) == Cells(s) + {CellOf(l)}
            && forall option, peer :: CellsTo(r, option, peer) ==
                 CellsTo(s, option, peer) + if option == l.option && peer == l.peer then {CellOf(l)} else {}
  {
    assert forall i: nat {:trigger s[i]} :: i < |s| ==> s[i] in s;
    assert forall x :: x in s + [l] <==> x in s || x == l;
  }

  lemma OccupiedIs(s: seq<Link>, ts: nat)
    ensures ts in Occupied(s) <==> FindSlot(s, ts) != -1
    ensures ts in Occupied(s) <==> exists c :: c in Cells(s) && c.timeslot == ts
  {
    var k := FindSlot(s, ts);
    if k != -1 {
      assert s[k] in s;
      assert CellOf(s[k]) in Cells(s);
    }
    if exists c :: c in Cells(s) && c.timeslot == ts {
      var c :| c in Cells(s) && c.timeslot == ts;
    }
  }

  lemma {:induction false} FirstFreeIs(s: seq<Link>, cands: seq<Cell>)
    ensures FirstFree(s, cands).Some? ==>
            FirstFree(s, cands).value in cands && FirstFree(s, cands).value.timeslot !in Occupied(s)
    ensures FirstFree(s, cands).None? <==> forall c {:trigger c in cands} :: c in cands ==> c.timeslot in Occupied(s)
  {
    if cands != [] {
      OccupiedIs(s, cands[0].timeslot);
      FirstFreeIs(s, cands[1..]);
      assert forall c :: c in cands <==> c == cands[0] || c in cands[1..];
    }
  }

  // -------------------------------------------------------------------- two nodes

  /** The addresses of the nodes and the length of the slotframe. */
  datatype Setup = Setup(initiator: nat, responder: nat, size: nat)

  /** The two schedules agree: the initiator occupies only cells that the responder occupies too, and its cells for
      sending are the responder's cells for receiving. */
  ghost predicate InStep(net: Setup, i: seq<Link>, r: seq<Link>)
  {
    && OnePerSlot(i) && OnePerSlot(r) && Cells(i) <= Cells(r)
    && CellsTo(i, Tx, net.responder) == CellsTo(r, Rx, net.initiator)
  }

  lemma AddOne(s: seq<Link>, size: nat, option: LinkOption, peer: nat, c: Cell)
    ensures AddLinks(s, size, option, peer, [c])
         == if c.timeslot == NO_SLOT || c.timeslot >= size then s
            else AddLink(s, size, Link(c.timeslot, c.channel, option, peer))
  {
    assert FirstValid([c][1..]) == None;
    assert FirstValid([c]) == if c.timeslot != NO_SLOT then Some(c) else None;
  }

  /** An added cell is free at both nodes, and nothing is taken away for it. */
  lemma CommitAdd(net: Setup, i: seq<Link>, r: seq<Link>, c: Cell)
    requires InStep(net, i, r) && c.timeslot !in Occupied(r)
    ensures c.timeslot !in Occupied(i)
    ensures InStep(net, AddLinks(i, net.size, Tx, net.responder, [c]), AddLinks(r, net.size, Rx, net.initiator, [c]))
    ensures i <= AddLinks(i, net.size, Tx, net.responder, [c]) && r <= AddLinks(r, net.size, Rx, net.initiator, [c])
  {
    OccupiedIs(i, c.timeslot);
    OccupiedIs(r, c.timeslot);
    AddOne(i, net.size, Tx, net.responder, c);
    AddOne(r, net.size, Rx, net.initiator, c);
    if c.timeslot != NO_SLOT && c.timeslot < net.size {
      BothAdd(net, i, r, c);
    }
  }

  lemma BothAdd(net: Setup, i: seq<Link>, r: seq<Link>, c: Cell)
    requires InStep(net, i, r) && c.timeslot !in Occupied(r) && c.timeslot !in Occupied(i) && c.timeslot < net.size
    ensures var x, y := Link(c.timeslot, c.channel, Tx, net.responder), Link(c.timeslot, c.channel, Rx, net.initiator);
            && AddLink(i, net.size, x) == i + [x] && AddLink(r, net.size, y) == r + [y] && InStep(net, i + [x], r + [y])
  {
    AddFree(i, net.size, Link(c.timeslot, c.channel, Tx, net.responder));
    AddFree(r, net.size, Link(c.timeslot, c.channel, Rx, net.initiator));
  }

  lemma CommitRemove(net: Setup, i: seq<Link>, r: seq<Link>, c: Cell)
    requires InStep(net, i, r)
    ensures InStep(net, RemoveLinks(i, [c]), RemoveLinks(r, [c]))
  {
    assert RemoveLinks(i, []) == i && RemoveLinks(r, []) == r;
    assert [c][..0] == [];
    if c.timeslot != NO_SLOT {
      WithoutSlots(i, c);
      WithoutSlots(r, c);
    }
  }

  /** A transaction that succeeds at both nodes leaves them in step. */
  lemma CommitBoth(net: Setup, i: seq<Link>, r: seq<Link>, req: Request)
    requires InStep(net, i, r) && Response(r, req).Some?
    ensures var res := Response(r, req).value;
            InStep(net, Commit(i, net.size, Tx, net.responder, req, res),
              Commit(r, net.size, Rx, net.initiator, req, res))
  {
    var res := Response(r, req).value;
    match req {
      case Add(cands) =>
        FirstFreeIs(r, cands);
        CommitAdd(net, i, r, res[0]);
      case Delete(cell) =>
        if res != [] {
          CommitRemove(net, i, r, cell);
        }
      case Relocate(cell, cands) =>
        FirstFreeIs(r, cands);
        CommitAdd(net, i, r, res[0]);
        CommitRemove(net, AddLinks(i, net.size, Tx, net.responder, res), AddLinks(r, net.size, Rx, net.initiator, res),
          cell);
    }
  }

  // ---------------------------------------------------------------- the protocol

  /** How far a transaction is. A response that is delivered is committed by both nodes, in either order; `was` is
      the schedule of the node that committed first, before it did. */
  datatype Phase =
    | Idle
    | Requested(req: Request)
    | Responded(req: Request, res: seq<Cell>)
    | InitiatorDone(req: Request, res: seq<Cell>, was: seq<Link>)
    | ResponderDone(req: Request, res: seq<Cell>, was: seq<Link>)

  datatype World = World(i: seq<Link>, r: seq<Link>, phase: Phase)

  datatype Event =
    Start(req: Request) | RequestLost | RequestArrives | ResponseLost | InitiatorCommits | ResponderCommits

  predicate Enabled(w: World, e: Event)
  {
    match e
    case Start(_) => w.phase.Idle?
    case RequestLost => w.phase.Requested?
    case RequestArrives => w.phase.Requested?
    case ResponseLost => w.phase.Responded?
    case InitiatorCommits => w.phase.Responded? || w.phase.ResponderDone?
    case ResponderCommits => w.phase.Responded? || w.phase.InitiatorDone?
  }

  ghost function Step(net: Setup, w: World, e: Event): World
    requires Enabled(w, e)
  {
    match e
    case Start(req) => w.(phase := Requested(req))
    case RequestLost => w.(phase := Idle)
    case RequestArrives =>
      var res := Response(w.r, w.phase.req);
      w.(phase := if res.None? then Idle else Responded(w.phase.req, res.value))
    case ResponseLost => w.(phase := Idle)
    case InitiatorCommits =>
      w.(i := Commit(w.i, net.size, Tx, net.responder, w.phase.req, w.phase.res),
         phase := if w.phase.Responded? then InitiatorDone(w.phase.req, w.phase.res, w.i) else Idle)
    case ResponderCommits =>
      w.(r := Commit(w.r, net.size, Rx, net.initiator, w.phase.req, w.phase.res),
         phase := if w.phase.Responded? then ResponderDone(w.phase.req, w.phase.res, w.r) else Idle)
  }

  ghost predicate LegalRun(net: Setup, w: World, es: seq<Event>)
    decreases |es|
  {
    es == [] || (Enabled(w, es[0]) && LegalRun(net, Step(net, w, es[0]), es[1..]))
  }

  ghost function After(net: Setup, w: World, es: seq<Event>): World
    requires LegalRun(net, w, es)
    decreases |es|
  {
    if es == [] then w else After(net, Step(net, w, es[0]), es[1..])
  }

  /** The nodes are in step, or will be when the node that is behind commits. */
  ghost predicate Inv(net: Setup, w: World)
  {
    match w.phase
    case Idle | Requested(_) => InStep(net, w.i, w.r)
    case Responded(req, res) => InStep(net, w.i, w.r) && Response(w.r, req) == Some(res)
    case InitiatorDone(req, res, was) =>
      InStep(net, was, w.r) && Response(w.r, req) == Some(res) &&
        w.i == Commit(was, net.size, Tx, net.responder, req, res)
    case ResponderDone(req, res, was) =>
      InStep(net, w.i, was) && Response(was, req) == Some(res) &&
        w.r == Commit(was, net.size, Rx, net.initiator, req, res)
  }

  lemma StepKeeps(net: Setup, w: World, e: Event)
    requires Inv(net, w) && Enabled(w, e)
    ensures Inv(net, Step(net, w, e))
  {
    match w.phase {
      case InitiatorDone(req, _, was) => CommitBoth(net, was, w.r, req);
      case ResponderDone(req, _, was) => CommitBoth(net, w.i, was, req);
      case _ =>
    }
  }

  /** The timeslots that a request wants to give up. */
  ghost function GivenUp(req: Request): set<nat>
  {
    match req
    case Add(_) => {}
    case Delete(c) => {c.timeslot}
    case Relocate(c, _) => {c.timeslot}
  }

  ghost function Slots(res: seq<Cell>): set<nat>
  {
    set c | c in res :: c.timeslot
  }

  /** The timeslots that the transaction under way names. */
  ghost function Pending(p: Phase): set<nat>
  {
    match p
    case Idle => {}
    case Requested(req) => GivenUp(req)
    case Responded(req, res) => GivenUp(req) + Slots(res)
    case InitiatorDone(req, res, _) => GivenUp(req) + Slots(res)
    case ResponderDone(req, res, _) => GivenUp(req) + Slots(res)
  }

  /** What holds at every moment: one link per timeslot at each node, and what the initiator occupies the responder
      occupies too or is about to. */
  ghost predicate Safe(w: World)
  {
    OnePerSlot(w.i) && OnePerSlot(w.r) && Occupied(w.i) <= Occupied(w.r) + Pending(w.phase)
  }

  lemma CellsInside(i: seq<Link>, r: seq<Link>)
    requires Cells(i) <= Cells(r)
    ensures Occupied(i) <= Occupied(r)
  {
    forall ts | ts in Occupied(i) ensures ts in Occupied(r) {
      OccupiedIs(i, ts);
      OccupiedIs(r, ts);
    }
  }

  /** A commit adds no timeslot but those of the response, and gives up none but those it was asked to. */
  lemma CommitChanges(net: Setup, s: seq<Link>, option: LinkOption, peer: nat, req: Request, res: seq<Cell>)
    requires OnePerSlot(s) && |res| <= 1
    requires !req.Delete? ==> |res| == 1 && res[0].timeslot !in Occupied(s)
    requires req.Delete? ==> res == [] || res == [req.cell]
    ensures var t := Commit(s, net.size, option, peer, req, res);
            OnePerSlot(t) && Occupied(t) <= Occupied(s) + Slots(res) && Occupied(s) <= Occupied(t) + GivenUp(req)
  {
    match req {
      case Add(_) =>
        AddChanges(s, net.size, option, peer, res[0]);
        assert res == [res[0]] && res[0] in res;
      case Delete(c) =>
        if res != [] {
          RemoveOne(s, c);
        }
      case Relocate(c, _) =>
        AddChanges(s, net.size, option, peer, res[0]);
        assert res == [res[0]] && res[0] in res;
        RemoveOne(AddLinks(s, net.size, option, peer, res), c);
    }
  }

  lemma AddChanges(s: seq<Link>, size: nat, option: LinkOption, peer: nat, c: Cell)
    requires OnePerSlot(s) && c.timeslot !in Occupied(s)
    ensures var t := AddLinks(s, size, option, peer, [c]);
            OnePerSlot(t) && Occupied(s) <= Occupied(t) <= Occupied(s) + {c.timeslot}
            && |t| == |s| + (if c.timeslot == NO_SLOT || c.timeslot >= size then 0 else 1)
            && Cells(s) <= Cells(t) <= Cells(s) + {c}
            && (c in Cells(t) <==> c.timeslot != NO_SLOT && c.timeslot < size)
  {
    OccupiedIs(s, c.timeslot);
    AddOne(s, size, option, peer, c);
    if c.timeslot != NO_SLOT && c.timeslot < size {
      var l := Link(c.timeslot, c.channel, option, peer);
      AddFree(s, size, l);
      assert forall x :: x in s + [l] <==> x in s || x == l;
    }
  }

  lemma RemoveOne(s: seq<Link>, c: Cell)
    requires OnePerSlot(s)
    ensures var t := RemoveLinks(s, [c]);
            OnePerSlot(t) && Occupied(t) <= Occupied(s) <= Occupied(t) + {c.timeslot}
            && |t| == |s| - (if c.timeslot != NO_SLOT && c in Cells(s) then 1 else 0)
  {
    assert [c][..0] == [] && RemoveLinks(s, []) == s;
    if c.timeslot != NO_SLOT {
      WithoutSlots(s, c);
    }
  }

  lemma ResponseShape(s: seq<Link>, req: Request)
    requires Response(s, req).Some?
    ensures var res := Response(s, req).value;
            && |res| <= 1
            && (!req.Delete? ==> |res| == 1 && res[0].timeslot !in Occupied(s))
            && (req.Delete? ==> res == [] || res == [req.cell])
  {
    match req {
      case Add(cands) => FirstFreeIs(s, cands);
      case Delete(_) =>
      case Relocate(_, cands) => FirstFreeIs(s, cands);
    }
  }

  lemma InvIsSafe(net: Setup, w: World)
    requires Inv(net, w)
    ensures Safe(w)
    ensures w.phase.Idle? || w.phase.Requested? || w.phase.Responded? ==>
              CellsTo(w.i, Tx, net.responder) == CellsTo(w.r, Rx, net.initiator)
  {
    match w.phase {
      case InitiatorDone(req, res, was) =>
        ResponseShape(w.r, req);
        CellsInside(was, w.r);
        CommitChanges(net, was, Tx, net.responder, req, res);
      case ResponderDone(req, res, was) =>
        ResponseShape(was, req);
        CellsInside(w.i, was);
        CommitChanges(net, was, Rx, net.initiator, req, res);
      case _ =>
        CellsInside(w.i, w.r);
    }
  }

  /** In every run of transactions, with requests and responses lost at will and commits in either order, both nodes
      are safe, and whenever no commit is outstanding the initiator sends exactly where the responder listens. */
  lemma {:induction false} RunsAreSafe(net: Setup, w: World, es: seq<Event>)
    requires w.phase.Idle? && InStep(net, w.i, w.r) && LegalRun(net, w, es)
    ensures var v := After(net, w, es);
            && Safe(v)
            && (v.phase.Idle? || v.phase.Requested? || v.phase.Responded? ==>
                  InStep(net, v.i, v.r) && CellsTo(v.i, Tx, net.responder) == CellsTo(v.r, Rx, net.initiator))
  {
    RunKeeps(net, w, es);
    InvIsSafe(net, After(net, w, es));
  }

  lemma {:induction false} RunKeeps(net: Setup, w: World, es: seq<Event>)
    requires Inv(net, w) && LegalRun(net, w, es)
    ensures Inv(net, After(net, w, es))
    decreases |es|
  {
    if es != [] {
      StepKeeps(net, w, es[0]);
      RunKeeps(net, Step(net, w, es[0]), es[1..]);
    }
  }

  /** No commit of an added cell ever evicts a link, although the initiator does not look at its schedule. */
  lemma NothingEvicted(net: Setup, w: World, c: Cell)
    requires Inv(net, w) && !w.phase.Idle? && !w.phase.Requested? && !w.phase.req.Delete? && w.phase.res == [c]
    ensures !w.phase.InitiatorDone? ==> c.timeslot !in Occupied(w.i)
    ensures !w.phase.ResponderDone? ==> c.timeslot !in Occupied(w.r)
  {
    var r := if w.phase.ResponderDone? then w.phase.was else w.r;
    ResponseShape(r, w.phase.req);
    if !w.phase.InitiatorDone? {
      CellsInside(w.i, r);
    }
  }

  /** Of the link that a RELOCATE adds and the one it takes away there are both or none: the accepted candidate `c` is a
      timeslot of the slotframe iff there is a link at the cell to be moved once the candidate is added. */
  ghost predicate Balanced(s: seq<Link>, size: nat, cell: Cell, c: Cell)
  {
    c.timeslot < size <==> cell.timeslot != NO_SLOT && (cell in Cells(s) || (c.timeslot < size && cell == c))
  }

  /** Moving any cell keeps the number of links of a node iff its move is balanced. Neither node checks that the cell to
      be moved is scheduled, or that the candidate lies inside the slotframe. */
  lemma RelocateConserves(net: Setup, i: seq<Link>, r: seq<Link>, cell: Cell, cands: seq<Cell>)
    requires InStep(net, i, r) && net.size <= NO_SLOT && FirstFree(r, cands).Some?
    ensures var req, c := Relocate(cell, cands), FirstFree(r, cands).value;
            && (|Commit(i, net.size, Tx, net.responder, req, [c])| == |i| <==> Balanced(i, net.size, cell, c))
            && (|Commit(r, net.size, Rx, net.initiator, req, [c])| == |r| <==> Balanced(r, net.size, cell, c))
  {
    var c := FirstFree(r, cands).value;
    FirstFreeIs(r, cands);
    CellsInside(i, r);
    MoveCounts(i, net.size, Tx, net.responder, cell, c);
    MoveCounts(r, net.size, Rx, net.initiator, cell, c);
  }

  lemma MoveCounts(s: seq<Link>, size: nat, option: LinkOption, peer: nat, cell: Cell, c: Cell)
    requires OnePerSlot(s) && size <= NO_SLOT && c.timeslot !in Occupied(s)
    ensures |RemoveLinks(AddLinks(s, size, option, peer, [c]), [cell])| == |s| <==> Balanced(s, size, cell, c)
  {
    AddChanges(s, size, option, peer, c);
    RemoveOne(AddLinks(s, size, option, peer, [c]), cell);
  }

  /** A cell that the initiator has scheduled is moved without loss or gain iff the candidate lies inside the
      slotframe. */
  lemma ScheduledMove(net: Setup, i: seq<Link>, r: seq<Link>, cell: Cell, cands: seq<Cell>)
    requires InStep(net, i, r) && cell in Cells(i) && cell.timeslot < net.size <= NO_SLOT
    requires FirstFree(r, cands).Some?
    ensures var req, c := Relocate(cell, cands), FirstFree(r, cands).value;
            && (|Commit(i, net.size, Tx, net.responder, req, [c])| == |i| <==> c.timeslot < net.size)
            && (|Commit(r, net.size, Rx, net.initiator, req, [c])| == |r| <==> c.timeslot < net.size)
  {
    RelocateConserves(net, i, r, cell, cands);
  }

  /** Moving a cell that is not scheduled adds a link at both nodes. */
  lemma UnscheduledMoveAdds(net: Setup)
    requires net.size == 10
    ensures var s, req := [Link(0, 0, Shared, 0)], Relocate(Cell(7, 7), [Cell(3, 0)]);
            && InStep(net, s, s) && Response(s, req) == Some([Cell(3, 0)])
            && |Commit(s, net.size, Tx, net.responder, req, [Cell(3, 0)])| == 2
            && |Commit(s, net.size, Rx, net.initiator, req, [Cell(3, 0)])| == 2
  {
    var s, c := [Link(0, 0, Shared, 0)], Cell(3, 0);
    assert FindSlot(s[1..], 3) == -1 && FindSlot(s, 3) == -1;
    assert FirstFree(s, [c]) == Some(c);
    OccupiedIs(s, 3);
    AddChanges(s, net.size, Tx, net.responder, c);
    AddChanges(s, net.size, Rx, net.initiator, c);
    RemoveOne(AddLinks(s, net.size, Tx, net.responder, [c]), Cell(7, 7));
    RemoveOne(AddLinks(s, net.size, Rx, net.initiator, [c]), Cell(7, 7));
  }

  /** The schedules that child.c and parent.c set up: the minimal cell and the mirrored cells of the example. */
  ghost function ChildStart(net: Setup): seq<Link>
  {
    [Link(0, 0, Shared, 0), Link(5, 2, Rx, net.responder), Link(50, 3, Rx, net.responder),
      Link(80, 1, Rx, net.responder),
     Link(90, 3, Tx, net.responder)]
  }

  ghost function ParentStart(net: Setup, network: nat): seq<Link>
  {
    [Link(0, 0, Shared, 0), Link(20, 2, Rx, network), Link(5, 2, Tx, net.initiator), Link(50, 3, Tx, net.initiator),
     Link(80, 1, Tx, net.initiator), Link(90, 3, Rx, net.initiator)]
  }

  lemma ChildSends(net: Setup)
    ensures CellsTo(ChildStart(net), Tx, net.responder) == {Cell(90, 3)}
  {
    assert ChildStart(net)[4] in ChildStart(net);
  }

  lemma ParentListens(net: Setup, network: nat)
    requires network != net.initiator
    ensures CellsTo(ParentStart(net, network), Rx, net.initiator) == {Cell(90, 3)}
  {
    assert ParentStart(net, network)[5] in ParentStart(net, network);
  }

  lemma ChildInsideParent(net: Setup, network: nat)
    ensures Cells(ChildStart(net)) <= Cells(ParentStart(net, network))
  {
    var i, r := ChildStart(net), ParentStart(net, network);
    forall l | l in i ensures CellOf(l) in Cells(r) {
      var k :| 0 <= k < |i| && i[k] == l;
      assert r[if k == 0 then 0 else k + 1] in r;
    }
  }

  lemma StartInStep(net: Setup, network: nat)
    requires network != net.initiator
    ensures InStep(net, ChildStart(net), ParentStart(net, network))
  {
    ChildSends(net);
    ParentListens(net, network);
    ChildInsideParent(net, network);
  }
}
