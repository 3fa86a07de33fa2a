/**
 examples/ba_benjamin_ko/sf-simple.c and the parts of os/net/mac/tsch/tsch-schedule.c that it calls: one node with
 its schedule and static variables, and two of them with a message between them.
 */
module SixpNode {
  import opened SixpCells
  import opened SixpSpec

  class Node {
    /** The node's address and the length of its slotframe. */
    const self: nat
    const size: nat
    /** The links of the slotframe. */
    var links: seq<Link>
    var resStorage: seq<nat>
    var currentCell: Cell

    constructor (address: nat, slots: nat, schedule: seq<Link>)
      ensures self == address && size == slots && links == schedule
    {
      self, size, links := address, slots, schedule;
      resStorage, currentCell := Zeros(RES_STORAGE), Cell(0, 0);
    }

    // ------------------------------------------------------------ the schedule

    /** tsch_schedule_get_link_by_timeslot. */
    method LinkByTimeslot(ts: nat) returns (k: int)
      ensures k == FindSlot(links, ts)
    {
      k := 0;
      while k < |links|
        invariant 0 <= k <= |links|
        invariant FindSlot(links, ts) == if FindSlot(links[k..], ts) == -1 then -1 else k + FindSlot(links[k..], ts)
      {
        assert links[k..][1..] == links[k + 1..];
        if links[k].timeslot == ts {
          return;
        }
        k := k + 1;
      }
      k := -1;
    }

    /** tsch_schedule_get_link_by_offsets. */
    method LinkByOffsets(c: Cell) returns (k: int)
      ensures -1 <= k < |links|
      ensures k >= 0 ==> CellOf(links[k]) == c && forall j :: 0 <= j < k ==> CellOf(links[j]) != c
      ensures k == -1 ==> forall l {:trigger l in links} :: l in links ==> CellOf(l) != c
    {
      k := 0;
      while k < |links|
        invariant 0 <= k <= |links|
        invariant forall j :: 0 <= j < k ==> CellOf(links[j]) != c
      {
        if links[k].timeslot == c.timeslot && links[k].channel == c.channel {
          return;
        }
        k := k + 1;
      }
      k := -1;
    }

    /** tsch_schedule_remove_link_by_offsets. */
    method RemoveByOffsets(c: Cell) returns (ret: int)
      modifies this`links
      ensures links == Without(old(links), c)
      ensures ret == if |links| < |old(links)| then 1 else 0
    {
      ghost var s := links;
      ghost var done := 0;
      ret := 0;
      var k := 0;
      while k < |links|
        invariant 0 <= k <= |links| && done <= |s| && links[..k] == Without(s[..done], c) && links[k..] == s[done..]
        invariant ret == if |links| < |s| then 1 else 0
        decreases |links| - k
      {
        assert s[..done + 1][..done] == s[..done];
        assert links[k] == s[done];
        if links[k].timeslot == c.timeslot && links[k].channel == c.channel {
          ghost var before := links;
          links := DropAt(links, k);
          assert links[..k] == before[..k] && links[k..] == before[k + 1..] == s[done + 1..];
          ret := 1;
        } else {
          assert links[..k + 1] == links[..k] + [links[k]];
          k := k + 1;
        }
        done := done + 1;
      }
      assert s[..done] == s && links[..k] == links;
    }

    /** tsch_schedule_add_link with do_remove set. The lock may be taken, or the pool of links exhausted: then the link
        that was in the timeslot is gone, and there is none in its place. */
    method AddLinkAt(l: Link, spare: bool) returns (ok: bool)
      modifies this`links
      ensures ok <==> spare && l.timeslot < size
      ensures spare ==> links == AddLink(old(links), size, l)
      ensures !spare && l.timeslot < size ==> AddLink(old(links), size, l) == links + [l]
      ensures l.timeslot >= size ==> links == old(links)
    {
      if l.timeslot >= size {
        return false;
      }
      var k := LinkByTimeslot(l.timeslot);
      if k != -1 {
        links := DropAt(links, k);
      }
      if !spare {
        return false;
      }
      links := links + [l];
      ok := true;
    }

    /** add_links_to_schedule: only the first valid cell. */
    method AddLinksToSchedule(peer: nat, option: LinkOption, list: seq<Cell>)
      modifies this`links
      ensures links == AddLinks(old(links), size, option, peer, list)
    {
      var i := 0;
      while i < |list|
        invariant i <= |list| && links == old(links) && FirstValid(list[i..]) == FirstValid(list)
      {
        assert list[i..][1..] == list[i + 1..];
        if list[i].timeslot != NO_SLOT {
          var ok := AddLinkAt(Link(list[i].timeslot, list[i].channel, option, peer), true);
          return;
        }
        i := i + 1;
      }
    }

    /** remove_links_to_schedule: all the cells. */
    method RemoveLinksFromSchedule(list: seq<Cell>)
      modifies this`links
      ensures links == RemoveLinks(old(links), list)
    {
      var i := 0;
      assert list[..0] == [];
      while i < |list|
        invariant i <= |list| && links == RemoveLinks(old(links), list[..i])
      {
        assert list[..i + 1][..i] == list[..i];
        if list[i].timeslot != NO_SLOT {
          var r := RemoveByOffsets(list[i]);
        }
        i := i + 1;
      }
      assert list[..i] == list;
    }

    // ---------------------------------------------------------- the responder's side

    /** The search of add_req_input and relocate_req_input for candidates in free timeslots. */
    method Search(cands: seq<Cell>, numCells: nat) returns (feasible: nat)
      modifies this`resStorage
      ensures var list := Feasible(links, cands, numCells);
              feasible == |list| && resStorage == Packed(RES_STORAGE, list)
    {
      resStorage := Zeros(RES_STORAGE);
      feasible := 0;
      ghost var got: seq<Cell> := [];
      var i := 0;
      while i < |cands| && feasible < numCells
        invariant i <= |cands| && feasible == |got| <= numCells && resStorage == Packed(RES_STORAGE, got)
        invariant Feasible(links, cands, numCells) == got + Feasible(links, cands[i..], numCells - feasible)
      {
        SearchNext(links, cands, numCells, i, got);
        var k := LinkByTimeslot(cands[i].timeslot);
        if k == -1 {
          PackedNext(RES_STORAGE, got, cands[i]);
          resStorage := SetCell(resStorage, feasible, cands[i]);
          got := got + [cands[i]];
          feasible := feasible + 1;
        }
        i := i + 1;
      }
      assert Feasible(links, cands[i..], numCells - feasible) == [] && got + [] == got;
    }

    /** add_req_input: the response's cell list, if a response is sent, as it lies in the storage. */
    method AddReqInput(numCells: nat, cands: seq<Cell>) returns (res: Option<seq<Cell>>)
      requires 4 * numCells <= RES_STORAGE
      modifies this`resStorage
      ensures res == Offer(links, numCells, cands, RES_STORAGE)
    {
      res := None;
      if numCells > 0 && |cands| > 0 {
        var feasible := Search(cands, numCells);
        if feasible == numCells {
          res := Some(CellsIn(resStorage, numCells));
        }
      }
    }

    /** delete_req_input. */
    method DeleteReqInput(numCells: nat, list: seq<Cell>) returns (res: Option<seq<Cell>>)
      requires 4 * |list| <= RES_STORAGE
      modifies this`resStorage
      ensures res == Some(Deletion(links, numCells, list, RES_STORAGE))
    {
      resStorage := Zeros(RES_STORAGE);
      var count := 0;
      assert list[..0] == [];
      if numCells > 0 && |list| > 0 {
        var i := 0;
        while i < |list|
          invariant i <= |list| && count == |Found(links, list[..i])|
          invariant resStorage == Stacked(RES_STORAGE, Found(links, list[..i]))
        {
          assert list[..i + 1][..i] == list[..i];
          var k := LinkByOffsets(list[i]);
          assert k != -1 ==> links[k] in links;
          assert k != -1 <==> Scheduled(links, list[i]);
          StackedNext(RES_STORAGE, Found(links, list[..i]), list[i]);
          if k != -1 {
            resStorage := SetCell(resStorage, 0, list[i]);
            count := count + 1;
          }
          i := i + 1;
        }
        assert list[..i] == list;
      }
      res := Some(CellsIn(resStorage, count));
    }

    /** relocate_req_input. */
    method RelocateReqInput(numCells: nat, rel: seq<Cell>, cands: seq<Cell>) returns (res: Option<seq<Cell>>)
      requires 4 * numCells <= RES_STORAGE
      modifies this`resStorage, this`currentCell
      ensures res == if rel == [] then None else Offer(links, numCells, cands, RES_STORAGE)
      ensures currentCell == if res.Some? then rel[0] else old(currentCell)
    {
      res := None;
      if numCells > 0 && |rel| > 0 && |cands| > 0 {
        var feasible := Search(cands, numCells);
        if feasible == numCells {
          currentCell := rel[0];
          res := Some(CellsIn(resStorage, numCells));
        }
      }
    }

    /** request_input, for requests for one cell. */
    method RequestInput(req: Request) returns (res: Option<seq<Cell>>)
      modifies this`resStorage, this`currentCell
      ensures res == Response(links, req)
      ensures currentCell == if req.Relocate? && res.Some? then req.cell else old(currentCell)
    {
      var one := 1;
      match req {
        case Add(cands) =>
          OneOffered(links, cands, one, RES_STORAGE);
          res := AddReqInput(one, cands);
        case Delete(cell) =>
          OneDeleted(links, cell, one, RES_STORAGE);
          res := DeleteReqInput(one, [cell]);
        case Relocate(cell, cands) =>
          OneOffered(links, cands, one, RES_STORAGE);
          res := RelocateReqInput(one, [cell], cands);
      }
    }

    /** The three response-sent callbacks: nothing is done unless the response was sent. */
    method ResponseSent(success: bool, peer: nat, req: Request, res: seq<Cell>)
      requires req.Relocate? && success ==> currentCell == req.cell
      modifies this`links
      ensures links == if success then Commit(old(links), size, Rx, peer, req, res) else old(links)
    {
      if success {
        match req {
          case Add(_) =>
            AddLinksToSchedule(peer, Rx, res);
          case Delete(_) =>
            RemoveLinksFromSchedule(res);
          case Relocate(_, _) =>
            AddLinksToSchedule(peer, Rx, res);
            RemoveLinksFromSchedule([currentCell]);
        }
      }
    }

    // ---------------------------------------------------------- the initiator's side

    /** What the initiator remembers when it sends a request: sf_simple_relocate_links stores the cell to move. */
    method SendRequest(req: Request)
      modifies this`currentCell
      ensures currentCell == if req.Relocate? then req.cell else old(currentCell)
    {
      if req.Relocate? {
        currentCell := req.cell;
      }
    }

    /** response_input for a response with return code SUCCESS to the transaction's command. */
    method ResponseInput(peer: nat, req: Request, res: seq<Cell>)
      requires req.Relocate? ==> currentCell == req.cell
      modifies this`links
      ensures links == Commit(old(links), size, Tx, peer, req, res)
    {
      match req {
        case Add(_) =>
          AddLinksToSchedule(peer, Tx, res);
        case Delete(_) =>
          RemoveLinksFromSchedule(res);
        case Relocate(_, _) =>
          AddLinksToSchedule(peer, Tx, res);
          RemoveLinksFromSchedule([currentCell]);
      }
    }

    /** The search of sf_simple_remove_links: the earliest cell for sending to the peer, on channel offset 0 only. */
    method CellToDelete(peer: nat) returns (c: Option<Cell>)
      requires OnePerSlot(links)
      ensures c.Some? ==> c.value in CellsTo(links, Tx, peer) && c.value.channel == 0 && c.value.timeslot < size
      ensures forall ts :: 0 <= ts < (if c.Some? then c.value.timeslot else size) ==>
              Cell(ts, 0) !in CellsTo(links, Tx, peer)
    {
      var i := 0;
      while i < size
        invariant i <= size
        invariant forall ts :: 0 <= ts < i ==> Cell(ts, 0) !in CellsTo(links, Tx, peer)
      {
        var k := LinkByOffsets(Cell(i, 0));
        if k != -1 {
          OnlyLink(links, k, Cell(i, 0));
          if links[k].peer == peer && links[k].option == Tx {
            assert links[k] in links && CellOf(links[k]) == Cell(i, links[k].channel);
            return Some(Cell(i, links[k].channel));
          }
        }
        i := i + 1;
      }
      c := None;
    }
  }

  lemma SlotOnce(s: seq<Link>, j: nat, k: nat)
    requires OnePerSlot(s) && j < |s| && k < |s|
    ensures s[j].timeslot == s[k].timeslot <==> j == k
  {
  }

  lemma OnlyLink(s: seq<Link>, k: nat, c: Cell)
    requires OnePerSlot(s) && k < |s| && CellOf(s[k]) == c
    ensures forall l {:trigger l in s} :: l in s && CellOf(l) == c ==> l == s[k]
  {
    forall l {:trigger l in s} | l in s && CellOf(l) == c ensures l == s[k] {
      var j :| 0 <= j < |s| && s[j] == l;
      SlotOnce(s, j, k);
    }
  }

  /** A child that initiates and a parent that responds. */
  class Pair {
    const child: Node
    const parent: Node
    var phase: Phase

    ghost predicate Valid()
      reads this, child, parent
    {
      && child != parent && child.size == parent.size
      && (!phase.Idle? && phase.req.Relocate? ==> child.currentCell == phase.req.cell)
      && (!phase.Idle? && !phase.Requested? && phase.req.Relocate? ==> parent.currentCell == phase.req.cell)
    }

    ghost function Net(): Setup
    {
      Setup(child.self, parent.self, child.size)
    }

    ghost function View(): World
      reads this, child, parent
    {
      World(child.links, parent.links, phase)
    }

    constructor (c: Node, p: Node)
      requires c != p && c.size == p.size
      ensures Valid() && child == c && parent == p && phase == Idle
    {
      child, parent, phase := c, p, Idle;
    }

    /** One step of the nodes or of the network between them. */
    method Handle(e: Event)
      requires Valid() && Enabled(View(), e)
      modifies this, child, parent
      ensures Valid() && View() == Step(Net(), old(View()), e)
    {
      match e {
        case Start(req) =>
          child.SendRequest(req);
          phase := Requested(req);
        case RequestLost =>
          phase := Idle;
        case RequestArrives =>
          var res := parent.RequestInput(phase.req);
          phase := if res.None? then Idle else Responded(phase.req, res.value);
        case ResponseLost =>
          parent.ResponseSent(false, child.self, phase.req, phase.res);
          phase := Idle;
        case InitiatorCommits =>
          var was := child.links;
          child.ResponseInput(parent.self, phase.req, phase.res);
          phase := if phase.Responded? then InitiatorDone(phase.req, phase.res, was) else Idle;
        case ResponderCommits =>
          var was := parent.links;
          parent.ResponseSent(true, child.self, phase.req, phase.res);
          phase := if phase.Responded? then ResponderDone(phase.req, phase.res, was) else Idle;
      }
    }

    /** A whole run. */
    method Run(es: seq<Event>)
      requires Valid() && phase.Idle? && InStep(Net(), child.links, parent.links) && LegalRun(Net(), View(), es)
      modifies this, child, parent
      ensures Valid() && View() == After(Net(), old(View()), es) && Safe(View())
      ensures phase.Idle? || phase.Requested? || phase.Responded? ==>
                && InStep(Net(), child.links, parent.links)
                && CellsTo(child.links, Tx, parent.self) == CellsTo(parent.links, Rx, child.self)
    {
      RunsAreSafe(Net(), View(), es);
      ghost var end := After(Net(), View(), es);
      var i := 0;
      assert es[0..] == es;
      while i < |es|
        invariant i <= |es| && Valid() && LegalRun(Net(), View(), es[i..]) && After(Net(), View(), es[i..]) == end
      {
        assert es[i..][0] == es[i] && es[i..][1..] == es[i + 1..];
        Handle(es[i]);
        i := i + 1;
      }
    }
  }
}
