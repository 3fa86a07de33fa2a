/**
 What a 6P transaction that both nodes commit does to each schedule, link by link, and what one does that is lost on
 the way.
 */
module SixpEffect {
  import opened SixpSpec

  /** Removing a cell takes out the one link at it, and every other link stays where it was. */
  lemma {:induction false} WithoutIs(s: seq<Link>, c: Cell, k: nat)
    requires OnePerSlot(s) && k < |s| && CellOf(s[k]) == c
    ensures Without(s, c) == DropAt(s, k)
  {
    var h, l := s[..|s| - 1], s[|s| - 1];
    if k == |s| - 1 {
      WithoutNone(h, c);
    } else {
      WithoutIs(h, c, k);
      assert s[k].timeslot != l.timeslot;
    }
  }

  lemma {:induction false} WithoutNone(s: seq<Link>, c: Cell)
    requires forall k: nat {:trigger s[k]} :: k < |s| ==> s[k].timeslot != c.timeslot
    ensures Without(s, c) == s
  {
    if s != [] {
      WithoutNone(s[..|s| - 1], c);
      assert CellOf(s[|s| - 1]) != c;
    }
  }

  lemma OneRemoved(s: seq<Link>, c: Cell, k: nat)
    requires OnePerSlot(s) && k < |s| && CellOf(s[k]) == c && c.timeslot != NO_SLOT
    ensures RemoveLinks(s, [c]) == DropAt(s, k)
  {
    assert [c][..0] == [] && RemoveLinks(s, []) == s;
    WithoutIs(s, c, k);
  }

  /** In a slotframe with one link per timeslot, a link that is added takes the place of the one in its timeslot. */
  lemma AddLinkReplaces(s: seq<Link>, size: nat, l: Link, x: Link)
    requires OnePerSlot(s)
    ensures x in AddLink(s, size, l) <==>
              if l.timeslot < size then x == l || (x in s && x.timeslot != l.timeslot) else x in s
  {
    var k := FindSlot(s, l.timeslot);
    if l.timeslot < size && k != -1 {
      var d := DropAt(s, k);
      if j: nat :| j < |s| && s[j] == x {
        assert j < k ==> d[j] == x;
        assert j > k ==> d[j - 1] == x;
      }
      if x in d {
        var j :| 0 <= j < |d| && d[j] == x;
        assert s[if j < k then j else j + 1] == x;
      }
    }
  }

  /** A commit of ADD appends the link, or changes nothing if the cell lies outside the slotframe. */
  lemma AddCommitted(net: Setup, s: seq<Link>, option: LinkOption, peer: nat, cands: seq<Cell>, c: Cell)
    requires OnePerSlot(s) && c.timeslot !in Occupied(s) && net.size <= NO_SLOT
    ensures Commit(s, net.size, option, peer, Add(cands), [c]) ==
            if c.timeslot < net.size then s + [Link(c.timeslot, c.channel, option, peer)] else s
  {
    AddOne(s, net.size, option, peer, c);
    if c.timeslot < net.size {
      AddFree(s, net.size, Link(c.timeslot, c.channel, option, peer));
    }
  }

  /** A commit of DELETE takes out the link at the cell. */
  lemma DeleteCommitted(net: Setup, s: seq<Link>, option: LinkOption, peer: nat, c: Cell, k: nat)
    requires OnePerSlot(s) && k < |s| && CellOf(s[k]) == c && c.timeslot != NO_SLOT
    ensures Commit(s, net.size, option, peer, Delete(c), [c]) == DropAt(s, k)
  {
    OneRemoved(s, c, k);
  }

  /** A commit of RELOCATE takes out the link at the old cell and appends one at the new cell. */
  lemma RelocateCommitted(net: Setup, s: seq<Link>, option: LinkOption, peer: nat, cell: Cell, cands: seq<Cell>,
      c: Cell, k: nat)
    requires OnePerSlot(s) && k < |s| && CellOf(s[k]) == cell && cell.timeslot != NO_SLOT
    requires c.timeslot !in Occupied(s) && c.timeslot < net.size <= NO_SLOT
    ensures Commit(s, net.size, option, peer, Relocate(cell, cands), [c]) ==
            DropAt(s, k) + [Link(c.timeslot, c.channel, option, peer)]
  {
    var l := Link(c.timeslot, c.channel, option, peer);
    AddCommitted(net, s, option, peer, cands, c);
    AddFree(s, net.size, l);
    DropBeforeLast(s, l, k);
    OneRemoved(s + [l], cell, k);
  }

  lemma DropBeforeLast(s: seq<Link>, l: Link, k: nat)
    requires k < |s|
    ensures (s + [l])[k] == s[k] && DropAt(s + [l], k) == DropAt(s, k) + [l]
  {
  }

  // ------------------------------------------------------------- transactions

  /** The events of a transaction that nothing is lost of; either node may commit first. */
  function Delivered(req: Request, initiatorFirst: bool): seq<Event>
  {
    [Start(req), RequestArrives] +
    if initiatorFirst then [InitiatorCommits, ResponderCommits] else [ResponderCommits, InitiatorCommits]
  }

  lemma RunOne(net: Setup, w: World, e: Event, es: seq<Event>)
    requires Enabled(w, e) && LegalRun(net, Step(net, w, e), es)
    ensures LegalRun(net, w, [e] + es) && After(net, w, [e] + es) == After(net, Step(net, w, e), es)
  {
    assert ([e] + es)[1..] == es;
  }

  lemma RunTwo(net: Setup, w: World, d: Event, e: Event)
    requires Enabled(w, d) && Enabled(Step(net, w, d), e)
    ensures LegalRun(net, w, [d, e]) && After(net, w, [d, e]) == Step(net, Step(net, w, d), e)
  {
    var v := Step(net, w, d);
    assert LegalRun(net, Step(net, v, e), []);
    RunOne(net, v, e, []);
    RunOne(net, w, d, [e]);
    assert [e] + [] == [e] && [d] + [e] == [d, e];
  }

  /** It ends with the commits of both nodes. */
  lemma DeliveredCommits(net: Setup, w: World, req: Request, initiatorFirst: bool)
    requires w.phase.Idle? && Response(w.r, req).Some?
    ensures var res, es := Response(w.r, req).value, Delivered(req, initiatorFirst);
            && LegalRun(net, w, es)
            && After(net, w, es) == World(Commit(w.i, net.size, Tx, net.responder, req, res),
                                          Commit(w.r, net.size, Rx, net.initiator, req, res), Idle)
  {
    var u := Step(net, w, Start(req));
    var v := Step(net, u, RequestArrives);
    var rest := if initiatorFirst then [InitiatorCommits, ResponderCommits] else [ResponderCommits, InitiatorCommits];
    RunTwo(net, v, rest[0], rest[1]);
    RunOne(net, u, RequestArrives, rest);
    RunOne(net, w, Start(req), [RequestArrives] + rest);
    assert Delivered(req, initiatorFirst) == [Start(req)] + ([RequestArrives] + rest);
  }

  /** A request that is lost, one that is not answered, and a response that is lost change nothing. */
  lemma LostChangesNothing(net: Setup, w: World, req: Request)
    requires w.phase.Idle?
    ensures LegalRun(net, w, [Start(req), RequestLost]) && After(net, w, [Start(req), RequestLost]) == w
    ensures LegalRun(net, w, [Start(req), RequestArrives])
    ensures Response(w.r, req).None? ==> After(net, w, [Start(req), RequestArrives]) == w
    ensures Response(w.r, req).Some? ==>
              && LegalRun(net, w, [Start(req), RequestArrives, ResponseLost])
              && After(net, w, [Start(req), RequestArrives, ResponseLost]) == w
  {
    RunTwo(net, w, Start(req), RequestLost);
    RunTwo(net, w, Start(req), RequestArrives);
    if Response(w.r, req).Some? {
      RunTwo(net, Step(net, w, Start(req)), RequestArrives, ResponseLost);
      RunOne(net, w, Start(req), [RequestArrives, ResponseLost]);
      assert [Start(req)] + [RequestArrives, ResponseLost] == [Start(req), RequestArrives, ResponseLost];
    }
  }

  /** A delivered DELETE of a cell of the initiator: the cell is gone at both nodes, with exactly the link at it, and
      every other link is where it was. */
  lemma DeleteDelivered(net: Setup, w: World, c: Cell, initiatorFirst: bool, j: nat, k: nat)
    requires w.phase.Idle? && InStep(net, w.i, w.r) && c.timeslot != NO_SLOT
    requires j < |w.i| && CellOf(w.i[j]) == c && k < |w.r| && CellOf(w.r[k]) == c
    ensures LegalRun(net, w, Delivered(Delete(c), initiatorFirst))
    ensures var v := After(net, w, Delivered(Delete(c), initiatorFirst));
            && v == World(DropAt(w.i, j), DropAt(w.r, k), Idle)
            && c !in Cells(v.i) && c !in Cells(v.r) && |v.i| == |w.i| - 1 && |v.r| == |w.r| - 1
  {
    assert w.r[k] in w.r;
    assert Response(w.r, Delete(c)) == Some([c]);
    DeliveredCommits(net, w, Delete(c), initiatorFirst);
    DeleteCommitted(net, w.i, Tx, net.responder, c, j);
    DeleteCommitted(net, w.r, Rx, net.initiator, c, k);
    WithoutSlots(w.i, c);
    WithoutSlots(w.r, c);
    WithoutIs(w.i, c, j);
    WithoutIs(w.r, c, k);
  }

  /** What the initiator has scheduled, the responder has too. */
  lemma ScheduledAtBoth(net: Setup, i: seq<Link>, r: seq<Link>, j: nat) returns (k: nat)
    requires InStep(net, i, r) && j < |i|
    ensures k < |r| && CellOf(r[k]) == CellOf(i[j])
  {
    assert i[j] in i && CellOf(i[j]) in Cells(r);
    k :| 0 <= k < |r| && CellOf(r[k]) == CellOf(i[j]);
  }

  /** A delivered ADD for which the responder offers a cell of the slotframe: both nodes get one link there, for sending
      and for receiving, and keep all others. */
  lemma AddDelivered(net: Setup, w: World, cands: seq<Cell>, initiatorFirst: bool)
    requires w.phase.Idle? && InStep(net, w.i, w.r) && net.size <= NO_SLOT && FirstFree(w.r, cands).Some?
    requires FirstFree(w.r, cands).value.timeslot < net.size
    ensures LegalRun(net, w, Delivered(Add(cands), initiatorFirst))
    ensures var c := FirstFree(w.r, cands).value;
            After(net, w, Delivered(Add(cands), initiatorFirst)) ==
            World(w.i + [Link(c.timeslot, c.channel, Tx, net.responder)],
                  w.r + [Link(c.timeslot, c.channel, Rx, net.initiator)], Idle)
  {
    var c := FirstFree(w.r, cands).value;
    FirstFreeIs(w.r, cands);
    CellsInside(w.i, w.r);
    DeliveredCommits(net, w, Add(cands), initiatorFirst);
    AddCommitted(net, w.i, Tx, net.responder, cands, c);
    AddCommitted(net, w.r, Rx, net.initiator, cands, c);
  }

  /** A delivered RELOCATE of a cell of the initiator to a cell of the slotframe: the link at the old cell goes and one
      at the new cell comes in, at both nodes. */
  lemma RelocateDelivered(net: Setup, w: World, cell: Cell, cands: seq<Cell>, initiatorFirst: bool, j: nat, k: nat)
    requires w.phase.Idle? && InStep(net, w.i, w.r) && net.size <= NO_SLOT && cell.timeslot != NO_SLOT
    requires j < |w.i| && CellOf(w.i[j]) == cell && k < |w.r| && CellOf(w.r[k]) == cell
    requires FirstFree(w.r, cands).Some? && FirstFree(w.r, cands).value.timeslot < net.size
    ensures LegalRun(net, w, Delivered(Relocate(cell, cands), initiatorFirst))
    ensures var c := FirstFree(w.r, cands).value;
            After(net, w, Delivered(Relocate(cell, cands), initiatorFirst)) ==
            World(DropAt(w.i, j) + [Link(c.timeslot, c.channel, Tx, net.responder)],
                  DropAt(w.r, k) + [Link(c.timeslot, c.channel, Rx, net.initiator)], Idle)
  {
    var c := FirstFree(w.r, cands).value;
    FirstFreeIs(w.r, cands);
    CellsInside(w.i, w.r);
    DeliveredCommits(net, w, Relocate(cell, cands), initiatorFirst);
    RelocateCommitted(net, w.i, Tx, net.responder, cell, cands, c, j);
    RelocateCommitted(net, w.r, Rx, net.initiator, cell, cands, c, k);
  }

  /** The cell that is offered is the first candidate in a free timeslot. */
  lemma {:induction false} FirstFreeFirst(s: seq<Link>, cands: seq<Cell>) returns (k: nat)
    requires FirstFree(s, cands).Some?
    ensures k < |cands| && FirstFree(s, cands).value == cands[k] && cands[k].timeslot !in Occupied(s)
    ensures forall j: nat {:trigger cands[j]} :: j < k ==> cands[j].timeslot in Occupied(s)
  {
    OccupiedIs(s, cands[0].timeslot);
    if FindSlot(s, cands[0].timeslot) == -1 {
      k := 0;
    } else {
      k := FirstFreeFirst(s, cands[1..]);
      k := k + 1;
      assert forall j: nat {:trigger cands[j]} :: 0 < j < k ==> cands[j] == cands[1..][j - 1];
    }
  }
}
