/**
 The cell lists of 6P responses as examples/ba_benjamin_ko/sf-simple.c writes them into its storage, for any number of
 cells, and what both nodes read there. An entry of the storage is a byte if the cells' numbers have 16 bits.
 */
module SixpCells {
  import opened SixpSpec

  /** The size of res_storage. */
  const RES_STORAGE: nat := 20

  function CellBytes(c: Cell): (s: seq<nat>)
    ensures |s| == 4
  {
    [c.timeslot % 256, c.timeslot / 256, c.channel % 256, c.channel / 256]
  }

  /** read_cell for the j-th cell. */
  function CellAt(body: seq<nat>, j: nat): Cell
    requires 4 * j + 4 <= |body|
  {
    Cell(body[4 * j] + 256 * body[4 * j + 1], body[4 * j + 2] + 256 * body[4 * j + 3])
  }

  /** The first n cells. */
  function CellsIn(body: seq<nat>, n: nat): (list: seq<Cell>)
    requires 4 * n <= |body|
    ensures |list| == n
  {
    seq(n, j requires 0 <= j < n => CellAt(body, j))
  }

  /** sixp_pkt_set_cell_list for one cell, whose offset is counted in bytes. */
  function SetCell(body: seq<nat>, offset: nat, c: Cell): (r: seq<nat>)
    ensures |r| == |body|
  {
    if offset + 4 > |body| then body else body[..offset] + CellBytes(c) + body[offset + 4..]
  }

  function Zeros(n: nat): (s: seq<nat>)
    ensures |s| == n
  {
    seq(n, _ => 0)
  }

  // ---------------------------------------------------------- ADD and RELOCATE

  /** The first n candidates in whose timeslots there is no link. */
  function Feasible(s: seq<Link>, cands: seq<Cell>, n: nat): (list: seq<Cell>)
    ensures |list| <= n
  {
    if cands == [] || n == 0 then []
    else if FindSlot(s, cands[0].timeslot) == -1 then [cands[0]] + Feasible(s, cands[1..], n - 1)
    else Feasible(s, cands[1..], n)
  }

  /** The cells one after the other, each at the offset that is its number. */
  function Packed(size: nat, list: seq<Cell>): (body: seq<nat>)
    ensures |body| == size
  {
    if list == [] then Zeros(size)
    else SetCell(Packed(size, list[..|list| - 1]), |list| - 1, list[|list| - 1])
  }

  /** The cells of the response to a request for n cells, if there is one. */
  function Offer(s: seq<Link>, n: nat, cands: seq<Cell>, size: nat): Option<seq<Cell>>
    requires 4 * n <= size
  {
    var list := Feasible(s, cands, n);
    if n == 0 || |list| != n then None else Some(CellsIn(Packed(size, list), n))
  }

  /** The i-th candidate, when those in got were found before it. */
  lemma SearchNext(s: seq<Link>, cands: seq<Cell>, n: nat, i: nat, got: seq<Cell>)
    requires i < |cands| && |got| < n && Feasible(s, cands, n) == got + Feasible(s, cands[i..], n - |got|)
    ensures var more := if FindSlot(s, cands[i].timeslot) == -1 then got + [cands[i]] else got;
            Feasible(s, cands, n) == more + Feasible(s, cands[i + 1..], n - |more|)
  {
    assert cands[i..][1..] == cands[i + 1..];
  }

  lemma PackedNext(size: nat, got: seq<Cell>, c: Cell)
    ensures Packed(size, got + [c]) == SetCell(Packed(size, got), |got|, c)
  {
    assert (got + [c])[..|got|] == got;
  }

  lemma StackedNext(size: nat, got: seq<Cell>, c: Cell)
    ensures Stacked(size, got + [c]) == SetCell(Stacked(size, got), 0, c) && got + [] == got
  {
    assert (got + [c])[..|got|] == got;
  }

  /** What is left of the cells: only the first byte of each but the last. */
  function ByteAt(list: seq<Cell>, k: nat): nat
    requires list != []
  {
    if k < |list| - 1 then list[k].timeslot % 256
    else if k < |list| + 3 then CellBytes(list[|list| - 1])[k - (|list| - 1)]
    else 0
  }

  lemma {:induction false} PackedAt(size: nat, list: seq<Cell>, k: nat)
    requires list != [] && |list| + 3 <= size && k < size
    ensures Packed(size, list)[k] == ByteAt(list, k)
  {
    var h := list[..|list| - 1];
    if h != [] {
      PackedAt(size, h, k);
    }
  }

  lemma PackedCell(size: nat, list: seq<Cell>, j: nat)
    requires list != [] && j < |list| && 4 * |list| <= size
    ensures CellAt(Packed(size, list), j) ==
            Cell(ByteAt(list, 4 * j) + 256 * ByteAt(list, 4 * j + 1),
                 ByteAt(list, 4 * j + 2) + 256 * ByteAt(list, 4 * j + 3))
  {
    PackedAt(size, list, 4 * j);
    PackedAt(size, list, 4 * j + 1);
    PackedAt(size, list, 4 * j + 2);
    PackedAt(size, list, 4 * j + 3);
  }

  /** The accepted cells are a first cell with channel offset 0 and a timeslot of one byte, and cells (0, 0). */
  predicate Plain(list: seq<Cell>)
  {
    && list != [] && list[0].channel == 0 && list[0].timeslot < 256
    && forall j: nat {:trigger list[j]} :: 1 <= j < |list| ==> list[j] == Cell(0, 0)
  }

  /** What both nodes read in the response are the accepted cells iff it is only one, or nothing but zeros follows the
      first byte. */
  lemma OfferListed(size: nat, list: seq<Cell>)
    requires list != [] && 4 * |list| <= size
    ensures CellsIn(Packed(size, list), |list|) == list <==> |list| == 1 || Plain(list)
  {
    if |list| == 1 {
      PackedCell(size, list, 0);
    } else {
      if Plain(list) {
        PlainListed(size, list);
      }
      if CellsIn(Packed(size, list), |list|) == list {
        ListedPlain(size, list);
      }
    }
  }

  lemma PlainListed(size: nat, list: seq<Cell>)
    requires |list| > 1 && Plain(list) && 4 * |list| <= size
    ensures CellsIn(Packed(size, list), |list|) == list
  {
    forall j | 0 <= j < |list|
      ensures CellAt(Packed(size, list), j) == list[j]
    {
      PlainCell(size, list, j);
    }
  }

  lemma PlainCell(size: nat, list: seq<Cell>, j: nat)
    requires |list| > 1 && j < |list| && Plain(list) && 4 * |list| <= size
    ensures CellAt(Packed(size, list), j) == list[j]
  {
    PackedCell(size, list, j);
    PlainBytes(list, 4 * j);
    PlainBytes(list, 4 * j + 1);
    PlainBytes(list, 4 * j + 2);
    PlainBytes(list, 4 * j + 3);
  }

  lemma PlainBytes(list: seq<Cell>, k: nat)
    requires |list| > 1 && Plain(list)
    ensures ByteAt(list, k) == if k == 0 then list[0].timeslot else 0
  {
  }

  lemma ListedPlain(size: nat, list: seq<Cell>)
    requires |list| > 1 && 4 * |list| <= size && CellsIn(Packed(size, list), |list|) == list
    ensures Plain(list)
  {
    TailIsZero(size, list, 1);
    PackedCell(size, list, 0);
    TailBytes(list, 1, 1);
    TailBytes(list, 1, 2);
    TailBytes(list, 1, 3);
    assert list[0] == CellAt(Packed(size, list), 0);
  }

  /** If the response lists the cells, those from the second one on are (0, 0). */
  lemma {:induction false} TailIsZero(size: nat, list: seq<Cell>, j: nat)
    requires 1 <= j < |list| && 4 * |list| <= size && CellsIn(Packed(size, list), |list|) == list
    ensures forall i: nat {:trigger list[i]} :: j <= i < |list| ==> list[i] == Cell(0, 0)
    decreases |list| - j
  {
    assert list[j] == CellAt(Packed(size, list), j);
    if j + 1 < |list| {
      TailIsZero(size, list, j + 1);
      ZeroCell(size, list, j);
    } else {
      PackedCell(size, list, j);
      LastIsZero(list);
    }
  }

  lemma ZeroCell(size: nat, list: seq<Cell>, j: nat)
    requires 1 <= j && j + 1 < |list| && 4 * |list| <= size
    requires forall i: nat {:trigger list[i]} :: j + 1 <= i < |list| ==> list[i] == Cell(0, 0)
    ensures CellAt(Packed(size, list), j) == Cell(0, 0)
  {
    PackedCell(size, list, j);
    TailBytes(list, j + 1, 4 * j);
    TailBytes(list, j + 1, 4 * j + 1);
    TailBytes(list, j + 1, 4 * j + 2);
    TailBytes(list, j + 1, 4 * j + 3);
  }

  lemma TailBytes(list: seq<Cell>, j: nat, k: nat)
    requires j < |list| && forall i: nat {:trigger list[i]} :: j <= i < |list| ==> list[i] == Cell(0, 0)
    requires k >= j
    ensures ByteAt(list, k) == 0
  {
  }

  lemma LastIsZero(list: seq<Cell>)
    requires |list| > 1
    requires var b := 4 * |list| - 4;
             list[|list| - 1] == Cell(ByteAt(list, b) + 256 * ByteAt(list, b + 1),
                                      ByteAt(list, b + 2) + 256 * ByteAt(list, b + 3))
    ensures list[|list| - 1] == Cell(0, 0)
  {
  }

  /** A request for one cell is answered as the protocol's state machine has it. */
  lemma OneOffered(s: seq<Link>, cands: seq<Cell>, n: nat, size: nat)
    requires n == 1 && 4 <= size
    ensures Offer(s, n, cands, size) == ListOf(FirstFree(s, cands))
  {
    OneFeasible(s, cands, n);
    var list := Feasible(s, cands, n);
    if list != [] {
      OfferListed(size, list);
    }
  }

  lemma {:induction false} OneFeasible(s: seq<Link>, cands: seq<Cell>, n: nat)
    requires n == 1
    ensures Feasible(s, cands, n) == if FirstFree(s, cands).None? then [] else [FirstFree(s, cands).value]
  {
    if cands != [] && FindSlot(s, cands[0].timeslot) != -1 {
      OneFeasible(s, cands[1..], n);
    }
  }

  // -------------------------------------------------------------------- DELETE

  ghost predicate Scheduled(s: seq<Link>, c: Cell)
  {
    exists l {:trigger l in s} :: l in s && CellOf(l) == c
  }

  ghost function Found(s: seq<Link>, list: seq<Cell>): (r: seq<Cell>)
    ensures |r| <= |list|
  {
    if list == [] then []
    else Found(s, list[..|list| - 1]) + if Scheduled(s, list[|list| - 1]) then [list[|list| - 1]] else []
  }

  /** The cells one after the other, all at the same offset. */
  function Stacked(size: nat, list: seq<Cell>): (body: seq<nat>)
    ensures |body| == size
  {
    if list == [] then Zeros(size) else SetCell(Stacked(size, list[..|list| - 1]), 0, list[|list| - 1])
  }

  /** The cells of the response. */
  ghost function Deletion(s: seq<Link>, n: nat, list: seq<Cell>, size: nat): seq<Cell>
    requires 4 * |list| <= size
  {
    if n == 0 then [] else CellsIn(Stacked(size, Found(s, list)), |Found(s, list)|)
  }

  lemma {:induction false} StackedAt(size: nat, list: seq<Cell>, k: nat)
    requires list != [] && 4 <= size && k < size
    ensures Stacked(size, list)[k] == if k < 4 then CellBytes(list[|list| - 1])[k] else 0
  {
    var h := list[..|list| - 1];
    if h != [] {
      StackedAt(size, h, k);
    }
  }

  /** The response lists the last of the cells, and the cell (0, 0) for each of the others. */
  lemma DeletionIs(size: nat, list: seq<Cell>)
    requires list != [] && 4 * |list| <= size
    ensures CellsIn(Stacked(size, list), |list|) == [list[|list| - 1]] + seq(|list| - 1, _ => Cell(0, 0))
  {
    var body := Stacked(size, list);
    forall j | 0 <= j < |list|
      ensures CellAt(body, j) == if j == 0 then list[|list| - 1] else Cell(0, 0)
    {
      StackedAt(size, list, 4 * j);
      StackedAt(size, list, 4 * j + 1);
      StackedAt(size, list, 4 * j + 2);
      StackedAt(size, list, 4 * j + 3);
    }
  }

  /** These are the cells that were found iff it is at most one, or all are (0, 0). */
  lemma DeletionListed(size: nat, list: seq<Cell>)
    requires 4 * |list| <= size
    ensures CellsIn(Stacked(size, list), |list|) == list <==>
              |list| <= 1 || forall j: nat {:trigger list[j]} :: j < |list| ==> list[j] == Cell(0, 0)
  {
    if list != [] {
      DeletionIs(size, list);
      var r := [list[|list| - 1]] + seq(|list| - 1, _ => Cell(0, 0));
      if r == list {
        assert forall j: nat {:trigger list[j]} :: 1 <= j < |list| ==> list[j] == r[j];
      }
    }
  }

  /** So a request to delete more than one cell deletes the last of them that is scheduled, and the cell (0, 0). */
  lemma DeletesLast(s: seq<Link>, size: nat, list: seq<Cell>)
    requires |list| > 1 && 4 * |list| <= size && list[|list| - 1].timeslot != NO_SLOT
    ensures RemoveLinks(s, CellsIn(Stacked(size, list), |list|)) == Without(Without(s, list[|list| - 1]), Cell(0, 0))
  {
    var c := list[|list| - 1];
    DeletionIs(size, list);
    RemoveZeros(s, c, |list| - 1);
  }

  lemma {:induction false} RemoveZeros(s: seq<Link>, c: Cell, n: nat)
    requires n > 0 && c.timeslot != NO_SLOT
    ensures RemoveLinks(s, [c] + seq(n, _ => Cell(0, 0))) == Without(Without(s, c), Cell(0, 0))
  {
    var list := [c] + seq(n, _ => Cell(0, 0));
    assert list[..|list| - 1] == [c] + seq(n - 1, _ => Cell(0, 0)) && list[|list| - 1] == Cell(0, 0);
    if n > 1 {
      RemoveZeros(s, c, n - 1);
      WithoutNothing(Without(s, c), Cell(0, 0));
    } else {
      assert [c] + seq(n - 1, _ => Cell(0, 0)) == [c];
      assert RemoveLinks(s, [c]) == Without(s, c);
    }
  }

  lemma {:induction false} WithoutNothing(s: seq<Link>, c: Cell)
    ensures Without(Without(s, c), c) == Without(s, c)
  {
    if s != [] {
      WithoutNothing(s[..|s| - 1], c);
      var r := Without(s[..|s| - 1], c);
      if CellOf(s[|s| - 1]) != c {
        assert (r + [s[|s| - 1]])[..|r|] == r;
      }
    }
  }

  /** A request to delete one cell is answered as the protocol's state machine has it. */
  lemma OneDeleted(s: seq<Link>, c: Cell, n: nat, size: nat)
    requires n > 0 && 4 <= size
    ensures Some(Deletion(s, n, [c], size)) == Response(s, Delete(c))
  {
    assert [c][..0] == [];
    assert Found(s, [c]) == if Scheduled(s, c) then [c] else [];
    if Scheduled(s, c) {
      DeletionIs(size, [c]);
      assert [c] + seq(0, _ => Cell(0, 0)) == [c];
    }
  }
}
