/** What unequal padding does over a run (detailed_interleaving.cxx): a window moves its cells to where the next
    window no longer sees where its own begin, and the wirelength rises. */
module InterleaveRun {
  import opened RealMath
  import opened Netlist
  import opened Permutations
  import opened InterleaveSpec
  import opened InterleaveSolve
  import opened InterleaveClamp
  import opened InterleaveBuild
  import opened Interleave
  import opened InterleaveSegment
  import opened InterleaveModel
  import opened InterleaveTies
  import opened InterleavePadding

  // ----- windows that must be accepted

  lemma {:induction false} SortedIsCount(x: seq<real>, first: seq<nat>)
    requires Permutes(first, |x|) && SortedBy(x, first) && forall i, j :: 0 <= i < j < |x| ==> x[i] < x[j]
    ensures first == Count(|x|)
  {
    var pos := seq(|x|, i requires 0 <= i < |x| => Point(x[i], 0.0));
    Rearranged(Count(|x|), first, first);
    SortFinds(pos, Count(|x|), first);
  }

  /** In equal slots that all bring nearer a window is not rejected. */
  lemma {:induction false} NearerNotRejected(n: nat, ties: seq<Tie>, row: Row, pos: Placement, nodes: seq<nat>, l: real, r: real, w: real,
                                             p: Problem, ids: seq<nat>, first: seq<nat>)
    requires OnLine(n, ties, pos) && (forall k :: 0 <= k < |nodes| ==> nodes[k] < n) && Window(Tied(n, ties), pos, nodes)
    requires row.Valid(|pos|) && nodes != []
    requires var s := RoomOf(pos, nodes, row, l, r);
      s.Space? && |s.widths| == |nodes| && (forall i :: 0 <= i < |nodes| ==> s.widths[i] == w) && Nearer(ties, pos, nodes, s.xmin, s.xmax, w)
    requires forall i, j :: 0 <= i < j < |nodes| ==> pos[nodes[i]].x < pos[nodes[j]].x
    ensures !Rejects(Tied(n, ties), row, pos, nodes, l, r, p, ids, first)
  {
    hide RoomOf, Network.Valid, Models, BuiltFor, FirstCost, OrderCost, OnLine, Nearer, SortedBy;
    if Rejects(Tied(n, ties), row, pos, nodes, l, r, p, ids, first) {
      BuiltShape(p, Tied(n, ties), pos, nodes, ids, row, l, r);
      BuiltModels(p, Tied(n, ties), pos, nodes, ids, row, l, r);
      SortedIsCount(CentresAt(pos, nodes), first);
      PassesImprove(p, first, PASSES);
      NearerPays(n, ties, pos, nodes, w, p, ids);
    }
  }

  /** So it is accepted, and its cells stand in the middle of their slots. */
  lemma {:induction false} StepSlots(n: nat, ties: seq<Tie>, row: Row, pos: Placement, q: Placement, nodes: seq<nat>, nodes': seq<nat>,
                                     i: nat, j: nat, lo: real, hi: real, part: seq<nat>, l: real, r: real, xmin: real, w: real) returns (part': seq<nat>)
    requires row.Valid(|pos|) && i < j <= |nodes| && (forall k :: 0 <= k < |nodes| ==> nodes[k] < |pos|) && part == nodes[i..j]
    requires OnLine(n, ties, pos) && (forall k :: 0 <= k < |part| ==> part[k] < n) && Window(Tied(n, ties), pos, part)
    requires l == LeftLimit(row, pos, nodes, i, lo) && r == RightLimit(row, pos, nodes, j, hi)
    requires var s := RoomOf(pos, part, row, l, r);
      s.Space? && s.xmin == xmin && |s.widths| == |part| && (forall i :: 0 <= i < |part| ==> s.widths[i] == w) && Nearer(ties, pos, part, s.xmin, s.xmax, w)
    requires forall i, j :: 0 <= i < j < |part| ==> pos[part[i]].x < pos[part[j]].x
    requires WindowStep(Tied(n, ties), row, pos, q, nodes, nodes', i, j, lo, hi)
    ensures |part'| == |part| && nodes' == Splice(nodes, i, j, part') && |q| == |pos|
    ensures forall k :: 0 <= k < |part| ==> part'[k] in part && part'[k] < |q| && q[part'[k]].x == SlotAt(xmin, w, k)
    ensures forall v :: v in part ==> v in part'
    ensures forall m: nat :: m < |pos| ==> q[m].y == pos[m].y && (m !in part ==> q[m] == pos[m])
  {
    hide Tied, OnLine, Window, RoomOf, Accepts, Rejects, Network.Valid, Nearer, LeftLimit, RightLimit;
    forall p, ids, first
      ensures !Rejects(Tied(n, ties), row, pos, part, l, r, p, ids, first)
    {
      NearerNotRejected(n, ties, row, pos, part, l, r, w, p, ids, first);
    }
    var shape, ids, first, x;
    part', shape, ids, first, x :| |part'| == j - i && nodes' == Splice(nodes, i, j, part')
      && Accepts(Tied(n, ties), row, pos, part, l, r, q, part', shape, ids, first, x);
    var order := AcceptedPacks(Tied(n, ties), row, pos, part, l, r, q, part', shape, ids, first, x);
    AcceptedSlots(pos, part, q, shape, order, x, w);
  }

  // ----- two windows

  /** The windows of a run of ten cells, five cells each. */
  ghost predicate TwoWindows(net: Network, row: Row, p: Placement, nodes: seq<nat>, q1: Placement, nodes1: seq<nat>, q2: Placement, nodes2: seq<nat>,
                             lo: real, hi: real) {
    && row.Valid(|p|) && |nodes| == 10 && (forall k :: 0 <= k < 10 ==> nodes[k] < |p|) && Window(net, p, nodes[0..5])
    && WindowStep(net, row, p, q1, nodes, nodes1, 0, 5, lo, hi)
    && row.Valid(|q1|) && |nodes1| == 10 && (forall k :: 0 <= k < 10 ==> nodes1[k] < |q1|) && Window(net, q1, nodes1[5..10])
    && WindowStep(net, row, q1, q2, nodes1, nodes2, 5, 10, lo, hi)
  }

  /** Cell 4 wants to go right, and two nets pull cell 5, by its left edge, to the left. */
  const TIES: seq<Tie> := [Tie(4, 0.0, 40.0), Tie(5, -1.0, 0.0), Tie(5, -1.0, 0.0)]

  /** Cells of width 2 with padding 2 on the right only. */
  ghost function RunRow(): (row: Row) {
    Row(seq(13, v => if v < 10 then 2.0 else 0.0), seq(13, _ => 0.0), seq(13, v => if v < 10 then 2.0 else 0.0), 1.0)
  }

  /** They stand side by side. */
  ghost function RunPos(): (pos: Placement) {
    seq(10, k => Point(4.0 * k as real + 1.0, 0.0)) + [Point(40.0, 0.0), Point(0.0, 0.0), Point(0.0, 0.0)]
  }

  lemma {:induction false} RunFacts()
    ensures Ties(10, TIES) && OnLine(10, TIES, RunPos()) && |RunPos()| == 13 && RunRow().Valid(13) && Tied(10, TIES).Fits(RunPos())
    ensures PaddedSpread(RunPos(), Count(10), RunRow(), 0.0, 40.0)
    ensures PinsInCells(Tied(10, TIES), RunRow().widths)
  {
    RunSpread();
    RunOnLine();
    RunPins();
    hide Tied, PaddedSpread, PinsInCells, RunPos, RunRow, OnLine, Network.Valid, Row.Valid;
  }

  lemma RunOnLine()
    ensures Ties(10, TIES) && OnLine(10, TIES, RunPos()) && |RunPos()| == 13
  {
  }

  lemma RunPins()
    ensures Tied(10, TIES).Valid() && |RunRow().widths| == 13 && PinsInCells(Tied(10, TIES), RunRow().widths)
  {
    hide Tied, PinsInCells, RunPos;
    var widths := RunRow().widths;
    assert |widths| == 13 && forall v :: 0 <= v < 13 ==> widths[v] == if v < 10 then 2.0 else 0.0;
    hide RunRow;
    PinsCentred(10, TIES, widths);
  }

  lemma RunSpread()
    ensures RunRow().Valid(|RunPos()|) && PaddedSpread(RunPos(), Count(10), RunRow(), 0.0, 40.0)
  {
    RunValues();
    hide RunPos, RunRow;
  }

  /** Where the cells are and how wide. */
  lemma RunValues()
    ensures |RunPos()| == 13 && forall k :: 0 <= k < 10 ==> RunPos()[k] == Point(4.0 * k as real + 1.0, 0.0)
    ensures var row := RunRow();
      && row.Valid(13) && row.siteWidth == 1.0
      && forall k :: 0 <= k < 10 ==> row.widths[k] == 2.0 && row.leftPad[k] == 0.0 && row.rightPad[k] == 2.0
  {
  }

  /** The first window is accepted and fills the same slots, each cell in the middle of one. */
  lemma {:induction false} FirstWindow(q1: Placement, nodes1: seq<nat>) returns (part: seq<nat>)
    requires OnLine(10, TIES, RunPos()) && |RunPos()| == 13 && RunRow().Valid(13) && Window(Tied(10, TIES), RunPos(), Count(10)[0..5])
    requires WindowStep(Tied(10, TIES), RunRow(), RunPos(), q1, Count(10), nodes1, 0, 5, 0.0, 40.0)
    ensures |part| == 5 && nodes1 == part + [5, 6, 7, 8, 9] && |q1| == 13
    ensures forall k :: 0 <= k < 5 ==> part[k] < 5 && q1[part[k]].x == 4.0 * k as real + 2.0
    ensures 4 in part
    ensures (forall m :: 5 <= m < 13 ==> q1[m] == RunPos()[m]) && forall m :: 0 <= m < 13 ==> q1[m].y == RunPos()[m].y
  {
    hide Tied, OnLine, Window, RoomOf, WindowStep, Network.Valid, RunPos, RunRow, Nearer, LeftLimit, RightLimit, Splice, Row.Valid, SlotAt, Ties;
    FirstLimit();
    assert Count(10)[0..5] == Count(5);
    FirstRoom();
    part := StepSlots(10, TIES, RunRow(), RunPos(), q1, Count(10), nodes1, 0, 5, 0.0, 40.0, Count(5), 0.0, 20.0, 0.0, 4.0);
    SpliceFront(part);
    FirstPlaces(q1, part);
  }

  lemma FirstPlaces(q1: Placement, part: seq<nat>)
    requires |RunPos()| == |q1| == 13 && |part| == 5 && forall v :: v in Count(5) ==> v in part
    requires forall k :: 0 <= k < 5 ==> part[k] in Count(5) && part[k] < |q1| && q1[part[k]].x == SlotAt(0.0, 4.0, k)
    requires forall m: nat :: m < 13 ==> q1[m].y == RunPos()[m].y && (m !in Count(5) ==> q1[m] == RunPos()[m])
    ensures forall k :: 0 <= k < 5 ==> part[k] < 5 && q1[part[k]].x == 4.0 * k as real + 2.0
    ensures 4 in part
    ensures (forall m :: 5 <= m < 13 ==> q1[m] == RunPos()[m]) && forall m :: 0 <= m < 13 ==> q1[m].y == RunPos()[m].y
  {
    hide RunPos;
    assert Count(5)[4] == 4;
  }

  lemma FirstLimit()
    requires |RunPos()| == 13 && RunRow().Valid(13)
    ensures LeftLimit(RunRow(), RunPos(), Count(10), 0, 0.0) == 0.0 && RightLimit(RunRow(), RunPos(), Count(10), 5, 40.0) == 20.0
  {
    RunValues();
    hide RunPos, RunRow;
  }

  lemma SpliceFront(part: seq<nat>)
    requires |part| == 5
    ensures Splice(Count(10), 0, 5, part) == part + [5, 6, 7, 8, 9]
  {
    assert Count(10)[5..] == [5, 6, 7, 8, 9];
  }

  lemma {:induction false} FirstRoom()
    requires |RunPos()| == 13 && RunRow().Valid(13)
    ensures var r := RoomOf(RunPos(), Count(5), RunRow(), 0.0, 20.0);
      r.Space? && r.xmin == 0.0 && r.xmax == 20.0 && |r.widths| == 5 && forall k :: 0 <= k < 5 ==> r.widths[k] == 4.0
    ensures Nearer(TIES, RunPos(), Count(5), 0.0, 20.0, 4.0)
    ensures forall i, j :: 0 <= i < j < 5 ==> RunPos()[Count(5)[i]].x < RunPos()[Count(5)[j]].x
  {
    RunValues();
    FirstSizes();
    FirstNearer();
    hide RunPos, RunRow, Nearer, Row.Padded, LeftEdge, RightEdge, RoomOf;
    TightRoom(RunPos(), Count(5), RunRow(), 4.0, 20.0);
  }

  lemma FirstNearer()
    requires |RunPos()| == 13
    ensures Nearer(TIES, RunPos(), Count(5), 0.0, 20.0, 4.0)
    ensures forall i, j :: 0 <= i < j < 5 ==> RunPos()[Count(5)[i]].x < RunPos()[Count(5)[j]].x
  {
    RunValues();
    hide RunPos, RunRow;
    assert Count(5)[TIES[0].cell] == 4;
  }

  lemma FirstSizes()
    requires |RunPos()| == 13 && RunRow().Valid(13)
    ensures LeftEdge(RunPos(), Count(5), RunRow(), 0.0) == 0.0 && RightEdge(RunPos(), Count(5), RunRow(), 20.0) == 20.0
    ensures forall k :: 0 <= k < 5 ==> Sizes(RunRow().Padded(), Count(5))[k] == 4.0
  {
    RunValues();
    hide RunPos, RunRow;
  }

  /** The second window begins right of where its first cell does, and has room for its cells and a site each. */
  lemma {:induction false} SecondRoom(q1: Placement, nodes: seq<nat>)
    requires |q1| == 13 && RunRow().Valid(13) && nodes == [5, 6, 7, 8, 9] && forall m :: 5 <= m < 10 ==> q1[m] == RunPos()[m]
    ensures var r := RoomOf(q1, nodes, RunRow(), 21.0, 40.0);
      r.Space? && r.xmin == 21.0 && r.xmax == 40.0 && |r.widths| == 5 && forall k :: 0 <= k < 5 ==> r.widths[k] == 3.0
    ensures Nearer(TIES, q1, nodes, 21.0, 40.0, 3.0)
    ensures forall i, j :: 0 <= i < j < 5 ==> q1[nodes[i]].x < q1[nodes[j]].x
  {
    RunValues();
    hide RunPos, RunRow;
    var plain, padded := Sizes(RunRow().widths, nodes), Sizes(RunRow().Padded(), nodes);
    SumEqual(plain, 2.0);
    SumEqual(padded, 4.0);
    assert LeftEdge(q1, nodes, RunRow(), 21.0) == 21.0 && RightEdge(q1, nodes, RunRow(), 40.0) == 40.0;
    SiteEach(plain, padded);
    assert nodes[0] == 5;
    assert TIES[1].cell in nodes;
  }

  lemma SiteEach(plain: seq<real>, padded: seq<real>)
    requires |plain| == |padded| == 5 && Sum(plain) == 10.0 && Sum(padded) == 20.0 && forall k :: 0 <= k < 5 ==> plain[k] == 2.0
    ensures var r := SpaceFor(plain, padded, 21.0, 40.0, 21.0, 40.0, 1.0);
      r.Space? && r.xmin == 21.0 && r.xmax == 40.0 && |r.widths| == 5 && forall k :: 0 <= k < 5 ==> r.widths[k] == 3.0
  {
    hide Sum;
    assert SitesPerCell(9.0, 5, 1.0) == 1;
    assert Share(plain, 19.0, 1.0) == 1.0;
    EveryoneServed(plain, 5, 1.0, 19.0);
  }

  lemma {:induction false} SecondWindow(q1: Placement, part: seq<nat>, nodes1: seq<nat>, q2: Placement, nodes2: seq<nat>)
    requires |part| == 5 && nodes1 == part + [5, 6, 7, 8, 9] && |q1| == 13 && RunRow().Valid(13)
    requires forall k :: 0 <= k < 5 ==> part[k] < 5 && q1[part[k]].x == 4.0 * k as real + 2.0
    requires (forall m :: 5 <= m < 10 ==> q1[m] == RunPos()[m]) && OnLine(10, TIES, q1)
    requires Window(Tied(10, TIES), q1, nodes1[5..10])
    requires WindowStep(Tied(10, TIES), RunRow(), q1, q2, nodes1, nodes2, 5, 10, 0.0, 40.0)
    ensures |q2| == 13 && q2[5].x >= 22.5 && q2[4] == q1[4]
    ensures (forall m :: 10 <= m < 13 ==> q2[m] == q1[m]) && forall m :: 0 <= m < 13 ==> q2[m].y == q1[m].y
  {
    hide Tied, OnLine, Window, RoomOf, WindowStep, Network.Valid, RunPos, RunRow, Nearer, LeftLimit, RightLimit, Splice, Row.Valid, SlotAt, Ties;
    var nodes := [5, 6, 7, 8, 9];
    SecondLimit(q1, part, nodes1);
    SecondRoom(q1, nodes);
    assert nodes1[5..10] == nodes;
    var part' := StepSlots(10, TIES, RunRow(), q1, q2, nodes1, nodes2, 5, 10, 0.0, 40.0, nodes, 21.0, 40.0, 21.0, 3.0);
    SecondPlaces(q1, q2, nodes, part');
  }

  lemma SecondPlaces(q1: Placement, q2: Placement, nodes: seq<nat>, part: seq<nat>)
    requires nodes == [5, 6, 7, 8, 9] && |part| == 5 && |q1| == |q2| == 13 && forall v :: v in nodes ==> v in part
    requires forall k :: 0 <= k < 5 ==> part[k] in nodes && part[k] < |q2| && q2[part[k]].x == SlotAt(21.0, 3.0, k)
    requires forall m: nat :: m < 13 ==> q2[m].y == q1[m].y && (m !in nodes ==> q2[m] == q1[m])
    ensures q2[5].x >= 22.5 && q2[4] == q1[4]
    ensures (forall m :: 10 <= m < 13 ==> q2[m] == q1[m]) && forall m :: 0 <= m < 13 ==> q2[m].y == q1[m].y
  {
    assert nodes[0] == 5 && 5 in nodes;
    var k :| 0 <= k < 5 && part[k] == 5;
    assert q2[5].x == SlotAt(21.0, 3.0, k);
  }

  lemma SecondLimit(q1: Placement, part: seq<nat>, nodes1: seq<nat>)
    requires |part| == 5 && nodes1 == part + [5, 6, 7, 8, 9] && |q1| == 13 && RunRow().Valid(13)
    requires forall k :: 0 <= k < 5 ==> part[k] < 5 && q1[part[k]].x == 4.0 * k as real + 2.0
    ensures forall k :: 0 <= k < 10 ==> nodes1[k] < 13
    ensures LeftLimit(RunRow(), q1, nodes1, 5, 0.0) == 21.0 && RightLimit(RunRow(), q1, nodes1, 10, 40.0) == 40.0
  {
    RunValues();
    hide RunPos, RunRow;
    assert nodes1[4] == part[4];
  }

  lemma {:induction false} RunLength(pos: Placement)
    requires OnLine(10, TIES, pos)
    ensures Tied(10, TIES).Fits(pos)
    ensures Tied(10, TIES).Hpwl(pos, LIMIT) == Abs(40.0 - pos[4].x) + 2.0 * Abs(pos[5].x - 1.0)
  {
    hide Tied;
    TiedLength(10, TIES, pos, 0);
    TiedLength(10, TIES, pos, 1);
    TiedLength(10, TIES, pos, 2);
    var s := Tied(10, TIES).Lengths(pos, LIMIT);
    SumOfThree(s);
  }

  /** From a row whose padded cells stand apart, every run of the two windows makes the nets longer. */
  lemma {:induction false} RunRises(q1: Placement, nodes1: seq<nat>, q2: Placement, nodes2: seq<nat>)
    requires TwoWindows(Tied(10, TIES), RunRow(), RunPos(), Count(10), q1, nodes1, q2, nodes2, 0.0, 40.0)
    ensures RunRow().Valid(|RunPos()|) && PaddedSpread(RunPos(), Count(10), RunRow(), 0.0, 40.0)
    ensures Tied(10, TIES).Fits(RunPos()) && Tied(10, TIES).Fits(q2) && PinsInCells(Tied(10, TIES), RunRow().widths)
    ensures Tied(10, TIES).Hpwl(q2, LIMIT) >= Tied(10, TIES).Hpwl(RunPos(), LIMIT) + 2.0
  {
    RunFacts();
    RunValues();
    hide Tied, WindowStep, RunPos, RunRow, PaddedSpread, PinsInCells;
    var part := FirstWindow(q1, nodes1);
    var k :| 0 <= k < 5 && part[k] == 4;
    SecondWindow(q1, part, nodes1, q2, nodes2);
    RunLength(RunPos());
    RunLength(q2);
  }
}
