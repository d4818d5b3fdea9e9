/** When matching can lose wirelength: exactly when pins are on finer coordinates than the cost unit the
    assignment solver works in (detailed_mis.cxx truncates every cost to int). Cells have whole edges, but a
    pin is taken to be at the centre of its shape, which can be half a unit off (Optdp.cpp). */
module MatchingExact {
  import opened RealMath
  import opened Intervals
  import opened Netlist
  import opened IndependentSet
  import opened Permutations
  import opened Matching
  import opened MatchingRuns

  predicate MultipleOf(q: nat, v: real) {
    Whole(q as real * v)
  }

  /** Cell edges are whole, and pins lie on multiples of 1/q. */
  ghost predicate Spaced(net: Network, cells: seq<Cell>, pos: Placement, q: nat)
    requires net.Fits(pos) && |cells| == |pos|
  {
    && (forall n :: 0 <= n < |pos| ==>
          && Whole(pos[n].x - cells[n].width / 2.0) && Whole(pos[n].y - cells[n].height / 2.0)
          && Whole(cells[n].width) && Whole(cells[n].height))
    && (forall p :: 0 <= p < |net.pins| ==>
          MultipleOf(q, net.pins[p].dx + cells[net.pins[p].node].width / 2.0)
          && MultipleOf(q, net.pins[p].dy + cells[net.pins[p].node].height / 2.0))
  }

  /** The listed cells do not overlap. */
  ghost predicate Apart(cells: seq<Cell>, pos: Placement, nodes: seq<nat>)
    requires |cells| == |pos| && forall i :: 0 <= i < |nodes| ==> nodes[i] < |pos|
  {
    forall i, j :: 0 <= i < j < |nodes| ==>
      || Abs(pos[nodes[i]].x - pos[nodes[j]].x) >= cells[nodes[i]].width / 2.0 + cells[nodes[j]].width / 2.0
      || Abs(pos[nodes[i]].y - pos[nodes[j]].y) >= cells[nodes[i]].height / 2.0 + cells[nodes[j]].height / 2.0
  }

  /** No assignment is cheaper. */
  ghost predicate Cheapest(m: Matrix, a: seq<nat>)
    requires Square(m)
  {
    Permutes(a, |m|) && forall b :: Permutes(b, |m|) ==> Sum(Chosen(m, a)) <= Sum(Chosen(m, b))
  }

  /** Everything the matcher meets: equal-sized cells that do not overlap and share no net, with at most k pins
      each on a net, their cost matrix, and a cheapest assignment of it. */
  ghost predicate Meets(net: Network, cells: seq<Cell>, pos: Placement, nodes: seq<nat>, m: Matrix, a: seq<nat>, q: nat, k: nat) {
    && net.Fits(pos) && |cells| == |pos| && Spaced(net, cells, pos, q)
    && nodes != [] && SameKind(cells, nodes) && Apart(cells, pos, nodes) && Independent(net, nodes)
    && (forall i :: 0 <= i < |nodes| ==> AtMostPerNet(net, nodes[i], k))
    && IsCostMatrix(net, pos, nodes, m) && Cheapest(m, a)
  }

  /** The wirelength the assignment adds. */
  ghost function Added(net: Network, pos: Placement, nodes: seq<nat>, a: seq<nat>): real
    requires net.Fits(pos) && (forall i :: 0 <= i < |nodes| ==> nodes[i] < |pos|) && Permutes(a, |nodes|)
  {
    net.Hpwl(PlaceAt(pos, nodes, Spots(pos, nodes, a)), MATCH_LIMIT) - net.Hpwl(pos, MATCH_LIMIT)
  }

  /** With whole cell edges, one pin of a cell on a net, and pins on multiples of 1/q no match ever loses wirelength
      if and only if q is 1. */
  lemma {:induction false} NeverLosesIff(q: nat)
    requires q >= 1
    ensures (forall net, cells, pos, nodes, m, a {:trigger Meets(net, cells, pos, nodes, m, a, q, 1)} ::
               Meets(net, cells, pos, nodes, m, a, q, 1) ==> Added(net, pos, nodes, a) <= 0.0) <==> q == 1
  {
    if q == 1 {
      forall net, cells, pos, nodes, m, a | Meets(net, cells, pos, nodes, m, a, q, 1)
        ensures Added(net, pos, nodes, a) <= 0.0
      {
        WholeNeverLoses(net, cells, pos, nodes, m, a);
      }
    } else {
      var f := 1.0 / q as real;
      OneOfQ(q, f);
      CycleIsCheapest();
      TruncationLoses(f, q, CYCLE);
      assert Meets(Trio(f), TrioCells(), Spread(), TRIO, COSTS, CYCLE, q, 1);
    }
  }

  lemma OneOfQ(q: nat, f: real)
    requires q >= 2 && f == 1.0 / q as real
    ensures 0.0 < f < 1.0 && MultipleOf(q, f)
  {
    assert q as real * f == 1.0;
    IntIsWhole(1);
  }

  lemma {:induction false} WholeNeverLoses(net: Network, cells: seq<Cell>, pos: Placement, nodes: seq<nat>, m: Matrix, a: seq<nat>)
    requires Meets(net, cells, pos, nodes, m, a, 1, 1)
    ensures Added(net, pos, nodes, a) <= 0.0
  {
    assert WholeDesign(net, cells, pos);
    WholeDesignCosts(net, cells, pos, nodes);
    assert Permutes(Identity(|m|), |m|);
    MatchingBound(net, pos, nodes, m, a);
    AllOne(net, nodes, 1);
  }

  lemma AllOne(net: Network, nodes: seq<nat>, k: nat)
    requires net.Valid() && (forall i :: 0 <= i < |nodes| ==> nodes[i] < |net.nodePins| && AtMostPerNet(net, nodes[i], k)) && k <= 1
    ensures SinglePins(net, nodes)
  {
    forall i | 0 <= i < |nodes|
      ensures OnePinPerNet(net, nodes[i])
    {
      AtMostOne(net, nodes[i], k);
    }
  }

  // ----- three unit cells A at (0, 0), B at (1, 5) and C at (2, 2), each with a pin f from its left edge

  /** A cell's net has two terminals, at opposite corners of a box: for A of (0, 0) to (1, 5), for B of (1, 0) to
      (2, 5), for C of (2, 0) to (3, 0). */
  function Trio(f: real): Network {
    Network(
      [Pin(0, 0, f - 0.5, -0.5), Pin(3, 0, 0.0, 0.0), Pin(4, 0, 0.0, 0.0),
       Pin(1, 1, f - 0.5, -0.5), Pin(5, 1, 0.0, 0.0), Pin(6, 1, 0.0, 0.0),
       Pin(2, 2, f - 0.5, -0.5), Pin(7, 2, 0.0, 0.0), Pin(8, 2, 0.0, 0.0)],
      [[0], [3], [6], [1], [2], [4], [5], [7], [8]],
      [[0, 1, 2], [3, 4, 5], [6, 7, 8]])
  }

  /** Centres of the cells and the terminals. */
  function Spread(): Placement {
    [Point(0.5, 0.5), Point(1.5, 5.5), Point(2.5, 2.5),
     Point(0.0, 0.0), Point(1.0, 5.0), Point(1.0, 0.0), Point(2.0, 5.0), Point(2.0, 0.0), Point(3.0, 0.0)]
  }

  function TrioCells(): seq<Cell> {
    var unit, terminal := Cell(1.0, 1.0, 0, 0, 0), Cell(0.0, 0.0, 0, 0, 0);
    [unit, unit, unit, terminal, terminal, terminal, terminal, terminal, terminal]
  }

  const TRIO: seq<nat> := [0, 1, 2]

  /** A goes to B's spot, B to C's and C to A's. */
  const CYCLE: seq<nat> := [1, 2, 0]

  /** Every cell's truncated cost on every spot. */
  const COSTS: Matrix := [[6, 6, 7], [6, 6, 6], [2, 6, 3]]

  /** What the cells really pay: so much, */
  const BASE: seq<seq<real>> := [[6.0, 6.0, 7.0], [7.0, 6.0, 6.0], [3.0, 7.0, 3.0]]

  /** and so many times f. */
  const SLOPE: seq<seq<real>> := [[0.0, 1.0, 1.0], [-1.0, 0.0, 1.0], [-1.0, -1.0, 0.0]]

  lemma TrioFits(f: real)
    ensures Trio(f).Fits(Spread())
  {
    var net := Trio(f);
    assert net.nodePins[0][0] == 0 && net.nodePins[3][0] == 1 && net.nodePins[4][0] == 2;
    assert net.nodePins[1][0] == 3 && net.nodePins[5][0] == 4 && net.nodePins[6][0] == 5;
    assert net.nodePins[2][0] == 6 && net.nodePins[7][0] == 7 && net.nodePins[8][0] == 8;
    assert net.edgePins[0][0] == 0 && net.edgePins[0][1] == 1 && net.edgePins[0][2] == 2;
    assert net.edgePins[1][0] == 3 && net.edgePins[1][1] == 4 && net.edgePins[1][2] == 5;
    assert net.edgePins[2][0] == 6 && net.edgePins[2][1] == 7 && net.edgePins[2][2] == 8;
  }

  lemma HullOfThree(x: real, y: real, z: real)
    requires y <= z
    ensures Hull([x, y, z]).Width() == Max(x, z) - Min(x, y)
  {
    HullUnique([x, y, z], Min(x, y), Max(x, z));
  }

  /** A cell with one pin pays the length of that pin's net. */
  lemma {:induction false} SinglePinCost(net: Network, pos: Placement, n: nat, at: Point, p: nat)
    requires net.Fits(pos) && n < |pos| && net.nodePins[n] == [p] && p < |net.pins| && net.Counted(net.pins[p].edge, MATCH_LIMIT)
    ensures NodeCost(net, pos, n, at) == net.HalfPerimeter(pos[n := at], net.pins[p].edge)
  {
    var s := PinLengths(net, pos[n := at], n);
    assert s == [net.HalfPerimeter(pos[n := at], net.pins[p].edge)] && s[..0] == [];
    assert Sum([]) == 0.0;
  }

  /** A cell pays for its net's box stretched to where its pin is. */
  lemma {:induction false} StretchedCost(f: real, i: nat, at: Point)
    requires i < 3
    ensures Trio(f).Fits(Spread())
    ensures var x, y, top := at.x + f - 0.5, at.y - 0.5, if i == 2 then 0.0 else 5.0;
      NodeCost(Trio(f), Spread(), i, at)
        == Max(x, (i + 1) as real) - Min(x, i as real) + Max(y, top) - Min(y, 0.0)
  {
    TrioFits(f);
    hide Network.Valid, NodeCost;
    var net, there := Trio(f), Spread()[i := at];
    var x, y, top := at.x + f - 0.5, at.y - 0.5, if i == 2 then 0.0 else 5.0;
    SinglePinCost(net, Spread(), i, at, 3 * i);
    assert net.Xs(there, i) == [x, i as real, (i + 1) as real] && net.Ys(there, i) == [y, 0.0, top];
    HullOfThree(x, i as real, (i + 1) as real);
    HullOfThree(y, 0.0, top);
  }

  /** Every cell's cost on every spot. */
  lemma {:induction false} TrioCost(f: real, i: nat, j: nat)
    requires 0.0 < f < 1.0 && i < 3 && j < 3
    ensures Trio(f).Fits(Spread()) && NodeCost(Trio(f), Spread(), i, Spread()[j]) == BASE[i][j] + SLOPE[i][j] * f
  {
    hide NodeCost, Network.Valid;
    StretchedCost(f, i, Spread()[j]);
  }

  lemma {:induction false} TrioMatrix(f: real)
    requires 0.0 < f < 1.0
    ensures Trio(f).Fits(Spread()) && IsCostMatrix(Trio(f), Spread(), TRIO, COSTS)
  {
    TrioFits(f);
    hide NodeCost, Network.Valid;
    forall i, j | 0 <= i < 3 && 0 <= j < 3
      ensures COSTS[i][j] == Trunc(NodeCost(Trio(f), Spread(), TRIO[i], Spread()[TRIO[j]]))
    {
      TrioCost(f, i, j);
      Truncates(f, i, j);
    }
    assert forall i :: 0 <= i < 3 ==> |COSTS[i]| == 3;
  }

  lemma Truncates(f: real, i: nat, j: nat)
    requires 0.0 < f < 1.0 && i < 3 && j < 3
    ensures COSTS[i][j] == Trunc(BASE[i][j] + SLOPE[i][j] * f)
  {
    assert SLOPE[i][j] == 0.0 || SLOPE[i][j] == 1.0 || SLOPE[i][j] == -1.0;
  }

  /** The cycle is the one cheapest assignment in truncated costs. */
  lemma {:induction false} CycleIsCheapest()
    ensures Square(COSTS) && Cheapest(COSTS, CYCLE)
    ensures forall a :: Cheapest(COSTS, a) ==> a == CYCLE
  {
    SumOfThree(Chosen(COSTS, CYCLE));
    forall a | Permutes(a, 3)
      ensures Sum(Chosen(COSTS, a)) >= 14.0 && (Sum(Chosen(COSTS, a)) == 14.0 ==> a == CYCLE)
    {
      SumOfThree(Chosen(COSTS, a));
      assert a[0] != a[1] && a[0] != a[2] && a[1] != a[2];
      assert a == [a[0], a[1], a[2]];
    }
  }

  /** Cell n is on net n only. */
  lemma TrioTouches(f: real, n: nat, e: nat)
    requires n < 3 && e < 3
    ensures Trio(f).Touches(n, e) ==> e == n
  {
  }

  lemma TrioIndependent(f: real)
    ensures Trio(f).Fits(Spread()) && Independent(Trio(f), TRIO)
    ensures forall i :: 0 <= i < 3 ==> AtMostPerNet(Trio(f), TRIO[i], 1)
  {
    TrioFits(f);
    hide Network.Valid, Network.Touches;
    forall n: nat, e: nat | n < 3 && e < 3
      ensures Trio(f).Touches(n, e) ==> e == n
    {
      TrioTouches(f, n, e);
    }
    forall i, e: nat | 0 <= i < 3
      ensures |OnNet(Trio(f), TRIO[i], e)| <= 1
    {
      SubsetSize(OnNet(Trio(f), TRIO[i], e), {0});
    }
  }

  lemma TrioValues()
    ensures |TrioCells()| == |Spread()| == 9
    ensures forall i :: 0 <= i < 3 ==> TrioCells()[i] == Cell(1.0, 1.0, 0, 0, 0) && Spread()[i].x == 0.5 + i as real
  {
  }

  lemma TrioLegal()
    ensures Apart(TrioCells(), Spread(), TRIO) && SameKind(TrioCells(), TRIO)
  {
    TrioValues();
    hide TrioCells, Spread;
  }

  lemma TrioSpaced(f: real, q: nat)
    requires MultipleOf(q, f)
    ensures Trio(f).Fits(Spread()) && |TrioCells()| == |Spread()| && Spaced(Trio(f), TrioCells(), Spread(), q)
  {
    TrioFits(f);
    hide Network.Valid, MultipleOf;
    var net, pos, cells := Trio(f), Spread(), TrioCells();
    assert MultipleOf(q, 0.0) by {
      NothingIsMultiple(q);
    }
    forall p | 0 <= p < |net.pins|
      ensures MultipleOf(q, net.pins[p].dx + cells[net.pins[p].node].width / 2.0)
      ensures MultipleOf(q, net.pins[p].dy + cells[net.pins[p].node].height / 2.0)
    {
      assert net.pins[p].dx + cells[net.pins[p].node].width / 2.0 == if p % 3 == 0 then f else 0.0;
      assert net.pins[p].dy + cells[net.pins[p].node].height / 2.0 == 0.0;
    }
  }

  lemma NothingIsMultiple(q: nat)
    ensures MultipleOf(q, 0.0)
  {
    assert q as real * 0.0 == 0.0;
  }

  /** Staying costs 15; the cycle costs 15 + f, truncated to 14. So whatever cheapest assignment a solver returns,
      the wirelength rises by f, which is as near to one unit as one likes. */
  lemma {:induction false} TruncationLoses(f: real, q: nat, a: seq<nat>)
    requires 0.0 < f < 1.0 && q >= 1 && MultipleOf(q, f) && Square(COSTS) && Cheapest(COSTS, a)
    ensures Meets(Trio(f), TrioCells(), Spread(), TRIO, COSTS, a, q, 1)
    ensures Added(Trio(f), Spread(), TRIO, a) == f
  {
    CycleIsCheapest();
    TrioIndependent(f);
    TrioSpaced(f, q);
    TrioMatrix(f);
    TrioLegal();
    AllOne(Trio(f), TRIO, 1);
    TrioAdds(f);
  }

  lemma {:induction false} TrioAdds(f: real)
    requires 0.0 < f < 1.0 && Trio(f).Fits(Spread()) && Independent(Trio(f), TRIO)
    requires SinglePins(Trio(f), TRIO)
    ensures Added(Trio(f), Spread(), TRIO, CYCLE) == f
  {
    hide NodeCost, Network.Valid, Sum, SinglePins, Independent, Network.Hpwl, PlaceAt;
    CostsAddUp(Trio(f), Spread(), TRIO, Spots(Spread(), TRIO, CYCLE));
    TrioSum(f, CYCLE);
    TrioSum(f, Identity(3));
    IdentitySpots(Spread(), TRIO);
  }

  /** What an assignment of the three really costs. */
  lemma {:induction false} TrioSum(f: real, a: seq<nat>)
    requires 0.0 < f < 1.0 && Permutes(a, 3)
    ensures Trio(f).Fits(Spread())
    ensures Sum(Costs(Trio(f), Spread(), TRIO, Spots(Spread(), TRIO, a)))
         == BASE[0][a[0]] + SLOPE[0][a[0]] * f + (BASE[1][a[1]] + SLOPE[1][a[1]] * f) + (BASE[2][a[2]] + SLOPE[2][a[2]] * f)
  {
    hide NodeCost, Network.Valid, Sum;
    TrioCost(f, 0, a[0]);
    TrioCost(f, 1, a[1]);
    TrioCost(f, 2, a[2]);
    SumOfThree(Costs(Trio(f), Spread(), TRIO, Spots(Spread(), TRIO, a)));
  }
}
