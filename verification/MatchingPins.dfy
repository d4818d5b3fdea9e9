/** What a match does to cells with several pins on a net (detailed_mis.cxx): the matrix counts such a net once a
    pin, and the wirelength once. */
module MatchingPins {
  import opened RealMath
  import opened Intervals
  import opened Netlist
  import opened IndependentSet
  import opened Permutations
  import opened Matching
  import opened MatchingRuns
  import opened MatchingExact

  /** For cells with at most k pins on a net, a match always adds less than one unit of wirelength a cell if and
      only if k is 1. */
  lemma {:induction false} LosesLessIff(q: nat, k: nat)
    requires q >= 1 && k >= 1
    ensures (forall net, cells, pos, nodes, m, a {:trigger Meets(net, cells, pos, nodes, m, a, q, k)} ::
               Meets(net, cells, pos, nodes, m, a, q, k) ==> Added(net, pos, nodes, a) < |nodes| as real) <==> k == 1
  {
    if k == 1 {
      forall net, cells, pos, nodes, m, a | Meets(net, cells, pos, nodes, m, a, q, k)
        ensures Added(net, pos, nodes, a) < |nodes| as real
      {
        SinglesLoseLess(net, cells, pos, nodes, m, a, q);
      }
    } else {
      SwapIsCheapest();
      TwoPinsLose(q, k, SWAP);
      assert Meets(Pair(), PairCells(), Line(), PAIR, PAYS, SWAP, q, k);
    }
  }

  lemma {:induction false} SinglesLoseLess(net: Network, cells: seq<Cell>, pos: Placement, nodes: seq<nat>, m: Matrix, a: seq<nat>, q: nat)
    requires Meets(net, cells, pos, nodes, m, a, q, 1)
    ensures Added(net, pos, nodes, a) < |nodes| as real
  {
    assert Permutes(Identity(|m|), |m|);
    MatchingBound(net, pos, nodes, m, a);
    AllOne(net, nodes, 1);
  }

  // ----- two unit cells at 0 and 10, the first with both corners of its left edge on a net to 8, the second with
  // its lower left corner on a net to 10

  function Pair(): Network {
    Network(
      [Pin(0, 0, -0.5, -0.5), Pin(0, 0, -0.5, 0.5), Pin(2, 0, 0.0, 0.0), Pin(1, 1, -0.5, -0.5), Pin(3, 1, 0.0, 0.0)],
      [[0, 1], [3], [2], [4]],
      [[0, 1, 2], [3, 4]])
  }

  /** Centres of the cells and the terminals. */
  function Line(): Placement {
    [Point(0.5, 0.5), Point(10.5, 0.5), Point(8.0, 0.0), Point(10.0, 0.0)]
  }

  function PairCells(): seq<Cell> {
    var unit, terminal := Cell(1.0, 1.0, 0, 0, 0), Cell(0.0, 0.0, 0, 0, 0);
    [unit, unit, terminal, terminal]
  }

  const PAIR: seq<nat> := [0, 1]

  const SWAP: seq<nat> := [1, 0]

  /** What every cell pays on every spot. */
  const PAYS: Matrix := [[18, 6], [10, 0]]

  lemma PairFits()
    ensures Pair().Fits(Line())
  {
    var net := Pair();
    assert net.nodePins[0][0] == 0 && net.nodePins[0][1] == 1 && net.nodePins[1][0] == 3;
    assert net.nodePins[2][0] == 2 && net.nodePins[3][0] == 4;
    assert net.edgePins[0][0] == 0 && net.edgePins[0][1] == 1 && net.edgePins[0][2] == 2;
    assert net.edgePins[1][0] == 3 && net.edgePins[1][1] == 4;
  }

  /** The lengths of both nets with the cells' left edges at a and b. */
  lemma {:induction false} PairLengths(pos: Placement, a: real, b: real)
    requires |pos| == 4 && pos[0] == Point(a + 0.5, 0.5) && pos[1] == Point(b + 0.5, 0.5) && pos[2..] == Line()[2..]
    requires b <= 10.0
    ensures Pair().Fits(pos)
    ensures Pair().HalfPerimeter(pos, 0) == Abs(8.0 - a) + 1.0 && Pair().HalfPerimeter(pos, 1) == 10.0 - b
  {
    PairFits();
    PairCoordinates(pos, a, b);
    hide Network.Valid, Network.Xs, Network.Ys;
    FewHulls(a, b);
  }

  lemma {:induction false} PairCoordinates(pos: Placement, a: real, b: real)
    requires |pos| == 4 && pos[0] == Point(a + 0.5, 0.5) && pos[1] == Point(b + 0.5, 0.5) && pos[2..] == Line()[2..]
    ensures Pair().Fits(pos)
    ensures Pair().Xs(pos, 0) == [a, a, 8.0] && Pair().Ys(pos, 0) == [0.0, 1.0, 0.0]
    ensures Pair().Xs(pos, 1) == [b, 10.0] && Pair().Ys(pos, 1) == [0.0, 0.0]
  {
    PairFits();
    hide Network.Valid;
    assert pos[2] == pos[2..][0] && pos[3] == pos[2..][1];
  }

  lemma FewHulls(a: real, b: real)
    requires b <= 10.0
    ensures Hull([a, a, 8.0]).Width() == Abs(8.0 - a) && Hull([0.0, 1.0, 0.0]).Width() == 1.0
    ensures Hull([b, 10.0]).Width() == 10.0 - b && Hull([0.0, 0.0]).Width() == 0.0
  {
    HullUnique([a, a, 8.0], Min(a, 8.0), Max(a, 8.0));
    HullUnique([0.0, 1.0, 0.0], 0.0, 1.0);
    HullUnique([b, 10.0], b, 10.0);
    HullUnique([0.0, 0.0], 0.0, 0.0);
  }

  lemma {:induction false} PairPays(i: nat, j: nat)
    requires i < 2 && j < 2
    ensures Pair().Fits(Line()) && NodeCost(Pair(), Line(), i, Line()[j]) == PAYS[i][j] as real
  {
    PairFits();
    hide Network.Valid, Network.HalfPerimeter;
    var there := Line()[i := Line()[j]];
    PairLengths(there, if i == 0 then 10.0 * j as real else 0.0, if i == 1 then 10.0 * j as real else 10.0);
    var s := PinLengths(Pair(), there, i);
    if i == 0 {
      assert s == [s[0], s[0]];
    } else {
      assert s == [s[0]];
    }
    SumOfFew(s);
  }

  lemma SumOfFew(s: seq<real>)
    ensures |s| == 1 ==> Sum(s) == s[0]
    ensures |s| == 2 ==> Sum(s) == s[0] + s[1]
  {
    if |s| == 2 {
      assert s[..1] == [s[0]];
    }
  }

  lemma {:induction false} PairMatrix()
    ensures Pair().Fits(Line()) && IsCostMatrix(Pair(), Line(), PAIR, PAYS)
  {
    PairFits();
    hide NodeCost, Network.Valid;
    forall i, j | 0 <= i < 2 && 0 <= j < 2
      ensures PAYS[i][j] == Trunc(NodeCost(Pair(), Line(), PAIR[i], Line()[PAIR[j]]))
    {
      PairPays(i, j);
    }
    assert forall i :: 0 <= i < 2 ==> |PAYS[i]| == 2;
  }

  /** Staying costs 18, trading places 16. */
  lemma {:induction false} SwapIsCheapest()
    ensures Square(PAYS) && Cheapest(PAYS, SWAP)
    ensures forall a :: Cheapest(PAYS, a) ==> a == SWAP
  {
    SumOfFew(Chosen(PAYS, SWAP));
    forall a | Permutes(a, 2)
      ensures Sum(Chosen(PAYS, a)) >= 16.0 && (Sum(Chosen(PAYS, a)) == 16.0 ==> a == SWAP)
    {
      SumOfFew(Chosen(PAYS, a));
      assert a[0] != a[1] && a == [a[0], a[1]];
    }
  }

  lemma PairTouches(n: nat, e: nat)
    requires n < 2 && e < 2
    ensures Pair().Touches(n, e) ==> e == n
  {
  }

  lemma PairIndependent(k: nat)
    requires k >= 2
    ensures Pair().Fits(Line()) && Independent(Pair(), PAIR)
    ensures forall i :: 0 <= i < 2 ==> AtMostPerNet(Pair(), PAIR[i], k)
  {
    PairFits();
    hide Network.Valid, Network.Touches;
    forall n: nat, e: nat | n < 2 && e < 2
      ensures Pair().Touches(n, e) ==> e == n
    {
      PairTouches(n, e);
    }
    forall i, e: nat | 0 <= i < 2
      ensures |OnNet(Pair(), PAIR[i], e)| <= k
    {
      SubsetSize(OnNet(Pair(), PAIR[i], e), {0, 1});
    }
  }

  lemma PairLegal()
    ensures |PairCells()| == |Line()| && Apart(PairCells(), Line(), PAIR) && SameKind(PairCells(), PAIR)
  {
    PairValues();
    hide PairCells, Line;
  }

  lemma PairValues()
    ensures |PairCells()| == |Line()| == 4
    ensures forall i :: 0 <= i < 2 ==> PairCells()[i] == Cell(1.0, 1.0, 0, 0, 0) && Line()[i].x == 0.5 + 10.0 * i as real
  {
  }

  lemma PairSpaced(q: nat)
    ensures Pair().Fits(Line()) && |PairCells()| == |Line()| && Spaced(Pair(), PairCells(), Line(), q)
  {
    PairFits();
    hide Network.Valid, MultipleOf;
    NothingIsMultiple(q);
    assert MultipleOf(q, 1.0) by {
      IntIsMultiple(q);
    }
  }

  lemma IntIsMultiple(q: nat)
    ensures MultipleOf(q, 1.0)
  {
    assert q as real * 1.0 == q as real;
    IntIsWhole(q);
  }

  /** The first cell gains 6 and counts it twice; the second loses 10. Whatever cheapest assignment a solver returns,
      the two cells add 4 units. */
  lemma {:induction false} TwoPinsLose(q: nat, k: nat, a: seq<nat>)
    requires q >= 1 && k >= 2 && Square(PAYS) && Cheapest(PAYS, a)
    ensures Meets(Pair(), PairCells(), Line(), PAIR, PAYS, a, q, k)
    ensures Added(Pair(), Line(), PAIR, a) == 4.0
  {
    SwapIsCheapest();
    PairIndependent(k);
    PairLegal();
    PairSpaced(q);
    PairMatrix();
    PairAdds();
  }

  lemma {:induction false} PairAdds()
    ensures Pair().Fits(Line()) && Added(Pair(), Line(), PAIR, SWAP) == 4.0
  {
    PairFits();
    hide Network.Valid, Network.HalfPerimeter;
    var after := PlaceAt(Line(), PAIR, Spots(Line(), PAIR, SWAP));
    PlaceAtEach(Line(), PAIR, Spots(Line(), PAIR, SWAP), 0);
    PlaceAtEach(Line(), PAIR, Spots(Line(), PAIR, SWAP), 1);
    assert after[2..] == Line()[2..];
    PairLengths(Line(), 0.0, 10.0);
    PairLengths(after, 10.0, 0.0);
    SumOfFew(Pair().Lengths(Line(), MATCH_LIMIT));
    SumOfFew(Pair().Lengths(after, MATCH_LIMIT));
  }
}
