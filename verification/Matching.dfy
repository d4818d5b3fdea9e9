/** What a minimum-cost assignment of cells to each other's spots does to the wirelength
    (detailed_mis.cxx). The assignment solver is foreign code; it enters as a function from a
    cost matrix to an assignment. */
module Matching {
  import opened RealMath
  import opened Intervals
  import opened Netlist
  import opened IndependentSet
  import opened Permutations
  import opened Options

  datatype Cell = Cell(width: real, height: real, bottomPower: int, topPower: int, region: int)

  type Matrix = seq<seq<int>>

  ghost predicate Square(m: Matrix) {
    forall i :: 0 <= i < |m| ==> |m[i]| == |m|
  }

  ghost function Identity(n: nat): (a: seq<nat>)
    ensures Permutes(a, n)
  {
    seq(n, i requires 0 <= i < n => i)
  }

  ghost function Chosen(m: Matrix, a: seq<nat>): (s: seq<real>)
    requires Square(m) && Permutes(a, |m|)
    ensures |s| == |m|
  {
    seq(|m|, i requires 0 <= i < |m| => m[i][a[i]] as real)
  }

  /** All that is assumed of the solver: what it returns, if anything, is an assignment that
      costs no more than leaving every cell where it is. */
  ghost predicate GoodSolver(solver: Matrix -> Option<seq<nat>>) {
    forall m: Matrix {:trigger solver(m)} :: (Square(m) && solver(m).Some?) ==>
      && Permutes(solver(m).value, |m|)
      && Sum(Chosen(m, solver(m).value)) <= Sum(Chosen(m, Identity(|m|)))
  }

  // ----- wirelength bounds under truncated costs

  lemma {:induction false} LengthNonNegative(net: Network, pos: Placement, e: nat)
    requires net.Fits(pos) && e < |net.edgePins|
    ensures net.HalfPerimeter(pos, e) >= 0.0
  {
    if |net.edgePins[e]| > 0 {
      HullIsRange(net.Xs(pos, e));
      HullIsRange(net.Ys(pos, e));
    }
  }

  lemma {:induction false} CostNonNegative(net: Network, pos: Placement, n: nat, at: Point)
    requires net.Fits(pos) && n < |pos|
    ensures NodeCost(net, pos, n, at) >= 0.0
  {
    var s := PinLengths(net, pos[n := at], n);
    forall k | 0 <= k < |s|
      ensures s[k] >= 0.0
    {
      LengthNonNegative(net, pos[n := at], net.pins[net.nodePins[n][k]].edge);
    }
    var zeros := seq(|s|, _ => 0.0);
    SumZero(zeros);
    SumMonotone(zeros, s);
  }

  /** Truncating non-negative costs loses less than one unit per entry, and nothing when the
      costs are whole. */
  lemma {:induction false} TruncationLoss(costs: seq<real>, ints: seq<real>)
    requires |costs| == |ints|
    requires forall i :: 0 <= i < |costs| ==> costs[i] >= 0.0 && ints[i] == Trunc(costs[i]) as real
    ensures Sum(ints) <= Sum(costs)
    ensures costs != [] ==> Sum(costs) < Sum(ints) + |costs| as real
    ensures (forall i :: 0 <= i < |costs| ==> Whole(costs[i])) ==> Sum(costs) == Sum(ints)
  {
    if costs != [] {
      TruncationLoss(costs[..|costs| - 1], ints[..|ints| - 1]);
    }
  }

  /** The cost matrix built for a list of cells: entry (i, j) prices cell i on cell j's spot. */
  ghost predicate IsCostMatrix(net: Network, pos: Placement, nodes: seq<nat>, m: Matrix)
    requires net.Fits(pos) && forall i :: 0 <= i < |nodes| ==> nodes[i] < |pos|
  {
    |m| == |nodes| && forall i :: 0 <= i < |m| ==> IsCostRow(net, pos, nodes, nodes[i], m[i])
  }

  ghost predicate IsCostRow(net: Network, pos: Placement, nodes: seq<nat>, n: nat, row: seq<int>)
    requires net.Fits(pos) && n < |pos| && forall i :: 0 <= i < |nodes| ==> nodes[i] < |pos|
  {
    |row| == |nodes| && forall j :: 0 <= j < |row| ==> row[j] == Trunc(NodeCost(net, pos, n, pos[nodes[j]]))
  }

  ghost predicate WholeCosts(net: Network, pos: Placement, nodes: seq<nat>)
    requires net.Fits(pos) && forall i :: 0 <= i < |nodes| ==> nodes[i] < |pos|
  {
    forall i, j :: 0 <= i < |nodes| && 0 <= j < |nodes| ==> Whole(NodeCost(net, pos, nodes[i], pos[nodes[j]]))
  }

  ghost function Spots(pos: Placement, nodes: seq<nat>, a: seq<nat>): (s: seq<Point>)
    requires forall i :: 0 <= i < |nodes| ==> nodes[i] < |pos|
    requires Permutes(a, |nodes|)
    ensures |s| == |nodes|
  {
    seq(|nodes|, i requires 0 <= i < |nodes| => pos[nodes[a[i]]])
  }

  /** The real cost of an assignment against its truncated cost. */
  lemma {:induction false} AssignmentLoss(net: Network, pos: Placement, nodes: seq<nat>, m: Matrix, a: seq<nat>)
    requires net.Fits(pos) && nodes != [] && forall i :: 0 <= i < |nodes| ==> nodes[i] < |pos|
    requires IsCostMatrix(net, pos, nodes, m) && Permutes(a, |nodes|)
    ensures var real' := Sum(Costs(net, pos, nodes, Spots(pos, nodes, a)));
      && Sum(Chosen(m, a)) <= real' < Sum(Chosen(m, a)) + |nodes| as real
      && (WholeCosts(net, pos, nodes) ==> real' == Sum(Chosen(m, a)))
  {
    hide NodeCost, Sum, Network.Valid, Trunc, Whole;
    var to := Spots(pos, nodes, a);
    forall i | 0 <= i < |nodes|
      ensures Costs(net, pos, nodes, to)[i] >= 0.0
      ensures Chosen(m, a)[i] == Trunc(Costs(net, pos, nodes, to)[i]) as real
      ensures WholeCosts(net, pos, nodes) ==> Whole(Costs(net, pos, nodes, to)[i])
    {
      CostNonNegative(net, pos, nodes[i], to[i]);
      assert IsCostRow(net, pos, nodes, nodes[i], m[i]);
    }
    TruncationLoss(Costs(net, pos, nodes, to), Chosen(m, a));
  }

  lemma {:induction false} IdentitySpots(pos: Placement, nodes: seq<nat>)
    requires forall i :: 0 <= i < |nodes| ==> nodes[i] < |pos|
    ensures Spots(pos, nodes, Identity(|nodes|)) == At(pos, nodes)
  {
  }

  /** What the listed cells pay where they stand, each net once a pin. */
  ghost function Paid(net: Network, pos: Placement, nodes: seq<nat>): real
    requires net.Fits(pos) && forall i :: 0 <= i < |nodes| ==> nodes[i] < |pos|
  {
    Sum(Costs(net, pos, nodes, At(pos, nodes)))
  }

  /** Independent cells that moved together pay what each would pay if it had moved alone. */
  lemma {:induction false} PaidAfter(net: Network, pos: Placement, nodes: seq<nat>, to: seq<Point>)
    requires net.Fits(pos) && |nodes| == |to| && forall i :: 0 <= i < |nodes| ==> nodes[i] < |pos|
    requires Independent(net, nodes)
    ensures Paid(net, PlaceAt(pos, nodes, to), nodes) == Sum(Costs(net, pos, nodes, to))
  {
    hide NodeCost, Network.Valid, NoSharedNet;
    var q := PlaceAt(pos, nodes, to);
    forall i | 0 <= i < |nodes|
      ensures At(q, nodes)[i] == to[i] && Costs(net, q, nodes, At(q, nodes))[i] == Costs(net, pos, nodes, to)[i]
    {
      PlaceAtEach(pos, nodes, to, i);
      forall m: nat | m < |pos| && m != nodes[i] && q[m] != pos[m]
        ensures NoSharedNet(net, m, nodes[i])
      {
        var j :| 0 <= j < |nodes| && nodes[j] == m;
        SharingIsMutual(net, nodes[i], m);
      }
      CostIgnoresStrangers(net, q, pos, nodes[i], to[i]);
    }
    assert Costs(net, q, nodes, At(q, nodes)) == Costs(net, pos, nodes, to);
  }

  lemma SharingIsMutual(net: Network, m: nat, n: nat)
    requires m < |net.nodePins| && n < |net.nodePins|
    ensures NoSharedNet(net, m, n) == NoSharedNet(net, n, m)
  {
  }

  /** The matching theorem. Trading places as any assignment that is no dearer than the identity in truncated
      costs raises what the cells pay by less than one unit a cell, and not at all if the costs are whole. With
      one pin on a net the total wirelength changes by exactly the sum of the cells' own cost changes. */
  lemma {:induction false} MatchingBound(net: Network, pos: Placement, nodes: seq<nat>, m: Matrix, a: seq<nat>)
    requires net.Fits(pos) && nodes != [] && forall i :: 0 <= i < |nodes| ==> nodes[i] < |pos|
    requires Independent(net, nodes)
    requires IsCostMatrix(net, pos, nodes, m) && Permutes(a, |nodes|)
    requires Sum(Chosen(m, a)) <= Sum(Chosen(m, Identity(|m|)))
    ensures var after := PlaceAt(pos, nodes, Spots(pos, nodes, a));
      && Paid(net, after, nodes) < Paid(net, pos, nodes) + |nodes| as real
      && (WholeCosts(net, pos, nodes) ==> Paid(net, after, nodes) <= Paid(net, pos, nodes))
      && (SinglePins(net, nodes) ==>
            net.Hpwl(after, MATCH_LIMIT) - net.Hpwl(pos, MATCH_LIMIT) == Paid(net, after, nodes) - Paid(net, pos, nodes))
  {
    hide Sum, Costs, Network.Hpwl, Network.Valid, Independent, SinglePins, WholeCosts, Chosen, PlaceAt;
    var to := Spots(pos, nodes, a);
    PaidAfter(net, pos, nodes, to);
    if SinglePins(net, nodes) {
      CostsAddUp(net, pos, nodes, to);
    }
    AssignmentLoss(net, pos, nodes, m, a);
    AssignmentLoss(net, pos, nodes, m, Identity(|m|));
    IdentitySpots(pos, nodes);
  }

  // ----- placing distinct nodes one by one, in any order

  lemma {:induction false} PlaceAtEach(pos: Placement, nodes: seq<nat>, to: seq<Point>, i: nat)
    requires |nodes| == |to| && (forall i :: 0 <= i < |nodes| ==> nodes[i] < |pos|) && i < |nodes|
    requires forall i, j :: 0 <= i < j < |nodes| ==> nodes[i] != nodes[j]
    ensures PlaceAt(pos, nodes, to)[nodes[i]] == to[i]
  {
    var k := |nodes| - 1;
    if i < k {
      PlaceAtEach(pos, nodes[..k], to[..k], i);
    }
  }

  /** A placement with every listed node on its target and everybody else unmoved. */
  lemma {:induction false} PlaceAtUnique(pos: Placement, nodes: seq<nat>, to: seq<Point>, r: Placement)
    requires |nodes| == |to| && (forall i :: 0 <= i < |nodes| ==> nodes[i] < |pos|) && |r| == |pos|
    requires forall i, j :: 0 <= i < j < |nodes| ==> nodes[i] != nodes[j]
    requires forall i :: 0 <= i < |nodes| ==> r[nodes[i]] == to[i]
    requires forall n: nat :: n < |pos| && n !in nodes ==> r[n] == pos[n]
    ensures r == PlaceAt(pos, nodes, to)
  {
    forall n: nat | n < |pos|
      ensures r[n] == PlaceAt(pos, nodes, to)[n]
    {
      if n in nodes {
        var i :| 0 <= i < |nodes| && nodes[i] == n;
        PlaceAtEach(pos, nodes, to, i);
      }
    }
  }

  /** Every listed cell stands where the assignment's cell stood, and nobody else moved. */
  ghost predicate Reassigned(p: Placement, q: Placement, nodes: seq<nat>, a: seq<nat>) {
    && |q| == |p| && Permutes(a, |nodes|) && (forall i :: 0 <= i < |nodes| ==> nodes[i] < |p|)
    && (forall i {:trigger nodes[i]} :: 0 <= i < |nodes| ==> q[nodes[i]] == p[nodes[a[i]]])
    && (forall n: nat :: n < |p| && n !in nodes ==> q[n] == p[n])
  }

  /** What a match does: two or more cells go where the solver's assignment for their cost matrix puts them; if it has
      none, or there is one cell, nobody moves. */
  ghost predicate Solved(net: Network, solver: Matrix -> Option<seq<nat>>, p: Placement, q: Placement, nodes: seq<nat>) {
    && net.Fits(p) && (forall i :: 0 <= i < |nodes| ==> nodes[i] < |p|)
    && if |nodes| <= 1 then q == p
       else exists m :: IsCostMatrix(net, p, nodes, m) && match solver(m)
         case None => q == p
         case Some(a) => Reassigned(p, q, nodes, a)
  }

  lemma AloneIsSolved(net: Network, solver: Matrix -> Option<seq<nat>>, p: Placement, nodes: seq<nat>)
    requires net.Fits(p) && |nodes| <= 1 && forall i :: 0 <= i < |nodes| ==> nodes[i] < |p|
    ensures Solved(net, solver, p, p, nodes)
  {
  }

  lemma MatrixSize(net: Network, p: Placement, nodes: seq<nat>, m: Matrix)
    requires net.Fits(p) && (forall i :: 0 <= i < |nodes| ==> nodes[i] < |p|) && IsCostMatrix(net, p, nodes, m)
    ensures |m| == |nodes| && Square(m)
  {
    forall i | 0 <= i < |m|
      ensures |m[i]| == |m|
    {
      assert IsCostRow(net, p, nodes, nodes[i], m[i]);
    }
  }

  lemma AssignedIsSolved(net: Network, solver: Matrix -> Option<seq<nat>>, p: Placement, nodes: seq<nat>, m: Matrix)
    requires net.Fits(p) && |nodes| >= 2 && (forall i :: 0 <= i < |nodes| ==> nodes[i] < |p|) && Distinct(nodes)
    requires IsCostMatrix(net, p, nodes, m) && (solver(m).Some? ==> Permutes(solver(m).value, |nodes|))
    ensures solver(m).None? ==> Solved(net, solver, p, p, nodes)
    ensures solver(m).Some? ==> Solved(net, solver, p, PlaceAt(p, nodes, Spots(p, nodes, solver(m).value)), nodes)
  {
    hide IsCostMatrix, Reassigned, PlaceAt, Spots;
    if solver(m).Some? {
      PlacedIsReassigned(p, nodes, solver(m).value);
    }
  }

  lemma {:induction false} PlacedIsReassigned(p: Placement, nodes: seq<nat>, a: seq<nat>)
    requires (forall i :: 0 <= i < |nodes| ==> nodes[i] < |p|) && Distinct(nodes) && Permutes(a, |nodes|)
    ensures Reassigned(p, PlaceAt(p, nodes, Spots(p, nodes, a)), nodes, a)
  {
    forall i | 0 <= i < |nodes|
      ensures PlaceAt(p, nodes, Spots(p, nodes, a))[nodes[i]] == p[nodes[a[i]]]
    {
      PlaceAtEach(p, nodes, Spots(p, nodes, a), i);
    }
  }

  // ----- what trading places conserves

  /** The outcome of one match: the cells permuted their spots; what they pay rose by at most one unit a cell, and
      not at all if all the costs compared were whole; so did the wirelength if they have one pin on a net. */
  ghost predicate FairTrade(net: Network, p: Placement, q: Placement, nodes: seq<nat>)
    requires net.Fits(p) && net.Fits(q)
  {
    && Traded(p, q, nodes)
    && Paid(net, q, nodes) <= Paid(net, p, nodes) + |nodes| as real
    && (WholeCosts(net, p, nodes) ==> Paid(net, q, nodes) <= Paid(net, p, nodes))
    && (SinglePins(net, nodes) ==> net.Hpwl(q, MATCH_LIMIT) - net.Hpwl(p, MATCH_LIMIT) == Paid(net, q, nodes) - Paid(net, p, nodes))
  }

  lemma {:induction false} StayingIsFair(net: Network, p: Placement, nodes: seq<nat>)
    requires net.Fits(p) && (forall i :: 0 <= i < |nodes| ==> nodes[i] < |p|) && Distinct(nodes)
    ensures FairTrade(net, p, p, nodes)
  {
    TradedSelf(p, nodes);
  }

  lemma {:induction false} TradeIsFair(net: Network, p: Placement, nodes: seq<nat>, m: Matrix, a: seq<nat>)
    requires net.Fits(p) && nodes != [] && forall i :: 0 <= i < |nodes| ==> nodes[i] < |p|
    requires Independent(net, nodes)
    requires IsCostMatrix(net, p, nodes, m) && Permutes(a, |nodes|)
    requires Sum(Chosen(m, a)) <= Sum(Chosen(m, Identity(|m|)))
    ensures FairTrade(net, p, PlaceAt(p, nodes, Spots(p, nodes, a)), nodes)
  {
    MatchingBound(net, p, nodes, m, a);
  }

  /** Some assignment takes placement `p` to `q`. */
  ghost predicate Traded(p: Placement, q: Placement, nodes: seq<nat>) {
    && (forall i :: 0 <= i < |nodes| ==> nodes[i] < |p|)
    && exists a: seq<nat> :: Permutes(a, |nodes|) && q == PlaceAt(p, nodes, Spots(p, nodes, a))
  }

  lemma {:induction false} TradedSelf(p: Placement, nodes: seq<nat>)
    requires forall i :: 0 <= i < |nodes| ==> nodes[i] < |p|
    requires forall i, j :: 0 <= i < j < |nodes| ==> nodes[i] != nodes[j]
    ensures Traded(p, p, nodes)
  {
    IdentitySpots(p, nodes);
    PlaceAtUnique(p, nodes, At(p, nodes), p);
  }

  /** Half-way through a move: the cells in `done` are on their targets, nobody else has moved. */
  ghost predicate Partial(was: Placement, pos: Placement, nodes: seq<nat>, to: seq<Point>, done: set<nat>) {
    && |was| == |pos| && |to| == |nodes|
    && (forall i: nat {:trigger nodes[i]} :: i < |nodes| ==>
          nodes[i] < |was| && pos[nodes[i]] == if i in done then to[i] else was[nodes[i]])
    && (forall n: nat :: n < |was| && n !in nodes ==> pos[n] == was[n])
  }

  /** Moving one more cell keeps that, and its cost is still what it was before anybody moved. */
  lemma {:induction false} PartialMove(net: Network, was: Placement, pos: Placement, nodes: seq<nat>, to: seq<Point>,
                                       done: set<nat>, i: nat)
    requires net.Fits(was) && net.Fits(pos) && i < |nodes| && i !in done
    requires Partial(was, pos, nodes, to, done) && Independent(net, nodes)
    ensures var next := pos[nodes[i] := to[i]];
      && Partial(was, next, nodes, to, done + {i})
      && NodeCost(net, next, nodes[i], to[i]) == NodeCost(net, was, nodes[i], to[i])
  {
    var next := pos[nodes[i] := to[i]];
    forall n: nat | n < |was| && n != nodes[i] && next[n] != was[n]
      ensures NoSharedNet(net, n, nodes[i])
    {
      var k :| 0 <= k < |nodes| && nodes[k] == n;
    }
    CostIgnoresStrangers(net, next, was, nodes[i], to[i]);
  }

  ghost function TruncatedCosts(net: Network, pos: Placement, nodes: seq<nat>, to: seq<Point>): (s: seq<real>)
    requires net.Fits(pos) && |nodes| == |to| && forall i :: 0 <= i < |nodes| ==> nodes[i] < |pos|
    ensures |s| == |nodes|
  {
    seq(|nodes|, i requires 0 <= i < |nodes| => Trunc(NodeCost(net, pos, nodes[i], to[i])) as real)
  }
}
