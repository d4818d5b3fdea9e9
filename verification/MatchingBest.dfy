/** What a match with a cheapest assignment achieves (detailed_mis.cxx): no other way to spread the gathered cells
    over their spots is better than its truncated costs can tell. */
module MatchingBest {
  import opened RealMath
  import opened Netlist
  import opened IndependentSet
  import opened Permutations
  import opened Matching
  import opened MatchingExact
  import opened Options

  /** The solver finds a cheapest assignment for every matrix. */
  ghost predicate CheapestSolver(solver: Matrix -> Option<seq<nat>>) {
    forall m: Matrix {:trigger solver(m)} :: Square(m) ==> solver(m).Some? && Cheapest(m, solver(m).value)
  }

  /** The cells spread over their spots in another way. */
  ghost function Spread(p: Placement, nodes: seq<nat>, b: seq<nat>): Placement
    requires (forall i :: 0 <= i < |nodes| ==> nodes[i] < |p|) && Permutes(b, |nodes|)
  {
    PlaceAt(p, nodes, Spots(p, nodes, b))
  }

  /** After a match of independent cells no other spread of them pays less by one unit a cell, and none at all if all
      costs are whole; with one pin on a net the same holds of the wirelength. */
  lemma {:induction false} MatchIsBest(net: Network, solver: Matrix -> Option<seq<nat>>, p: Placement, q: Placement, nodes: seq<nat>, b: seq<nat>)
    requires CheapestSolver(solver) && |nodes| >= 2 && Solved(net, solver, p, q, nodes) && Independent(net, nodes) && Permutes(b, |nodes|)
    ensures net.Fits(q) && net.Fits(Spread(p, nodes, b))
    ensures Paid(net, q, nodes) < Paid(net, Spread(p, nodes, b), nodes) + |nodes| as real
    ensures WholeCosts(net, p, nodes) ==> Paid(net, q, nodes) <= Paid(net, Spread(p, nodes, b), nodes)
    ensures SinglePins(net, nodes) ==>
      net.Hpwl(q, MATCH_LIMIT) - net.Hpwl(Spread(p, nodes, b), MATCH_LIMIT) == Paid(net, q, nodes) - Paid(net, Spread(p, nodes, b), nodes)
  {
    hide Network.Valid, IsCostMatrix, NoSharedNet, PlaceAt, Sum, Costs, Network.Hpwl, WholeCosts, SinglePins, Chosen, Reassigned;
    var m :| IsCostMatrix(net, p, nodes, m) && match solver(m)
      case None => q == p
      case Some(a) => Reassigned(p, q, nodes, a);
    MatrixSize(net, p, nodes, m);
    var a := solver(m).value;
    ReassignedIsPlaced(p, q, nodes, a);
    PaidAfter(net, p, nodes, Spots(p, nodes, a));
    PaidAfter(net, p, nodes, Spots(p, nodes, b));
    AssignmentLoss(net, p, nodes, m, a);
    AssignmentLoss(net, p, nodes, m, b);
    if SinglePins(net, nodes) {
      CostsAddUp(net, p, nodes, Spots(p, nodes, a));
      CostsAddUp(net, p, nodes, Spots(p, nodes, b));
    }
  }

  lemma ReassignedIsPlaced(p: Placement, q: Placement, nodes: seq<nat>, a: seq<nat>)
    requires Reassigned(p, q, nodes, a) && Distinct(nodes)
    ensures q == Spread(p, nodes, a)
  {
    PlaceAtUnique(p, nodes, Spots(p, nodes, a), q);
  }
}
