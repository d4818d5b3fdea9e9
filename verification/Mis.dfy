/** Independent-set matching (detailed_mis.cxx): colour the cells, gather same-coloured cells near
    a seed, and let them trade places by a minimum-cost assignment. */
module Mis {
  import opened RealMath
  import IntMath
  import opened Intervals
  import opened Netlist
  import opened IndependentSet
  import opened Permutations
  import opened Matching
  import opened MatchingRuns
  import opened MisGrid
  import opened MisColoring
  import opened Options

  const MAX_TIMES_USED: nat := 2

  function Indices(n: nat): (r: set<nat>)
    ensures forall i: nat :: i in r <==> i < n
  {
    if n == 0 then {} else Indices(n - 1) + {n - 1}
  }

  /** What does not change while a pass goes over its seeds. */
  datatype Pass = Pass(net: Network, cells: seq<Cell>, colors: seq<int>, rowHeight: real, solver: Matrix -> Option<seq<nat>>,
                       bucket: map<Bin, seq<nat>>, cellToBin: map<nat, Bin>, dimW: int, dimH: int) {
    /** The seed with the partners collected from its bin outwards. */
    ghost predicate Neighbours(seed: nat, nbrs: seq<nat>) {
      seed in cellToBin && exists bins :: Collected(bucket, DetailedMis.Partners(cells, colors, rowHeight, seed), cellToBin[seed], seed, nbrs,
                                                    bins, dimW, dimH)
    }

    /** One seed: passed over if it was used twice; else its neighbourhood is matched and counted as used. */
    ghost predicate Round(p: Placement, used: seq<nat>, q: Placement, used': seq<nat>, seed: nat) {
      && seed < |used| == |used'|
      && if used[seed] >= MAX_TIMES_USED then q == p && used' == used
         else exists nbrs :: Neighbours(seed, nbrs) && Solved(net, solver, p, q, nbrs) && UsedOnceMore(used, used', nbrs)
    }

    ghost predicate UsedOnceMore(used: seq<nat>, used': seq<nat>, nbrs: seq<nat>) {
      |used'| == |used| && forall n :: 0 <= n < |used| ==> used'[n] == used[n] + if n in nbrs then 1 else 0
    }

    /** One round for each seed, in their order. */
    ghost predicate Rounds(p: Placement, used: seq<nat>, q: Placement, used': seq<nat>, seeds: seq<nat>)
      decreases |seeds|
    {
      if seeds == [] then q == p && used' == used
      else
        var n := |seeds| - 1;
        exists r, usedR :: Rounds(p, used, r, usedR, seeds[..n]) && Round(r, usedR, q, used', seeds[n])
    }

    lemma RoundsNext(p: Placement, used: seq<nat>, r: Placement, usedR: seq<nat>, q: Placement, used': seq<nat>, seeds: seq<nat>, seed: nat)
      requires Rounds(p, used, r, usedR, seeds) && Round(r, usedR, q, used', seed)
      ensures Rounds(p, used, q, used', seeds + [seed])
    {
      hide Round;
      assert (seeds + [seed])[..|seeds|] == seeds;
    }
  }

  class DetailedMis {
    const net: Network
    const cells: seq<Cell>
    const movable: seq<bool>
    const rowHeight: real
    const solver: Matrix -> Option<seq<nat>>
    const grid: SearchGrid

    var pos: Placement
    var colors: seq<int>
    var neighbours: seq<nat>
    var timesUsed: seq<nat>

    ghost predicate Static()
      reads this`pos
    {
      net.Fits(pos) && |cells| == |movable| == |pos| && rowHeight > 0.0
    }

    /** No movable cell has two pins on a net, as the costs take it. */
    ghost predicate AllSingle() {
      net.Valid() && forall n :: 0 <= n < |movable| && n < |net.nodePins| && movable[n] ==> OnePinPerNet(net, n)
    }

    /** The wirelength of the nets on `ndi` if it stood at `at`. */
    method GetHpwl(ndi: nat, at: Point) returns (hpwl: real)
      requires net.Fits(pos) && ndi < |pos|
      ensures hpwl == NodeCost(net, pos, ndi, at)
    {
      hpwl := 0.0;
      ghost var there := pos[ndi := at];
      ghost var lens := PinLengths(net, there, ndi);
      var ps := net.nodePins[ndi];
      for k := 0 to |ps|
        invariant hpwl == Sum(lens[..k])
      {
        SumPrefix(lens, k);
        var e := net.pins[ps[k]].edge;
        var npins := |net.edgePins[e]|;
        if npins <= 1 || npins > MATCH_LIMIT {
          continue;
        }
        var boxX, boxY := NetBox(e, ndi, at);
        hpwl := hpwl + (boxX.Width() + boxY.Width());
      }
      assert lens[..|ps|] == lens;
    }

    /** The bounding box of net `e` with `ndi` at `at`. */
    method NetBox(e: nat, ndi: nat, at: Point) returns (boxX: Interval, boxY: Interval)
      requires net.Fits(pos) && ndi < |pos| && e < |net.edgePins|
      ensures boxX == Hull(net.Xs(pos[ndi := at], e)) && boxY == Hull(net.Ys(pos[ndi := at], e))
    {
      hide Interval.Add;
      boxX, boxY := Empty, Empty;
      ghost var xs, ys := net.Xs(pos[ndi := at], e), net.Ys(pos[ndi := at], e);
      var qs := net.edgePins[e];
      for j := 0 to |qs|
        invariant boxX == Hull(xs[..j]) && boxY == Hull(ys[..j])
      {
        ExtendPrefix(Empty, xs, j);
        ExtendPrefix(Empty, ys, j);
        var pin := net.pins[qs[j]];
        boxX := boxX.Add(if pin.node == ndi then at.x + pin.dx else pos[pin.node].x + pin.dx);
        boxY := boxY.Add(if pin.node == ndi then at.y + pin.dy else pos[pin.node].y + pin.dy);
      }
      assert xs[..|qs|] == xs && ys[..|qs|] == ys;
    }

    /** The truncated cost of one gathered cell on every gathered spot. */
    method CostRow(ndi: nat) returns (row: seq<int>)
      requires net.Fits(pos) && ndi < |pos| && forall i :: 0 <= i < |neighbours| ==> neighbours[i] < |pos|
      ensures IsCostRow(net, pos, neighbours, ndi, row)
    {
      row := [];
      for j := 0 to |neighbours|
        invariant |row| == j
        invariant forall c :: 0 <= c < j ==> row[c] == Trunc(NodeCost(net, pos, ndi, pos[neighbours[c]]))
      {
        var cost := GetHpwl(ndi, pos[neighbours[j]]);
        row := row + [Trunc(cost)];
      }
    }

    /** The truncated cost of every gathered cell on every gathered spot. */
    method CostMatrix() returns (m: Matrix)
      requires net.Fits(pos) && forall i :: 0 <= i < |neighbours| ==> neighbours[i] < |pos|
      ensures IsCostMatrix(net, pos, neighbours, m)
    {
      m := [];
      for i := 0 to |neighbours|
        invariant |m| == i
        invariant forall k :: 0 <= k < i ==> IsCostRow(net, pos, neighbours, neighbours[k], m[k])
      {
        var row := CostRow(neighbours[i]);
        m := m + [row];
      }
    }

    constructor (net: Network, cells: seq<Cell>, movable: seq<bool>, rowHeight: real,
                 solver: Matrix -> Option<seq<nat>>, grid: SearchGrid, pos: Placement)
      ensures this.net == net && this.cells == cells && this.movable == movable && this.rowHeight == rowHeight
      ensures this.solver == solver && this.grid == grid && this.pos == pos
    {
      this.net, this.cells, this.movable, this.rowHeight := net, cells, movable, rowHeight;
      this.solver, this.grid, this.pos := solver, grid, pos;
      colors, neighbours, timesUsed := [], [], [];
    }

    /** The gathered cells may trade places without interfering. */
    ghost predicate Matchable(nodes: seq<nat>)
      reads this`pos
    {
      && net.Fits(pos)
      && (forall i :: 0 <= i < |nodes| ==> nodes[i] < |pos|)
      && Independent(net, nodes)
    }

    /** Matches the gathered cells to their own spots and moves them there. */
    method SolveMatch()
      requires Matchable(neighbours) && GoodSolver(solver)
      modifies this`pos
      ensures net.Fits(pos) && FairTrade(net, old(pos), pos, neighbours) && Solved(net, solver, old(pos), pos, neighbours)
    {
      hide NoSharedNet, FairTrade, Solved, IsCostMatrix, Network.Valid, Reassigned;
      StayingIsFair(net, pos, neighbours);
      if |neighbours| <= 1 {
        AloneIsSolved(net, solver, pos, neighbours);
        return;
      }
      var m := CostMatrix();
      var a := solver(m);
      MatrixSize(net, pos, neighbours, m);
      AssignedIsSolved(net, solver, pos, neighbours, m);
      if a.Some? {
        TradeIsFair(net, pos, neighbours, m, a.value);
        var to := SpotsOf(a.value);
        var _ := MoveCells(to);
      }
    }

    /** The spot each cell was assigned, copied before anybody moves. */
    method SpotsOf(a: seq<nat>) returns (to: seq<Point>)
      requires (forall i :: 0 <= i < |neighbours| ==> neighbours[i] < |pos|) && Permutes(a, |neighbours|)
      ensures to == Spots(pos, neighbours, a)
    {
      to := [];
      for i := 0 to |a|
        invariant |to| == i && forall k :: 0 <= k < i ==> to[k] == pos[neighbours[a[k]]]
      {
        to := to + [pos[neighbours[a[i]]]];
      }
    }

    /** Moves each cell to its target, in whatever order the solver's arcs come. The cost recounted
        on the way, with some cells already moved, is what it was before anybody moved. */
    method MoveCells(to: seq<Point>) returns (finalCost: int)
      requires Matchable(neighbours) && |to| == |neighbours|
      modifies this`pos
      ensures pos == PlaceAt(old(pos), neighbours, to)
      ensures finalCost as real == Sum(TruncatedCosts(net, old(pos), neighbours, to))
    {
      ghost var was, done: set<nat> := pos, {};
      ghost var costs := TruncatedCosts(net, was, neighbours, to);
      finalCost := 0;
      var todo := Indices(|neighbours|);
      MaskedNone(costs);
      while todo != {}
        invariant todo !! done && todo + done == Indices(|neighbours|)
        invariant Partial(was, pos, neighbours, to, done)
        invariant finalCost as real == Sum(Masked(costs, done))
      {
        hide Partial, Sum, TruncatedCosts, Matchable;
        var i :| i in todo;
        var icost := MoveCell(i, to, was, done);
        MaskedAdd(costs, done, i);
        finalCost := finalCost + icost;
        todo, done := todo - {i}, done + {i};
      }
      MaskedAll(costs, done);
      PlaceAtUnique(was, neighbours, to, pos);
    }

    method MoveCell(i: nat, to: seq<Point>, ghost was: Placement, ghost done: set<nat>) returns (icost: int)
      requires net.Fits(was) && Matchable(neighbours) && i < |neighbours| && i !in done
      requires Partial(was, pos, neighbours, to, done)
      modifies this`pos
      ensures Partial(was, pos, neighbours, to, done + {i})
      ensures icost as real == TruncatedCosts(net, was, neighbours, to)[i]
    {
      PartialMove(net, was, pos, neighbours, to, done, i);
      pos := pos[neighbours[i] := to[i]];
      var cost := GetHpwl(neighbours[i], to[i]);
      icost := Trunc(cost);
    }

    /** Cell `n` may trade places with the seed: another cell of the same colour, size, row span,
        power rails and region. */
    static predicate Compatible(cells: seq<Cell>, colors: seq<int>, rowHeight: real, seed: nat, n: nat) {
      && seed < |cells| && n < |cells| && |colors| == |cells| && rowHeight > 0.0
      && n != seed
      && colors[seed] == colors[n]
      && cells[seed].width == cells[n].width && cells[seed].height == cells[n].height
      && Spanned(cells, rowHeight, seed) == Spanned(cells, rowHeight, n)
      && cells[seed].bottomPower == cells[n].bottomPower && cells[seed].topPower == cells[n].topPower
      && cells[n].region == cells[seed].region
    }

    /** Another cell of the colour and of the kind. */
    static lemma CompatibleIsSameKind(cells: seq<Cell>, colors: seq<int>, rowHeight: real, seed: nat, n: nat)
      requires seed < |cells| && n < |cells| && |colors| == |cells| && rowHeight > 0.0
      ensures Compatible(cells, colors, rowHeight, seed, n) <==> n != seed && colors[n] == colors[seed] && cells[n] == cells[seed]
    {
    }

    static function Partners(cells: seq<Cell>, colors: seq<int>, rowHeight: real, seed: nat): nat -> bool {
      (n: nat) => Compatible(cells, colors, rowHeight, seed, n)
    }

    static function Spanned(cells: seq<Cell>, rowHeight: real, n: nat): int
      requires n < |cells| && rowHeight > 0.0
    {
      Trunc(cells[n].height / rowHeight + 0.5)
    }

    /** Colours the cells so that movable cells of one colour share no counted net. */
    method Color()
      requires Static() && |pos| > 0
      modifies this`colors
      ensures |colors| == |pos| && Separates(net, movable, colors)
    {
      colors := ColorCells(net, movable);
    }

    /** Ready to run: cells coloured apart, search grid in order. */
    ghost predicate Ready()
      reads this`pos, this`colors, grid
    {
      && Static() && |colors| == |pos| && Separates(net, movable, colors) && grid.Valid()
    }

    ghost function ThePass(): Pass
      reads this`colors, grid`bucket, grid`cellToBin
    {
      Pass(net, cells, colors, rowHeight, solver, grid.bucket, grid.cellToBin, grid.dimW, grid.dimH)
    }

    /** The grid has every candidate in the bin over its centre of this placement, in the candidates' order. */
    ghost predicate Populated(candidates: seq<nat>, p: Placement)
      reads grid`bucket, grid`cellToBin
    {
      && grid.stepX > 0.0 && grid.stepY > 0.0 && grid.Holds(candidates) && (forall i :: 0 <= i < |candidates| ==> candidates[i] < |p|)
      && (forall c :: c in candidates ==> c in grid.cellToBin && grid.cellToBin[c] == grid.BinOf(p[c]))
      && (forall b :: b in grid.bucket ==> grid.bucket[b] == grid.Over(candidates, p, b))
    }

    /** One pass over the seeds. However the solver and the search order behave, the occupied rectangles stay the
        same multiset; if cells have one pin on a net, the wirelength rises by at most one unit for each time a
        cell took part in a match, and in a whole-number design it never rises. */
    method Place(candidates: seq<nat>, seeds: seq<nat>)
      requires Ready() && GoodSolver(solver) && Distinct(candidates)
      requires forall i :: 0 <= i < |candidates| ==> candidates[i] < |pos| && movable[candidates[i]]
      requires forall i :: 0 <= i < |seeds| ==> seeds[i] in candidates
      modifies this`pos, this`neighbours, this`timesUsed, grid
      ensures Ready() && |timesUsed| == |pos|
      ensures FairRun(net, cells, old(pos), pos, IntMath.Total(timesUsed), AllSingle())
      ensures Populated(candidates, old(pos)) && ThePass().Rounds(old(pos), seq(|pos|, _ => 0), pos, timesUsed, seeds)
    {
      hide FairRun, Separates, AllSingle, Solved, Pass.Neighbours, Pass.Rounds, Populated, GoodSolver;
      Fill(candidates);
      timesUsed := seq(|pos|, _ => 0);
      IntMath.TotalZero(timesUsed);
      ghost var was, none, pass := pos, timesUsed, ThePass();
      RunStarts(was, none);
      for i := 0 to |seeds|
        invariant Ready() && Populated(candidates, was) && |timesUsed| == |pos| == |was| && ThePass() == pass
        invariant FairRun(net, cells, was, pos, IntMath.Total(timesUsed), AllSingle())
        invariant pass.Rounds(was, none, pos, timesUsed, seeds[..i])
      {
        NextSeed(candidates, seeds, i, was, none);
      }
      assert seeds[..|seeds|] == seeds;
    }

    method NextSeed(ghost candidates: seq<nat>, seeds: seq<nat>, i: nat, ghost was: Placement, ghost none: seq<nat>)
      requires Ready() && GoodSolver(solver) && Populated(candidates, was) && i < |seeds| && seeds[i] in candidates
      requires forall i :: 0 <= i < |candidates| ==> candidates[i] < |pos| && movable[candidates[i]]
      requires |timesUsed| == |pos| == |was| && FairRun(net, cells, was, pos, IntMath.Total(timesUsed), AllSingle())
      requires ThePass().Rounds(was, none, pos, timesUsed, seeds[..i])
      modifies this`pos, this`neighbours, this`timesUsed, grid`travId, grid`traversal
      ensures Ready() && |timesUsed| == |pos| && FairRun(net, cells, was, pos, IntMath.Total(timesUsed), AllSingle())
      ensures ThePass().Rounds(was, none, pos, timesUsed, seeds[..i + 1])
    {
      hide FairRun, Separates, AllSingle, Pass.Round, Pass.Rounds, Populated, GoodSolver;
      PopulatedHolds(candidates, was);
      ghost var p, used, pass := pos, timesUsed, ThePass();
      TrySeed(candidates, seeds[i], was);
      pass.RoundsNext(was, none, p, used, pos, timesUsed, seeds[..i], seeds[i]);
      assert seeds[..i + 1] == seeds[..i] + [seeds[i]];
    }

    method Fill(candidates: seq<nat>)
      requires Ready() && Distinct(candidates) && forall i :: 0 <= i < |candidates| ==> candidates[i] < |pos|
      modifies grid`bucket, grid`cellToBin
      ensures Ready() && Populated(candidates, pos)
    {
      grid.Populate(candidates, pos);
    }

    lemma PopulatedHolds(candidates: seq<nat>, p: Placement)
      requires Populated(candidates, p)
      ensures grid.Holds(candidates)
    {
    }

    lemma RunStarts(p: Placement, none: seq<nat>)
      requires Static() && p == pos && IntMath.Total(none) == 0
      ensures FairRun(net, cells, p, p, IntMath.Total(none), AllSingle()) && ThePass().Rounds(p, none, p, none, [])
    {
    }

    /** One seed, unless it has taken part often enough. */
    method TrySeed(ghost candidates: seq<nat>, ndi: nat, ghost was: Placement)
      requires Ready() && GoodSolver(solver) && grid.Holds(candidates) && ndi in candidates
      requires forall i :: 0 <= i < |candidates| ==> candidates[i] < |pos| && movable[candidates[i]]
      requires |timesUsed| == |pos| && net.Fits(was)
      requires FairRun(net, cells, was, pos, IntMath.Total(timesUsed), AllSingle())
      modifies this`pos, this`neighbours, this`timesUsed, grid`travId, grid`traversal
      ensures Ready() && grid.Holds(candidates) && |timesUsed| == |pos|
      ensures FairRun(net, cells, was, pos, IntMath.Total(timesUsed), AllSingle())
      ensures ThePass().Round(old(pos), old(timesUsed), pos, timesUsed, ndi)
    {
      hide FairTrade, FairRun, Separates, SinglePins, AllSingle, Solved, Pass.Neighbours;
      if timesUsed[ndi] < MAX_TIMES_USED {
        ghost var before := pos;
        MatchAround(candidates, ndi);
        FairRunExtends(net, cells, was, before, pos, IntMath.Total(timesUsed), neighbours, AllSingle());
        CountUses();
      }
    }

    /** Gathers partners for one seed and matches them. */
    method MatchAround(ghost candidates: seq<nat>, seed: nat)
      requires Ready() && GoodSolver(solver) && grid.Holds(candidates) && seed in candidates
      requires forall i :: 0 <= i < |candidates| ==> candidates[i] < |pos| && movable[candidates[i]]
      modifies this`pos, this`neighbours, grid`travId, grid`traversal
      ensures Ready() && grid.Holds(candidates)
      ensures Distinct(neighbours) && SameKind(cells, neighbours) && (AllSingle() ==> SinglePins(net, neighbours))
      ensures FairTrade(net, old(pos), pos, neighbours)
      ensures ThePass().Neighbours(seed, neighbours) && Solved(net, solver, old(pos), pos, neighbours)
    {
      hide FairTrade, Separates, Solved, Collected;
      var ok, nbrs, bins := grid.Gather(candidates, seed, Partners(cells, colors, rowHeight, seed));
      neighbours := nbrs;
      PartnersIndependent(nbrs, seed);
      SolveMatch();
    }

    lemma {:induction false} PartnersIndependent(nbrs: seq<nat>, seed: nat)
      requires Static() && |colors| == |pos| && Separates(net, movable, colors)
      requires |nbrs| > 0 && nbrs[0] == seed && Distinct(nbrs) && seed < |pos| && movable[seed]
      requires forall k :: 1 <= k < |nbrs| ==>
        nbrs[k] < |pos| && movable[nbrs[k]] && Compatible(cells, colors, rowHeight, seed, nbrs[k])
      ensures Matchable(nbrs) && SameKind(cells, nbrs) && (AllSingle() ==> SinglePins(net, nbrs))
    {
      forall i, j | 0 <= i < j < |nbrs|
        ensures NoSharedNet(net, nbrs[i], nbrs[j])
      {
        assert colors[nbrs[i]] == colors[nbrs[j]];
      }
    }

    /** One more use for every gathered cell. */
    method CountUses()
      requires (forall i :: 0 <= i < |neighbours| ==> neighbours[i] < |timesUsed|) && Distinct(neighbours)
      modifies this`timesUsed
      ensures |timesUsed| == old(|timesUsed|)
      ensures IntMath.Total(timesUsed) == old(IntMath.Total(timesUsed)) + |neighbours|
      ensures forall n :: 0 <= n < |timesUsed| ==> timesUsed[n] == old(timesUsed)[n] + if n in neighbours then 1 else 0
    {
      for j := 0 to |neighbours|
        invariant |timesUsed| == old(|timesUsed|)
        invariant forall n :: 0 <= n < |timesUsed| ==> timesUsed[n] == old(timesUsed)[n] + if n in neighbours[..j] then 1 else 0
        invariant IntMath.Total(timesUsed) == old(IntMath.Total(timesUsed)) + j
      {
        IntMath.TotalUpdate(timesUsed, neighbours[j]);
        assert neighbours[..j + 1] == neighbours[..j] + [neighbours[j]] && neighbours[j] !in neighbours[..j];
        timesUsed := timesUsed[neighbours[j] := timesUsed[neighbours[j]] + 1];
      }
    }
  }
}
