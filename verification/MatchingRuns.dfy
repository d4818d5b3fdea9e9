/** What every match of equal-sized cells conserves: the multiset of occupied rectangles, and
    whole-number pin coordinates. */
module MatchingRuns {
  import opened RealMath
  import opened Intervals
  import opened Netlist
  import opened IndependentSet
  import opened Permutations
  import opened Matching

  /** What occupies what: each node's size, power rails and region, and its centre. */
  ghost function Footprints(cells: seq<Cell>, pos: Placement): (s: seq<(Cell, Point)>)
    requires |cells| == |pos|
    ensures |s| == |pos|
  {
    seq(|pos|, n requires 0 <= n < |pos| => (cells[n], pos[n]))
  }

  /** Of one size, one region, and with the same power rails. */
  ghost predicate SameKind(cells: seq<Cell>, nodes: seq<nat>) {
    && (forall i :: 0 <= i < |nodes| ==> nodes[i] < |cells|)
    && (forall i, j :: 0 <= i < |nodes| && 0 <= j < |nodes| ==> cells[nodes[i]] == cells[nodes[j]])
  }

  /** The node whose spot node `n` ends on. */
  ghost function Source(nodes: seq<nat>, a: seq<nat>, n: nat): nat
    requires Permutes(a, |nodes|)
  {
    if n in nodes then (var i :| 0 <= i < |nodes| && nodes[i] == n; nodes[a[i]]) else n
  }

  lemma {:induction false} SourceOfListed(nodes: seq<nat>, a: seq<nat>, i: nat)
    requires Permutes(a, |nodes|) && Distinct(nodes) && i < |nodes|
    ensures Source(nodes, a, nodes[i]) == nodes[a[i]]
  {
  }

  lemma {:induction false} SourceInjective(nodes: seq<nat>, a: seq<nat>, m: nat, n: nat)
    requires Permutes(a, |nodes|) && Distinct(nodes) && m != n
    ensures Source(nodes, a, m) != Source(nodes, a, n)
  {
    if m in nodes && n in nodes {
      var i :| 0 <= i < |nodes| && nodes[i] == m;
      var j :| 0 <= j < |nodes| && nodes[j] == n;
      SourceOfListed(nodes, a, i);
      SourceOfListed(nodes, a, j);
    }
  }

  /** After a trade each node stands where its source stood. */
  lemma {:induction false} TradeReads(p: Placement, nodes: seq<nat>, a: seq<nat>, n: nat)
    requires (forall i :: 0 <= i < |nodes| ==> nodes[i] < |p|) && n < |p|
    requires Permutes(a, |nodes|) && Distinct(nodes)
    ensures Source(nodes, a, n) < |p|
    ensures PlaceAt(p, nodes, Spots(p, nodes, a))[n] == p[Source(nodes, a, n)]
  {
    if n in nodes {
      var i :| 0 <= i < |nodes| && nodes[i] == n;
      SourceOfListed(nodes, a, i);
      PlaceAtEach(p, nodes, Spots(p, nodes, a), i);
    }
  }

  /** Trading places among cells of one kind leaves what occupies what as it was, as a multiset of kinds and places: a
      legal placement stays legal. */
  lemma {:induction false} FootprintsConserved(cells: seq<Cell>, p: Placement, q: Placement, nodes: seq<nat>)
    requires |cells| == |p| == |q| && Distinct(nodes) && SameKind(cells, nodes) && Traded(p, q, nodes)
    ensures multiset(Footprints(cells, p)) == multiset(Footprints(cells, q))
  {
    var a :| Permutes(a, |nodes|) && q == PlaceAt(p, nodes, Spots(p, nodes, a));
    forall n: nat | n < |p|
      ensures Source(nodes, a, n) < |p|
      ensures Footprints(cells, q)[n] == Footprints(cells, p)[Source(nodes, a, n)]
    {
      TradeReads(p, nodes, a, n);
      SourceSameKind(cells, nodes, a, n);
    }
    var f := seq(|p|, n requires 0 <= n < |p| => Source(nodes, a, n));
    forall m, n | 0 <= m < n < |p|
      ensures f[m] != f[n]
    {
      SourceInjective(nodes, a, m, n);
    }
    Rearranged(Footprints(cells, p), Footprints(cells, q), f);
  }

  // ----- whole-number designs

  /** Cell edges and, measured from a cell's lower left corner, pins lie on whole numbers. */
  ghost predicate WholeDesign(net: Network, cells: seq<Cell>, pos: Placement)
    requires net.Fits(pos) && |cells| == |pos|
  {
    && (forall n :: 0 <= n < |pos| ==>
          Whole(pos[n].x - cells[n].width / 2.0) && Whole(pos[n].y - cells[n].height / 2.0))
    && (forall p :: 0 <= p < |net.pins| ==>
          Whole(net.pins[p].dx + cells[net.pins[p].node].width / 2.0)
          && Whole(net.pins[p].dy + cells[net.pins[p].node].height / 2.0))
  }

  lemma {:induction false} WholeAdd(a: real, b: real)
    requires Whole(a) && Whole(b)
    ensures Whole(a + b) && Whole(a - b)
  {
    IntIsWhole(a.Floor + b.Floor);
    IntIsWhole(a.Floor - b.Floor);
    assert a + b == (a.Floor + b.Floor) as real;
    assert a - b == (a.Floor - b.Floor) as real;
  }

  lemma {:induction false} IntIsWhole(i: int)
    ensures Whole(i as real)
  {
  }

  lemma {:induction false} WholeSum(s: seq<real>)
    requires forall i :: 0 <= i < |s| ==> Whole(s[i])
    ensures Whole(Sum(s))
  {
    if s != [] {
      WholeSum(s[..|s| - 1]);
      WholeAdd(Sum(s[..|s| - 1]), s[|s| - 1]);
    }
  }

  lemma {:induction false} WholeLength(net: Network, cells: seq<Cell>, pos: Placement, e: nat)
    requires net.Fits(pos) && |cells| == |pos| && WholeDesign(net, cells, pos) && e < |net.edgePins|
    ensures Whole(net.HalfPerimeter(pos, e))
  {
    var xs, ys := net.Xs(pos, e), net.Ys(pos, e);
    forall k | 0 <= k < |xs|
      ensures Whole(xs[k]) && Whole(ys[k])
    {
      var pin := net.pins[net.edgePins[e][k]];
      var n := pin.node;
      WholeAdd(pos[n].x - cells[n].width / 2.0, pin.dx + cells[n].width / 2.0);
      WholeAdd(pos[n].y - cells[n].height / 2.0, pin.dy + cells[n].height / 2.0);
    }
    if |xs| > 0 {
      HullIsRange(xs);
      HullIsRange(ys);
      WholeAdd(Hull(xs).hi, Hull(xs).lo);
      WholeAdd(Hull(ys).hi, Hull(ys).lo);
      WholeAdd(Hull(xs).Width(), Hull(ys).Width());
    }
  }

  lemma {:induction false} WholeNodeCost(net: Network, cells: seq<Cell>, pos: Placement, n: nat, m: nat)
    requires net.Fits(pos) && |cells| == |pos| && WholeDesign(net, cells, pos) && n < |pos| && m < |pos|
    requires cells[n].width == cells[m].width && cells[n].height == cells[m].height
    ensures Whole(NodeCost(net, pos, n, pos[m]))
  {
    var there := pos[n := pos[m]];
    assert WholeDesign(net, cells, there);
    forall k | 0 <= k < |net.nodePins[n]|
      ensures Whole(PinLengths(net, there, n)[k])
    {
      WholeLength(net, cells, there, net.pins[net.nodePins[n][k]].edge);
    }
    WholeSum(PinLengths(net, there, n));
  }

  /** In a whole design all the costs compared are whole... */
  lemma {:induction false} WholeDesignCosts(net: Network, cells: seq<Cell>, p: Placement, nodes: seq<nat>)
    requires net.Fits(p) && |cells| == |p| && WholeDesign(net, cells, p) && SameKind(cells, nodes)
    ensures WholeCosts(net, p, nodes)
  {
    forall i, j | 0 <= i < |nodes| && 0 <= j < |nodes|
      ensures Whole(NodeCost(net, p, nodes[i], p[nodes[j]]))
    {
      WholeNodeCost(net, cells, p, nodes[i], nodes[j]);
    }
  }

  /** ... and a trade keeps the design whole. */
  lemma {:induction false} WholeTrade(net: Network, cells: seq<Cell>, p: Placement, q: Placement, nodes: seq<nat>)
    requires net.Fits(p) && net.Fits(q) && |cells| == |p| && WholeDesign(net, cells, p)
    requires Distinct(nodes) && SameKind(cells, nodes) && Traded(p, q, nodes)
    ensures WholeDesign(net, cells, q)
  {
    forall n | 0 <= n < |q|
      ensures Whole(q[n].x - cells[n].width / 2.0) && Whole(q[n].y - cells[n].height / 2.0)
    {
      var m := TradeSource(cells, p, q, nodes, n);
    }
  }

  /** After a trade every node stands where some equal-sized node stood. */
  lemma {:induction false} TradeSource(cells: seq<Cell>, p: Placement, q: Placement, nodes: seq<nat>, n: nat) returns (m: nat)
    requires |cells| == |p| == |q| && n < |p|
    requires Distinct(nodes) && SameKind(cells, nodes) && Traded(p, q, nodes)
    ensures m < |p| && q[n] == p[m]
    ensures cells[m].width == cells[n].width && cells[m].height == cells[n].height
  {
    var a :| Permutes(a, |nodes|) && q == PlaceAt(p, nodes, Spots(p, nodes, a));
    m := Source(nodes, a, n);
    TradeReads(p, nodes, a, n);
    SourceSameKind(cells, nodes, a, n);
  }

  lemma {:induction false} SourceSameKind(cells: seq<Cell>, nodes: seq<nat>, a: seq<nat>, n: nat)
    requires Permutes(a, |nodes|) && Distinct(nodes) && SameKind(cells, nodes) && n < |cells|
    ensures var m := Source(nodes, a, n);
      m < |cells| && cells[m] == cells[n]
  {
    if n in nodes {
      var i :| 0 <= i < |nodes| && nodes[i] == n;
      SourceOfListed(nodes, a, i);
    }
  }

  // ----- any sequence of matches

  /** The relation between the placements before and after any number of fair trades that moved
      `moved` cells in all; of the wirelength only if all these cells have one pin on a net. */
  ghost predicate FairRun(net: Network, cells: seq<Cell>, p: Placement, q: Placement, moved: nat, single: bool)
    requires net.Fits(p) && net.Fits(q) && |cells| == |p|
  {
    && multiset(Footprints(cells, p)) == multiset(Footprints(cells, q))
    && (WholeDesign(net, cells, p) ==> WholeDesign(net, cells, q))
    && (single ==> net.Hpwl(q, MATCH_LIMIT) <= net.Hpwl(p, MATCH_LIMIT) + moved as real)
    && (single && WholeDesign(net, cells, p) ==> net.Hpwl(q, MATCH_LIMIT) <= net.Hpwl(p, MATCH_LIMIT))
  }

  lemma {:induction false} FairRunExtends(net: Network, cells: seq<Cell>, p: Placement, q: Placement, r: Placement, moved: nat, nodes: seq<nat>, single: bool)
    requires net.Fits(p) && net.Fits(q) && net.Fits(r) && |cells| == |p|
    requires FairRun(net, cells, p, q, moved, single) && FairTrade(net, q, r, nodes) && (single ==> SinglePins(net, nodes))
    requires Distinct(nodes) && SameKind(cells, nodes)
    ensures FairRun(net, cells, p, r, moved + |nodes|, single)
  {
    FootprintsConserved(cells, q, r, nodes);
    if WholeDesign(net, cells, p) {
      WholeDesignCosts(net, cells, q, nodes);
      WholeTrade(net, cells, q, r, nodes);
    }
  }
}
