/** Row interleaving (detailed_interleaving.cxx, dp): windows of consecutive single-height cells are
    re-ordered by the small problem and kept only when its cost drops. */
module Interleave {
  import opened RealMath
  import opened Intervals
  import opened Netlist
  import opened Permutations
  import opened InterleaveSpec
  import opened InterleaveSolve
  import opened InterleaveClamp
  import opened InterleaveBuild

  // ----- facts about packed orders

  lemma {:induction false} PackedLength(p: Problem, order: seq<nat>)
    requires Permutes(order, |p.widths|)
    ensures Cells(p, order) && Lists(p, order)
    ensures LeftOf(p, order, |order|) == p.xmin + Sum(p.widths)
  {
    assert order[..|order|] == order;
    PermutesAll(order, |p.widths|);
    Rearranged(p.widths, WidthsOf(p, order), order);
    SumPermutation(WidthsOf(p, order), p.widths);
  }

  lemma {:induction false} LeftOfMonotone(p: Problem, order: seq<nat>, j: nat, k: nat)
    requires Cells(p, order) && j <= k <= |order|
    requires forall n :: 0 <= n < |p.widths| ==> p.widths[n] >= 0.0
    ensures LeftOf(p, order, j) <= LeftOf(p, order, k)
    decreases k
  {
    if j < k {
      LeftOfNext(p, order, k - 1);
      LeftOfMonotone(p, order, j, k - 1);
    }
  }

  /** Packed cells stay between the window's ends. */
  lemma {:induction false} PackedInside(p: Problem, order: seq<nat>, x: seq<real>, n: nat)
    requires Permutes(order, |p.widths|) && Cells(p, order) && PackedAs(p, order, x) && n < |x|
    requires Sum(p.widths) <= p.xmax - p.xmin
    requires forall n :: 0 <= n < |p.widths| ==> p.widths[n] >= 0.0
    ensures p.xmin <= x[n] - 0.5 * p.widths[n] && x[n] + 0.5 * p.widths[n] <= p.xmax
  {
    PermutesAll(order, |p.widths|);
    assert n in order;
    var k :| 0 <= k < |order| && order[k] == n;
    PackedLength(p, order);
    LeftOfMonotone(p, order, 0, k);
    LeftOfNext(p, order, k);
    LeftOfMonotone(p, order, k + 1, |order|);
    assert LeftOf(p, order, 0) == p.xmin by {
      assert WidthsOf(p, order[..0]) == [];
    }
  }

  /** Consecutive packed cells touch. */
  lemma {:induction false} PackedGap(p: Problem, order: seq<nat>, x: seq<real>, k: nat)
    requires Cells(p, order) && PackedAs(p, order, x) && 0 < k < |order|
    ensures x[order[k - 1]] + 0.5 * p.widths[order[k - 1]] == x[order[k]] - 0.5 * p.widths[order[k]]
  {
    LeftOfNext(p, order, k - 1);
  }

  ghost function Reordered(nodes: seq<nat>, order: seq<nat>): (s: seq<nat>)
    requires forall k :: 0 <= k < |order| ==> order[k] < |nodes|
    ensures |s| == |order|
  {
    seq(|order|, k requires 0 <= k < |order| => nodes[order[k]])
  }

  /** A packing leaves the cells spread out between the window's ends. */
  lemma {:induction false} PackedSpread(p: Problem, order: seq<nat>, x: seq<real>, pos: Placement, q: Placement,
                                        nodes: seq<nat>, size: seq<real>, lo: real, hi: real)
    requires Permutes(order, |p.widths|) && Cells(p, order) && PackedAs(p, order, x) && |nodes| == |x|
    requires Sum(p.widths) <= p.xmax - p.xmin && lo <= p.xmin && p.xmax <= hi
    requires InterleaveClamp.Moved(pos, q, nodes, x) && |size| == |pos|
    requires forall n :: 0 <= n < |nodes| ==> 0.0 <= size[nodes[n]] <= p.widths[n]
    ensures Spread(q, Reordered(nodes, order), size, lo, hi)
  {
    hide CentreOf;
    var list := Reordered(nodes, order);
    forall k | 0 < k < |list|
      ensures RightEnd(q, size, list[k - 1]) <= LeftEnd(q, size, list[k])
    {
      PackedGap(p, order, x, k);
    }
    if list != [] {
      PackedInside(p, order, x, order[0]);
      PackedInside(p, order, x, order[|order| - 1]);
    }
  }

  /** Every pin sits over its own cell. */
  ghost predicate PinsInCells(net: Network, widths: seq<real>)
    requires net.Valid() && |widths| == |net.nodePins|
  {
    forall p :: 0 <= p < |net.pins| ==>
      -0.5 * widths[net.pins[p].node] <= net.pins[p].dx <= 0.5 * widths[net.pins[p].node]
  }

  /** If every cell, at its own width, lies between the window's ends, so do its pins. */
  lemma {:induction false} CellsInsidePinsInside(p: Problem, net: Network, pos: Placement, nodes: seq<nat>, ids: seq<nat>,
                                                 widths: seq<real>, x: seq<real>)
    requires Window(net, pos, nodes) && Models(p, net, pos, nodes, ids) && |x| == |nodes| && |widths| == |pos|
    requires PinsInCells(net, widths)
    requires forall n :: 0 <= n < |x| ==> p.xmin <= x[n] - 0.5 * widths[nodes[n]] && x[n] + 0.5 * widths[nodes[n]] <= p.xmax
    ensures PinsInside(p, x)
  {
    forall n, m | 0 <= n < |x| && 0 <= m < |p.adj[n]|
      ensures p.xmin <= x[n] + p.adj[n][m].offset <= p.xmax
    {
      var pin := p.adj[n][m];
      assert PinOn(pin.edge, pin.offset) in p.adj[n];
      assert HasPin(net, ids[pin.edge], nodes[n], pin.offset);
    }
  }

  /** A row's geometry: cell widths, padding and the site width. */
  datatype Row = Row(widths: seq<real>, leftPad: seq<real>, rightPad: seq<real>, siteWidth: real) {
    ghost predicate Valid(n: nat) {
      && |widths| == |leftPad| == |rightPad| == n && siteWidth > 0.0
      && forall k :: 0 <= k < n ==> widths[k] >= 0.0 && leftPad[k] >= 0.0 && rightPad[k] >= 0.0
    }

    /** Width including both paddings. */
    ghost function Padded(): (s: seq<real>)
      requires |widths| == |leftPad| == |rightPad|
      ensures |s| == |widths|
    {
      seq(|widths|, k requires 0 <= k < |widths| => widths[k] + leftPad[k] + rightPad[k])
    }

    ghost predicate Symmetric() {
      leftPad == rightPad
    }
  }

  /** What `Build` promises about the small problem of a window. */
  ghost predicate BuiltFor(p: Problem, net: Network, pos: Placement, nodes: seq<nat>, ids: seq<nat>, row: Row,
                           leftLimit: real, rightLimit: real)
    requires Window(net, pos, nodes) && row.Valid(|pos|) && nodes != []
  {
    && Models(p, net, pos, nodes, ids)
    && leftLimit <= p.xmin && p.xmax <= rightLimit
    && Sum(p.widths) <= p.xmax - p.xmin
    && (forall n :: 0 <= n < |nodes| ==> p.widths[n] >= row.widths[nodes[n]])
    && (Spread(pos, nodes, row.widths, leftLimit, rightLimit) ==>
          p.xmin <= LeftEnd(pos, row.widths, nodes[0]) && RightEnd(pos, row.widths, nodes[|nodes| - 1]) <= p.xmax)
    && (row.Symmetric() && Spread(pos, nodes, row.Padded(), leftLimit, rightLimit) ==>
          forall n :: 0 <= n < |nodes| ==> p.widths[n] >= row.Padded()[nodes[n]])
  }

  /** The room a window gets and its cells' widths: with their padding if there is room for it, else without. It goes
      from the first cell's padding to the last one's, as far as the limits allow, before it is enlarged. */
  ghost function RoomOf(pos: Placement, nodes: seq<nat>, row: Row, leftLimit: real, rightLimit: real): Space
    requires row.Valid(|pos|) && nodes != [] && forall n :: 0 <= n < |nodes| ==> nodes[n] < |pos|
  {
    var ndl, ndr := nodes[0], nodes[|nodes| - 1];
    SpaceFor(Sizes(row.widths, nodes), Sizes(row.Padded(), nodes), Max(pos[ndl].x - 0.5 * row.widths[ndl] - row.leftPad[ndl], leftLimit),
             Min(pos[ndr].x + 0.5 * row.widths[ndr] + row.rightPad[ndr], rightLimit), leftLimit, rightLimit, row.siteWidth)
  }

  lemma RoomBetweenEdges(pos: Placement, nodes: seq<nat>, row: Row, leftLimit: real, rightLimit: real)
    requires row.Valid(|pos|) && nodes != [] && forall n :: 0 <= n < |nodes| ==> nodes[n] < |pos|
    ensures RoomOf(pos, nodes, row, leftLimit, rightLimit) ==
      SpaceFor(Sizes(row.widths, nodes), Sizes(row.Padded(), nodes), LeftEdge(pos, nodes, row, leftLimit),
               RightEdge(pos, nodes, row, rightLimit), leftLimit, rightLimit, row.siteWidth)
  {
  }

  function LeftEdge(pos: Placement, nodes: seq<nat>, row: Row, limit: real): (x: real)
    requires row.Valid(|pos|) && nodes != [] && nodes[0] < |pos|
    ensures limit <= x
  {
    Max(LeftEnd(pos, row.widths, nodes[0]) - row.leftPad[nodes[0]], limit)
  }

  function RightEdge(pos: Placement, nodes: seq<nat>, row: Row, limit: real): (x: real)
    requires row.Valid(|pos|) && nodes != [] && nodes[|nodes| - 1] < |pos|
    ensures x <= limit
  {
    var ndr := nodes[|nodes| - 1];
    Min(RightEnd(pos, row.widths, ndr) + row.rightPad[ndr], limit)
  }

  /** Cells that stand apart within the limits fit between the edges. */
  lemma {:induction false} SpreadRoom(pos: Placement, nodes: seq<nat>, row: Row, leftLimit: real, rightLimit: real)
    requires row.Valid(|pos|) && nodes != [] && forall n :: 0 <= n < |nodes| ==> nodes[n] < |pos|
    ensures Spread(pos, nodes, row.widths, leftLimit, rightLimit) ==>
      Sum(Sizes(row.widths, nodes)) <= RightEdge(pos, nodes, row, rightLimit) - LeftEdge(pos, nodes, row, leftLimit)
    ensures Spread(pos, nodes, row.widths, leftLimit, rightLimit) ==>
      LeftEdge(pos, nodes, row, leftLimit) <= LeftEnd(pos, row.widths, nodes[0])
      && RightEnd(pos, row.widths, nodes[|nodes| - 1]) <= RightEdge(pos, nodes, row, rightLimit)
    ensures row.Symmetric() && Spread(pos, nodes, row.Padded(), leftLimit, rightLimit) ==>
      Sum(Sizes(row.Padded(), nodes)) <= RightEdge(pos, nodes, row, rightLimit) - LeftEdge(pos, nodes, row, leftLimit)
  {
    hide Sum;
    if Spread(pos, nodes, row.widths, leftLimit, rightLimit) {
      SpreadFits(pos, nodes, row.widths, leftLimit, rightLimit);
    }
    if row.Symmetric() && Spread(pos, nodes, row.Padded(), leftLimit, rightLimit) {
      SpreadFits(pos, nodes, row.Padded(), leftLimit, rightLimit);
    }
  }

  lemma PaddedWider(row: Row, nodes: seq<nat>, n: nat)
    requires row.Valid(n) && forall k :: 0 <= k < |nodes| ==> nodes[k] < n
    ensures forall k :: 0 <= k < |nodes| ==> Sizes(row.widths, nodes)[k] <= Sizes(row.Padded(), nodes)[k]
  {
  }

  /** When the cells stand without overlap inside the limits there always is room, so the abort is never taken. */
  lemma {:induction false} RoomFits(pos: Placement, nodes: seq<nat>, row: Row, leftLimit: real, rightLimit: real)
    requires row.Valid(|pos|) && nodes != [] && forall n :: 0 <= n < |nodes| ==> nodes[n] < |pos|
    ensures var r := RoomOf(pos, nodes, row, leftLimit, rightLimit);
      && (r.Space? ==> leftLimit <= r.xmin && r.xmax <= rightLimit && |r.widths| == |nodes| && Sum(r.widths) <= r.xmax - r.xmin)
      && (r.Space? ==> forall n :: 0 <= n < |nodes| ==> r.widths[n] >= row.widths[nodes[n]])
    ensures var r := RoomOf(pos, nodes, row, leftLimit, rightLimit);
      Spread(pos, nodes, row.widths, leftLimit, rightLimit) ==>
        r.Space? && r.xmin <= LeftEnd(pos, row.widths, nodes[0]) && RightEnd(pos, row.widths, nodes[|nodes| - 1]) <= r.xmax
    ensures var r := RoomOf(pos, nodes, row, leftLimit, rightLimit);
      r.Space? && row.Symmetric() && Spread(pos, nodes, row.Padded(), leftLimit, rightLimit) ==>
        forall n :: 0 <= n < |nodes| ==> r.widths[n] >= row.Padded()[nodes[n]]
  {
    SpreadRoom(pos, nodes, row, leftLimit, rightLimit);
    PaddedWider(row, nodes, |pos|);
    RoomBetweenEdges(pos, nodes, row, leftLimit, rightLimit);
    hide Spread, Sum, SpaceFor, LeftEdge, RightEdge, RoomOf;
    SpaceFits(Sizes(row.widths, nodes), Sizes(row.Padded(), nodes), LeftEdge(pos, nodes, row, leftLimit),
              RightEdge(pos, nodes, row, rightLimit), leftLimit, rightLimit, row.siteWidth);
  }

  /** The room a window gets and the widths its cells get in it. */
  method Room(pos: Placement, nodes: seq<nat>, row: Row, leftLimit: real, rightLimit: real)
      returns (ok: bool, xmin: real, xmax: real, ws: seq<real>)
    requires row.Valid(|pos|) && nodes != [] && forall n :: 0 <= n < |nodes| ==> nodes[n] < |pos|
    ensures RoomOf(pos, nodes, row, leftLimit, rightLimit) == if ok then Space(xmin, xmax, ws) else NoSpace
    ensures leftLimit <= xmin && xmax <= rightLimit
    ensures ok ==> |ws| == |nodes| && Sum(ws) <= xmax - xmin && forall n :: 0 <= n < |nodes| ==> ws[n] >= row.widths[nodes[n]]
    ensures Spread(pos, nodes, row.widths, leftLimit, rightLimit) ==>
      ok && xmin <= LeftEnd(pos, row.widths, nodes[0]) && RightEnd(pos, row.widths, nodes[|nodes| - 1]) <= xmax
    ensures ok && row.Symmetric() && Spread(pos, nodes, row.Padded(), leftLimit, rightLimit) ==>
      forall n :: 0 <= n < |nodes| ==> ws[n] >= row.Padded()[nodes[n]]
  {
    var plain := seq(|nodes|, n requires 0 <= n < |nodes| && nodes[n] < |row.widths| => row.widths[nodes[n]]);
    var padded := seq(|nodes|, n requires 0 <= n < |nodes| && nodes[n] < |row.widths| == |row.leftPad| == |row.rightPad| =>
      row.widths[nodes[n]] + row.leftPad[nodes[n]] + row.rightPad[nodes[n]]);
    assert plain == Sizes(row.widths, nodes) && padded == Sizes(row.Padded(), nodes);
    RoomFits(pos, nodes, row, leftLimit, rightLimit);
    RoomBetweenEdges(pos, nodes, row, leftLimit, rightLimit);
    hide Spread, Sum, SpaceFor, LeftEdge, RightEdge, RoomOf;
    ok, xmin, xmax, ws := FindSpace(plain, padded, LeftEdge(pos, nodes, row, leftLimit), RightEdge(pos, nodes, row, rightLimit),
                                    leftLimit, rightLimit, row.siteWidth);
  }

  /** Sets up the small problem of a window, if there is room for its cells; there is when they stand without
      overlap between the limits. */
  method Build(net: Network, pos: Placement, nodes: seq<nat>, row: Row, leftLimit: real, rightLimit: real)
      returns (ok: bool, shape: Problem, ghost ids: seq<nat>)
    requires Window(net, pos, nodes) && row.Valid(|pos|) && nodes != []
    ensures Spread(pos, nodes, row.widths, leftLimit, rightLimit) ==> ok
    ensures ok <==> RoomOf(pos, nodes, row, leftLimit, rightLimit).Space?
    ensures ok ==> BuiltFor(shape, net, pos, nodes, ids, row, leftLimit, rightLimit)
    ensures ok ==> RoomOf(pos, nodes, row, leftLimit, rightLimit) == Space(shape.xmin, shape.xmax, shape.widths)
  {
    var edges := CollectNets(net, nodes);
    ids := edges;
    var xmin, xmax, ws;
    ok, xmin, xmax, ws := Room(pos, nodes, row, leftLimit, rightLimit);
    var adj, boxes := AttachAll(net, pos, nodes, edges, xmin, xmax);
    shape := Problem(xmin, xmax, adj, ws, boxes);
    if !ok {
      return;
    }
    SumNotNegative(ws);
    assert shape.Valid() by {
      forall i, k | 0 <= i < |adj| && 0 <= k < |adj[i]|
        ensures adj[i][k].edge < |boxes|
      {
        assert adj[i][k] in adj[i];
      }
    }
    forall n, k: nat, off | 0 <= n < |nodes| && k < |edges|
      ensures PinOn(k, off) in adj[n] <==> HasPin(net, edges[k], nodes[n], off)
    {
      assert PinOn(k, off) in adj[n] <==> k < |edges| && HasPin(net, edges[k], nodes[n], off);
    }
  }

  lemma {:induction false} SumNotNegative(s: seq<real>)
    requires forall i :: 0 <= i < |s| ==> s[i] >= 0.0
    ensures Sum(s) >= 0.0
  {
    if s != [] {
      SumNotNegative(s[..|s| - 1]);
    }
  }

  // ----- one window

  /** The first k cells in window order. */
  ghost function FirstCost(p: Problem, x: seq<real>): real
    requires p.Valid() && |x| == |p.widths|
  {
    CostOf(p, Count(|x|), x)
  }

  lemma {:induction false} FirstCostAlong(p: Problem, order: seq<nat>, x: seq<real>)
    requires p.Valid() && |x| == |p.widths| && Permutes(order, |x|)
    requires forall e :: 0 <= e < |p.netBoxes| ==> Ordered(p.netBoxes[e])
    ensures Cells(p, order) && FirstCost(p, x) == CostOf(p, order, Along(order, x))
  {
    var first := Count(|x|);
    assert Along(first, x) == x;
    PermutesAll(order, |x|);
    PermutesAll(first, |x|);
    CostIgnoresOrder(p, first, order, x);
  }

  /** The cost of the current placement, net boxes stretched cell by cell. */
  method InitCost(p: Problem, x: seq<real>) returns (cost: real)
    requires p.Valid() && |x| == |p.widths|
    ensures cost == FirstCost(p, x)
  {
    var boxes := p.netBoxes;
    assert boxes == Boxes(p, Count(|x|)[..0], x[..0]);
    for n := 0 to |x|
      invariant boxes == Boxes(p, Count(|x|)[..n], x[..n])
    {
      boxes := StretchCell(p, boxes, n, x[n]);
      forall e: nat | e < |p.netBoxes|
        ensures boxes[e] == BoxOf(p, Count(|x|)[..n + 1], x[..n + 1], e)
      {
        BoxStep(p, Count(|x|)[..n + 1], x[..n + 1], e);
        assert Count(|x|)[..n + 1][..n] == Count(|x|)[..n] && x[..n + 1][..n] == x[..n];
      }
      assert boxes == Boxes(p, Count(|x|)[..n + 1], x[..n + 1]);
    }
    assert Count(|x|)[..|x|] == Count(|x|) && x[..|x|] == x;
    cost := SumWidths(boxes);
  }

  /** Boxes stretched to the first k pins of a cell at x. */
  ghost predicate StretchedTo(boxes0: seq<Interval>, boxes: seq<Interval>, pins: seq<PinOn>, k: nat, x: real)
    requires k <= |pins|
  {
    |boxes| == |boxes0| && forall e: nat :: e < |boxes| ==> boxes[e] == Extend(boxes0[e], PinCoords(pins[..k], x, e))
  }

  lemma {:induction false} StretchOne(boxes0: seq<Interval>, boxes: seq<Interval>, pins: seq<PinOn>, k: nat, x: real)
    requires k < |pins| && StretchedTo(boxes0, boxes, pins, k, x) && pins[k].edge < |boxes|
    ensures StretchedTo(boxes0, boxes[pins[k].edge := boxes[pins[k].edge].Add(x + pins[k].offset)], pins, k + 1, x)
  {
    hide Extend, PinCoords, Interval.Add;
    forall e: nat | e < |boxes|
      ensures Extend(boxes0[e], PinCoords(pins[..k + 1], x, e))
           == if e == pins[k].edge then boxes[e].Add(x + pins[k].offset) else boxes[e]
    {
      PinCoordsNext(pins, k, x, e);
      ExtendSnoc(boxes0[e], PinCoords(pins[..k], x, e), x + pins[k].offset);
    }
  }

  method StretchCell(p: Problem, boxes0: seq<Interval>, n: nat, x: real) returns (boxes: seq<Interval>)
    requires p.Valid() && n < |p.adj| && |boxes0| == |p.netBoxes|
    ensures |boxes| == |boxes0|
    ensures forall e: nat :: e < |boxes| ==> boxes[e] == Extend(boxes0[e], PinCoords(p.adj[n], x, e))
  {
    hide StretchedTo, Interval.Add, Extend, PinCoords;
    boxes := boxes0;
    var pins := p.adj[n];
    StretchNone(boxes0, pins, x);
    for k := 0 to |pins|
      invariant |boxes| == |boxes0| && StretchedTo(boxes0, boxes, pins, k, x)
    {
      var pin := pins[k];
      StretchOne(boxes0, boxes, pins, k, x);
      boxes := boxes[pin.edge := boxes[pin.edge].Add(x + pin.offset)];
    }
    StretchAll(boxes0, boxes, pins, x);
  }

  lemma StretchNone(boxes: seq<Interval>, pins: seq<PinOn>, x: real)
    ensures StretchedTo(boxes, boxes, pins, 0, x)
  {
  }

  lemma StretchAll(boxes0: seq<Interval>, boxes: seq<Interval>, pins: seq<PinOn>, x: real)
    requires StretchedTo(boxes0, boxes, pins, |pins|, x)
    ensures |boxes| == |boxes0| && forall e: nat :: e < |boxes| ==> boxes[e] == Extend(boxes0[e], PinCoords(pins, x, e))
  {
    hide Extend, PinCoords;
    assert pins[..|pins|] == pins;
  }

  lemma {:induction false} PinCoordsNext(pins: seq<PinOn>, k: nat, x: real, e: nat)
    requires k < |pins|
    ensures pins[k].edge == e ==> PinCoords(pins[..k + 1], x, e) == PinCoords(pins[..k], x, e) + [x + pins[k].offset]
    ensures pins[k].edge != e ==> PinCoords(pins[..k + 1], x, e) == PinCoords(pins[..k], x, e)
  {
    assert pins[..k + 1][..k] == pins[..k];
  }

  method SumWidths(boxes: seq<Interval>) returns (cost: real)
    ensures cost == Sum(Widths(boxes))
  {
    cost := 0.0;
    for e := 0 to |boxes|
      invariant cost == Sum(Widths(boxes)[..e])
    {
      SumPrefix(Widths(boxes), e);
      cost := cost + boxes[e].Width();
    }
    assert Widths(boxes)[..|boxes|] == Widths(boxes);
  }

  /** Only the window's cells moved, only sideways, and they stand spread out between the limits in a
      new order. */
  ghost predicate Relocated(row: Row, pos: Placement, q: Placement, nodes: seq<nat>, nodes': seq<nat>,
                            leftLimit: real, rightLimit: real)
    requires row.Valid(|pos|)
  {
    && |q| == |pos|
    && (forall m: nat :: m < |pos| ==> q[m].y == pos[m].y)
    && (forall m: nat :: m < |pos| && m !in nodes ==> q[m] == pos[m])
    && multiset(nodes') == multiset(nodes)
    && Spread(q, nodes', row.widths, leftLimit, rightLimit)
    && (row.Symmetric() && Spread(pos, nodes, row.Padded(), leftLimit, rightLimit) ==>
          Spread(q, nodes', row.Padded(), leftLimit, rightLimit))
  }

  /** What an accepted window guarantees: the cells are relocated within the limits and the true
      wirelength went strictly down, by exactly the gain in cost. */
  ghost predicate Improved(net: Network, row: Row, pos: Placement, q: Placement, nodes: seq<nat>, nodes': seq<nat>,
                           leftLimit: real, rightLimit: real, gain: real)
    requires Window(net, pos, nodes) && row.Valid(|pos|)
  {
    && net.Fits(q) && Relocated(row, pos, q, nodes, nodes', leftLimit, rightLimit)
    && gain > 0.0 && net.Hpwl(q, LIMIT) == net.Hpwl(pos, LIMIT) - gain
  }

  ghost function CentresAt(pos: Placement, nodes: seq<nat>): (x: seq<real>)
    requires forall n :: 0 <= n < |nodes| ==> nodes[n] < |pos|
    ensures |x| == |nodes|
  {
    seq(|nodes|, n requires 0 <= n < |nodes| => pos[nodes[n]].x)
  }

  /** What an accepted window does, with all it is computed from: the small problem p of nets `ids` in the room
      there is, the cells sorted, passed five times and packed at `x`, for less than they cost where they were. */
  ghost predicate Accepts(net: Network, row: Row, pos: Placement, nodes: seq<nat>, leftLimit: real, rightLimit: real,
                          q: Placement, nodes': seq<nat>, p: Problem, ids: seq<nat>, first: seq<nat>, x: seq<real>) {
    && Window(net, pos, nodes) && row.Valid(|pos|) && nodes != []
    && BuiltFor(p, net, pos, nodes, ids, row, leftLimit, rightLimit)
    && RoomOf(pos, nodes, row, leftLimit, rightLimit) == Space(p.xmin, p.xmax, p.widths)
    && Permutes(first, |nodes|) && SortedBy(CentresAt(pos, nodes), first)
    && var order := Passes(p, first, PASSES);
       && Permutes(order, |nodes|) && PackedAs(p, order, x)
       && OrderCost(p, order) < FirstCost(p, CentresAt(pos, nodes))
       && InterleaveClamp.Moved(pos, q, nodes, x) && nodes' == Reordered(nodes, order)
  }

  lemma IsAccepted(net: Network, row: Row, was: Placement, pos: Placement, nodes: seq<nat>, leftLimit: real, rightLimit: real, nodes': seq<nat>,
                   shape: Problem, ids: seq<nat>, x0: seq<real>, first: seq<nat>, x: seq<real>)
    requires Window(net, was, nodes) && row.Valid(|was|) && nodes != []
    requires BuiltFor(shape, net, was, nodes, ids, row, leftLimit, rightLimit)
    requires RoomOf(was, nodes, row, leftLimit, rightLimit) == Space(shape.xmin, shape.xmax, shape.widths)
    requires |x0| == |nodes| && forall n :: 0 <= n < |nodes| ==> x0[n] == was[nodes[n]].x
    requires Permutes(first, |x0|) && SortedBy(x0, first) && shape.Valid() && |shape.widths| == |nodes| && Cells(shape, first)
    requires var order := Passes(shape, first, PASSES);
      && Permutes(order, |nodes|) && PackedAs(shape, order, x) && OrderCost(shape, order) < FirstCost(shape, x0)
      && nodes' == Reordered(nodes, order)
    requires InterleaveClamp.Moved(was, pos, nodes, x)
    ensures Accepts(net, row, was, nodes, leftLimit, rightLimit, pos, nodes', shape, ids, first, x)
  {
    hide BuiltFor, RoomOf, OrderCost, FirstCost, PackedAs, SortedBy, Window;
    assert x0 == CentresAt(was, nodes);
  }

  /** A window is left as it is for want of room, or because the order found costs no less. */
  ghost predicate Rejects(net: Network, row: Row, pos: Placement, nodes: seq<nat>, leftLimit: real, rightLimit: real,
                          p: Problem, ids: seq<nat>, first: seq<nat>)
    requires Window(net, pos, nodes) && row.Valid(|pos|) && nodes != []
  {
    || RoomOf(pos, nodes, row, leftLimit, rightLimit).NoSpace?
    || (&& BuiltFor(p, net, pos, nodes, ids, row, leftLimit, rightLimit)
        && RoomOf(pos, nodes, row, leftLimit, rightLimit) == Space(p.xmin, p.xmax, p.widths)
        && Permutes(first, |nodes|) && SortedBy(CentresAt(pos, nodes), first)
        && OrderCost(p, Passes(p, first, PASSES)) >= FirstCost(p, CentresAt(pos, nodes)))
  }

  /** The true wirelength changes by exactly the difference of the small problem's costs. */
  lemma {:induction false} TrueChange(p: Problem, net: Network, pos: Placement, q: Placement, nodes: seq<nat>, ids: seq<nat>,
                                      order: seq<nat>, x0: seq<real>, x: seq<real>)
    requires Window(net, pos, nodes) && Models(p, net, pos, nodes, ids)
    requires |x0| == |nodes| && forall n :: 0 <= n < |nodes| ==> x0[n] == pos[nodes[n]].x
    requires Permutes(order, |p.widths|) && Cells(p, order) && PackedAs(p, order, x)
    requires net.Fits(q) && InterleaveClamp.Moved(pos, q, nodes, x)
    requires PinsInside(p, x0) && PinsInside(p, x)
    ensures net.Hpwl(q, LIMIT) - net.Hpwl(pos, LIMIT) == OrderCost(p, order) - FirstCost(p, x0)
  {
    PackedLength(p, order);
    BoxesOrdered(p, net, pos, nodes, ids);
    assert InterleaveClamp.Moved(pos, pos, nodes, x0);
    WindowChange(p, net, pos, q, nodes, ids, order, x0, x);
    CentresAlong(p, order, x);
    EntryIsRecount(p, order);
    FirstCostAlong(p, order, x0);
  }

  lemma {:induction false} CentresAlong(p: Problem, order: seq<nat>, x: seq<real>)
    requires Cells(p, order) && PackedAs(p, order, x)
    ensures Along(order, x) == Centres(p, order)
  {
  }

  /** A packed solution of a built window that is cheaper than the current positions is an improvement
      of the netlist. */
  lemma {:induction false} CheaperImproves(p: Problem, net: Network, pos: Placement, q: Placement, nodes: seq<nat>, ids: seq<nat>,
                                           row: Row, leftLimit: real, rightLimit: real, order: seq<nat>, x0: seq<real>, x: seq<real>)
    requires Window(net, pos, nodes) && row.Valid(|pos|) && nodes != [] && PinsInCells(net, row.widths)
    requires Spread(pos, nodes, row.widths, leftLimit, rightLimit)
    requires BuiltFor(p, net, pos, nodes, ids, row, leftLimit, rightLimit)
    requires |x0| == |nodes| && forall n :: 0 <= n < |nodes| ==> x0[n] == pos[nodes[n]].x
    requires Permutes(order, |p.widths|) && Cells(p, order) && PackedAs(p, order, x)
    requires net.Fits(q) && InterleaveClamp.Moved(pos, q, nodes, x)
    requires OrderCost(p, order) < FirstCost(p, x0)
    ensures Improved(net, row, pos, q, nodes, Reordered(nodes, order), leftLimit, rightLimit,
                     FirstCost(p, x0) - OrderCost(p, order))
  {
    BeforeInside(p, net, pos, nodes, ids, row, leftLimit, rightLimit, x0);
    AfterInside(p, net, pos, nodes, ids, row, order, x, leftLimit, rightLimit);
    TrueChange(p, net, pos, q, nodes, ids, order, x0, x);
    RelocatedAfter(p, net, pos, q, nodes, ids, row, leftLimit, rightLimit, order, x);
  }

  lemma {:induction false} RelocatedAfter(p: Problem, net: Network, pos: Placement, q: Placement, nodes: seq<nat>, ids: seq<nat>,
                                          row: Row, leftLimit: real, rightLimit: real, order: seq<nat>, x: seq<real>)
    requires Window(net, pos, nodes) && row.Valid(|pos|) && nodes != []
    requires BuiltFor(p, net, pos, nodes, ids, row, leftLimit, rightLimit)
    requires Permutes(order, |p.widths|) && Cells(p, order) && PackedAs(p, order, x)
    requires InterleaveClamp.Moved(pos, q, nodes, x)
    ensures Relocated(row, pos, q, nodes, Reordered(nodes, order), leftLimit, rightLimit)
  {
    SpreadAfter(p, net, pos, q, nodes, ids, row, leftLimit, rightLimit, order, x);
    Rearranged(nodes, Reordered(nodes, order), order);
    OnlySideways(pos, q, nodes, x);
  }

  lemma {:induction false} OnlySideways(pos: Placement, q: Placement, nodes: seq<nat>, x: seq<real>)
    requires InterleaveClamp.Moved(pos, q, nodes, x)
    ensures forall m: nat :: m < |pos| ==> q[m].y == pos[m].y
  {
    forall m: nat | m < |pos|
      ensures q[m].y == pos[m].y
    {
      if m in nodes {
        var n :| 0 <= n < |nodes| && nodes[n] == m;
      }
    }
  }

  lemma {:induction false} BoxesOrdered(p: Problem, net: Network, pos: Placement, nodes: seq<nat>, ids: seq<nat>)
    requires Window(net, pos, nodes) && Models(p, net, pos, nodes, ids)
    ensures forall e :: 0 <= e < |p.netBoxes| ==> Ordered(p.netBoxes[e])
  {
    forall e | 0 <= e < |p.netBoxes|
      ensures Ordered(p.netBoxes[e])
    {
      var c := ClampAll(Outside(net, pos, nodes, net.edgePins[ids[e]]), p.xmin, p.xmax);
      ExtendRange(Empty, c);
    }
  }

  lemma {:induction false} BeforeInside(p: Problem, net: Network, pos: Placement, nodes: seq<nat>, ids: seq<nat>, row: Row,
                                        leftLimit: real, rightLimit: real, x0: seq<real>)
    requires Window(net, pos, nodes) && row.Valid(|pos|) && nodes != [] && PinsInCells(net, row.widths)
    requires Spread(pos, nodes, row.widths, leftLimit, rightLimit)
    requires BuiltFor(p, net, pos, nodes, ids, row, leftLimit, rightLimit)
    requires |x0| == |nodes| && forall n :: 0 <= n < |nodes| ==> x0[n] == pos[nodes[n]].x
    ensures PinsInside(p, x0)
  {
    forall n | 0 <= n < |x0|
      ensures p.xmin <= x0[n] - 0.5 * row.widths[nodes[n]] && x0[n] + 0.5 * row.widths[nodes[n]] <= p.xmax
    {
      SpreadWithin(pos, nodes, row.widths, leftLimit, rightLimit, n);
    }
    CellsInsidePinsInside(p, net, pos, nodes, ids, row.widths, x0);
  }

  lemma {:induction false} AfterInside(p: Problem, net: Network, pos: Placement, nodes: seq<nat>, ids: seq<nat>, row: Row,
                                       order: seq<nat>, x: seq<real>, leftLimit: real, rightLimit: real)
    requires Window(net, pos, nodes) && row.Valid(|pos|) && nodes != [] && PinsInCells(net, row.widths)
    requires BuiltFor(p, net, pos, nodes, ids, row, leftLimit, rightLimit)
    requires Permutes(order, |p.widths|) && Cells(p, order) && PackedAs(p, order, x)
    ensures PinsInside(p, x)
  {
    forall n | 0 <= n < |x|
      ensures p.xmin <= x[n] - 0.5 * row.widths[nodes[n]] && x[n] + 0.5 * row.widths[nodes[n]] <= p.xmax
    {
      PackedInside(p, order, x, n);
    }
    CellsInsidePinsInside(p, net, pos, nodes, ids, row.widths, x);
  }

  lemma {:induction false} SpreadAfter(p: Problem, net: Network, pos: Placement, q: Placement, nodes: seq<nat>, ids: seq<nat>,
                                       row: Row, leftLimit: real, rightLimit: real, order: seq<nat>, x: seq<real>)
    requires Window(net, pos, nodes) && row.Valid(|pos|) && nodes != []
    requires BuiltFor(p, net, pos, nodes, ids, row, leftLimit, rightLimit)
    requires Permutes(order, |p.widths|) && Cells(p, order) && PackedAs(p, order, x)
    requires InterleaveClamp.Moved(pos, q, nodes, x)
    ensures Spread(q, Reordered(nodes, order), row.widths, leftLimit, rightLimit)
    ensures row.Symmetric() && Spread(pos, nodes, row.Padded(), leftLimit, rightLimit) ==>
      Spread(q, Reordered(nodes, order), row.Padded(), leftLimit, rightLimit)
  {
    PackedSpread(p, order, x, pos, q, nodes, row.widths, leftLimit, rightLimit);
    if row.Symmetric() && Spread(pos, nodes, row.Padded(), leftLimit, rightLimit) {
      PackedSpread(p, order, x, pos, q, nodes, row.Padded(), leftLimit, rightLimit);
    }
  }

  class DetailedInterleave {
    const net: Network
    const row: Row
    var pos: Placement

    ghost predicate Valid()
      reads this
    {
      net.Fits(pos) && row.Valid(|pos|) && PinsInCells(net, row.widths)
    }

    constructor (net: Network, row: Row, pos: Placement)
      requires net.Fits(pos) && row.Valid(|pos|) && PinsInCells(net, row.widths)
      ensures Valid() && this.net == net && this.row == row && this.pos == pos
    {
      this.net, this.row, this.pos := net, row, pos;
    }

    /** Moves the window's cells to centres `x`. */
    method SetCentres(nodes: seq<nat>, x: seq<real>)
      requires Window(net, pos, nodes) && |x| == |nodes|
      modifies this`pos
      ensures InterleaveClamp.Moved(old(pos), pos, nodes, x)
    {
      for n := 0 to |nodes|
        invariant |pos| == |old(pos)|
        invariant forall k :: 0 <= k < n ==> pos[nodes[k]] == Point(x[k], old(pos)[nodes[k]].y)
        invariant forall m: nat :: m < |pos| && m !in nodes[..n] ==> pos[m] == old(pos)[m]
      {
        pos := pos[nodes[n] := Point(x[n], pos[nodes[n]].y)];
        assert nodes[..n + 1] == nodes[..n] + [nodes[n]];
      }
      assert nodes[..|nodes|] == nodes;
    }

    method CentresNow(nodes: seq<nat>) returns (x: seq<real>)
      requires forall n :: 0 <= n < |nodes| ==> nodes[n] < |pos|
      ensures |x| == |nodes| && forall n :: 0 <= n < |nodes| ==> x[n] == pos[nodes[n]].x
    {
      x := [];
      for n := 0 to |nodes|
        invariant |x| == n && forall k :: 0 <= k < n ==> x[k] == pos[nodes[k]].x
      {
        x := x + [pos[nodes[n]].x];
      }
    }

    /** Optimises one window; either nothing changes or the window's cells are packed between the limits in
        a new order. If they stood between the limits before, the wirelength goes strictly down. */
    method OptimizeWindow(nodes: seq<nat>, leftLimit: real, rightLimit: real)
        returns (accepted: bool, ghost nodes': seq<nat>, ghost gain: real)
      requires Valid() && Window(net, pos, nodes) && nodes != []
      modifies this`pos
      ensures Valid()
      ensures !accepted ==> pos == old(pos) && exists p, ids, first :: Rejects(net, row, old(pos), nodes, leftLimit, rightLimit, p, ids, first)
      ensures accepted ==> exists p, ids, first, x :: Accepts(net, row, old(pos), nodes, leftLimit, rightLimit, pos, nodes', p, ids, first, x)
      ensures accepted ==> Relocated(row, old(pos), pos, nodes, nodes', leftLimit, rightLimit)
      ensures accepted && Spread(old(pos), nodes, row.widths, leftLimit, rightLimit) ==>
        Improved(net, row, old(pos), pos, nodes, nodes', leftLimit, rightLimit, gain)
    {
      hide Spread, BuiltFor, Improved, Relocated, OrderCost, FirstCost, PackedAs, Permutes, Cells;
      accepted, nodes', gain := false, nodes, 0.0;
      var ok, shape, ids := Build(net, pos, nodes, row, leftLimit, rightLimit);
      if !ok {
        assert Rejects(net, row, pos, nodes, leftLimit, rightLimit, shape, ids, []);
        return;
      }
      BuiltShape(shape, net, pos, nodes, ids, row, leftLimit, rightLimit);
      var x0 := CentresNow(nodes);
      var better, x, first, order := Arrange(shape, x0);
      accepted := better;
      if !accepted {
        Rejected(nodes, leftLimit, rightLimit, shape, ids, x0, first);
        return;
      }
      ghost var was := pos;
      SetCentres(nodes, x);
      InWindow(shape, order, nodes);
      nodes', gain := Reordered(nodes, order), FirstCost(shape, x0) - OrderCost(shape, order);
      RelocatedAfter(shape, net, was, pos, nodes, ids, row, leftLimit, rightLimit, order, x);
      IsAccepted(net, row, was, pos, nodes, leftLimit, rightLimit, nodes', shape, ids, x0, first, x);
      if Spread(was, nodes, row.widths, leftLimit, rightLimit) {
        CheaperImproves(shape, net, was, pos, nodes, ids, row, leftLimit, rightLimit, order, x0, x);
      }
    }

    lemma Rejected(nodes: seq<nat>, leftLimit: real, rightLimit: real, shape: Problem, ids: seq<nat>, x0: seq<real>, first: seq<nat>)
      requires Window(net, pos, nodes) && row.Valid(|pos|) && nodes != []
      requires BuiltFor(shape, net, pos, nodes, ids, row, leftLimit, rightLimit)
      requires RoomOf(pos, nodes, row, leftLimit, rightLimit) == Space(shape.xmin, shape.xmax, shape.widths)
      requires |x0| == |nodes| && forall n :: 0 <= n < |nodes| ==> x0[n] == pos[nodes[n]].x
      requires Permutes(first, |x0|) && SortedBy(x0, first) && shape.Valid() && |shape.widths| == |nodes| && Cells(shape, first)
      requires OrderCost(shape, Passes(shape, first, PASSES)) >= FirstCost(shape, x0)
      ensures Rejects(net, row, pos, nodes, leftLimit, rightLimit, shape, ids, first)
    {
      assert x0 == CentresAt(pos, nodes);
    }

    lemma InWindow(shape: Problem, order: seq<nat>, nodes: seq<nat>)
      requires Permutes(order, |nodes|)
      ensures forall k :: 0 <= k < |order| ==> order[k] < |nodes|
    {
    }

    /** Solves the small problem; the packing it finds is taken only if it is cheaper than what is there. */
    method Arrange(shape: Problem, x0: seq<real>) returns (better: bool, x: seq<real>, ghost first: seq<nat>, ghost order: seq<nat>)
      requires shape.Valid() && |x0| == |shape.widths|
      ensures Permutes(first, |x0|) && SortedBy(x0, first) && Cells(shape, first) && order == Passes(shape, first, PASSES)
      ensures |x| == |x0| && Permutes(order, |x|) && Cells(shape, order) && PackedAs(shape, order, x)
      ensures better <==> OrderCost(shape, order) < FirstCost(shape, x0)
    {
      hide OrderCost, FirstCost, PackedAs, Permutes;
      var initCost := InitCost(shape, x0);
      var sm := new SmallProblem(shape, x0);
      var nextCost, start, found := Solve(sm);
      first, order := start, found;
      x := sm.x;
      PackedCells(shape, order);
      better := nextCost < initCost;
    }

    lemma PackedCells(shape: Problem, order: seq<nat>)
      requires Permutes(order, |shape.widths|) && shape.Valid()
      ensures Cells(shape, order)
    {
    }

    lemma BuiltShape(shape: Problem, net: Network, pos: Placement, nodes: seq<nat>, ids: seq<nat>, row: Row,
                     leftLimit: real, rightLimit: real)
      requires Window(net, pos, nodes) && row.Valid(|pos|) && nodes != []
      requires BuiltFor(shape, net, pos, nodes, ids, row, leftLimit, rightLimit)
      ensures shape.Valid() && |shape.widths| == |nodes|
    {
    }
  }
}
