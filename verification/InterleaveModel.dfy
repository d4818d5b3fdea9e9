/** Every window has a small problem, and a window is accepted as soon as packing its cells in their order is
    cheaper (detailed_interleaving.cxx): what it takes to say what the interleaver does on an input. */
module InterleaveModel {
  import opened RealMath
  import opened Intervals
  import opened Netlist
  import opened Permutations
  import opened InterleaveSpec
  import opened InterleaveSolve
  import opened InterleaveClamp
  import opened InterleaveBuild
  import opened Interleave

  // ----- the nets and pins of a window

  /** The counted nets of the window among the first n. */
  ghost function Listed(net: Network, nodes: seq<nat>, n: nat): (ids: seq<nat>)
    requires net.Valid() && n <= |net.edgePins| && forall k :: 0 <= k < |nodes| ==> nodes[k] < |net.nodePins|
  {
    if n == 0 then []
    else Listed(net, nodes, n - 1) + if Taken(net, nodes, n - 1) then [n - 1] else []
  }

  ghost predicate Taken(net: Network, nodes: seq<nat>, e: nat)
    requires net.Valid() && e < |net.edgePins| && forall k :: 0 <= k < |nodes| ==> nodes[k] < |net.nodePins|
  {
    net.Counted(e, LIMIT) && TouchedBy(net, nodes, e)
  }

  lemma {:induction false} ListedIs(net: Network, nodes: seq<nat>, n: nat)
    requires net.Valid() && n <= |net.edgePins| && forall k :: 0 <= k < |nodes| ==> nodes[k] < |net.nodePins|
    ensures forall e: nat :: e in Listed(net, nodes, n) <==> e < n && Taken(net, nodes, e)
    ensures var ids := Listed(net, nodes, n); forall j, k :: 0 <= j < k < |ids| ==> ids[j] < ids[k]
  {
    hide Taken, Network.Valid;
    if n > 0 {
      ListedIs(net, nodes, n - 1);
      var before, ids := Listed(net, nodes, n - 1), Listed(net, nodes, n);
      assert ids == before + if Taken(net, nodes, n - 1) then [n - 1] else [];
      forall j, k | 0 <= j < k < |ids|
        ensures ids[j] < ids[k]
      {
        assert before[j] in Listed(net, nodes, n - 1);
        assert before[j] < n - 1;
        if k < |before| {
          assert before[j] < before[k];
        } else {
          assert ids[k] == n - 1;
        }
      }
    }
  }

  lemma {:induction false} ListsAll(net: Network, nodes: seq<nat>)
    requires net.Valid() && forall k :: 0 <= k < |nodes| ==> nodes[k] < |net.nodePins|
    ensures ListsNets(net, nodes, Listed(net, nodes, |net.edgePins|))
  {
    hide TouchedBy;
    ListedIs(net, nodes, |net.edgePins|);
    var ids := Listed(net, nodes, |net.edgePins|);
    forall k | 0 <= k < |ids|
      ensures ids[k] < |net.edgePins| && net.Counted(ids[k], LIMIT)
    {
      assert ids[k] in ids;
    }
  }

  /** The first j pins of net e that are on node v, as pins on net k of the small problem. */
  ghost function PinsOf(net: Network, v: nat, e: nat, k: nat, j: nat): seq<PinOn>
    requires net.Valid() && e < |net.edgePins| && j <= |net.edgePins[e]|
  {
    if j == 0 then []
    else
      var pin := net.pins[net.edgePins[e][j - 1]];
      PinsOf(net, v, e, k, j - 1) + if pin.node == v then [PinOn(k, pin.dx)] else []
  }

  lemma {:induction false} PinsOfMembers(net: Network, v: nat, e: nat, k: nat, j: nat, pin: PinOn)
    requires net.Valid() && e < |net.edgePins| && j <= |net.edgePins[e]|
    ensures pin in PinsOf(net, v, e, k, j) <==> pin.edge == k && HasPinBefore(net, e, j, v, pin.offset)
  {
    if j > 0 {
      PinsOfMembers(net, v, e, k, j - 1, pin);
      var last := net.pins[net.edgePins[e][j - 1]];
      assert HasPinBefore(net, e, j, v, pin.offset) <==>
        HasPinBefore(net, e, j - 1, v, pin.offset) || (last.node == v && last.dx == pin.offset);
    }
  }

  /** The pins of a node on the first m listed nets. */
  ghost function AdjOf(net: Network, v: nat, ids: seq<nat>, m: nat): seq<PinOn>
    requires net.Valid() && m <= |ids| && forall k :: 0 <= k < |ids| ==> ids[k] < |net.edgePins|
  {
    if m == 0 then [] else AdjOf(net, v, ids, m - 1) + PinsOf(net, v, ids[m - 1], m - 1, |net.edgePins[ids[m - 1]]|)
  }

  lemma {:induction false} AdjMembers(net: Network, v: nat, ids: seq<nat>, m: nat, pin: PinOn)
    requires net.Valid() && m <= |ids| && forall k :: 0 <= k < |ids| ==> ids[k] < |net.edgePins|
    ensures pin in AdjOf(net, v, ids, m) <==> pin.edge < m && HasPin(net, ids[pin.edge], v, pin.offset)
  {
    hide Network.Valid, PinsOf;
    if m > 0 {
      var e := ids[m - 1];
      AdjMembers(net, v, ids, m - 1, pin);
      PinsOfMembers(net, v, e, m - 1, |net.edgePins[e]|, pin);
      assert HasPinBefore(net, e, |net.edgePins[e]|, v, pin.offset) <==> HasPin(net, e, v, pin.offset);
    }
  }

  /** The small problem of a window in the room it gets. */
  ghost function ModelOf(net: Network, pos: Placement, nodes: seq<nat>, r: Space): (p: Problem)
    requires Window(net, pos, nodes) && r.Space?
  {
    var ids := Listed(net, nodes, |net.edgePins|);
    ListsAll(net, nodes);
    Problem(r.xmin, r.xmax,
            seq(|nodes|, n requires 0 <= n < |nodes| => AdjOf(net, nodes[n], ids, |ids|)),
            r.widths,
            seq(|ids|, k requires 0 <= k < |ids| => Hull(ClampAll(Outside(net, pos, nodes, net.edgePins[ids[k]]), r.xmin, r.xmax))))
  }

  lemma {:induction false} HasModel(net: Network, row: Row, pos: Placement, nodes: seq<nat>, leftLimit: real, rightLimit: real)
    requires Window(net, pos, nodes) && row.Valid(|pos|) && nodes != [] && RoomOf(pos, nodes, row, leftLimit, rightLimit).Space?
    ensures var r := RoomOf(pos, nodes, row, leftLimit, rightLimit);
      BuiltFor(ModelOf(net, pos, nodes, r), net, pos, nodes, Listed(net, nodes, |net.edgePins|), row, leftLimit, rightLimit)
  {
    var r := RoomOf(pos, nodes, row, leftLimit, rightLimit);
    hide RoomOf, Network.Valid, Outside, Hull, AdjOf, ListsNets, Spread, Sum;
    RoomFits(pos, nodes, row, leftLimit, rightLimit);
    ListsAll(net, nodes);
    SumNotNegative(r.widths);
    ModelIs(net, pos, nodes, r);
  }

  lemma {:induction false} ModelIs(net: Network, pos: Placement, nodes: seq<nat>, r: Space)
    requires Window(net, pos, nodes) && r.Space? && |r.widths| == |nodes| && r.xmin <= r.xmax
    ensures Models(ModelOf(net, pos, nodes, r), net, pos, nodes, Listed(net, nodes, |net.edgePins|))
  {
    hide Network.Valid, Outside, Hull, AdjOf, Listed, HasPin;
    ListsAll(net, nodes);
    var p, ids := ModelOf(net, pos, nodes, r), Listed(net, nodes, |net.edgePins|);
    forall n, k | 0 <= n < |nodes| && 0 <= k < |p.adj[n]|
      ensures p.adj[n][k].edge < |ids|
    {
      AdjMembers(net, nodes[n], ids, |ids|, p.adj[n][k]);
      assert p.adj[n][k] in p.adj[n];
    }
    forall n, k: nat, off | 0 <= n < |nodes| && k < |ids|
      ensures PinOn(k, off) in p.adj[n] <==> HasPin(net, ids[k], nodes[n], off)
    {
      AdjMembers(net, nodes[n], ids, |ids|, PinOn(k, off));
    }
  }

  // ----- accepted

  /** Where a value is in a list. */
  ghost function Index(s: seq<nat>, v: nat): (i: nat)
    requires v in s
    ensures i < |s| && s[i] == v
  {
    var i: nat :| i < |s| && s[i] == v;
    i
  }

  /** The cells' centres when packed in an order. */
  ghost function PackedAt(p: Problem, order: seq<nat>): (x: seq<real>)
    requires Permutes(order, |p.widths|) && Cells(p, order)
    ensures |x| == |p.widths|
  {
    PermutesAll(order, |p.widths|);
    seq(|p.widths|, n requires 0 <= n < |p.widths| && n in order => CentreOf(p, order, Index(order, n)))
  }

  lemma {:induction false} PackedAtIs(p: Problem, order: seq<nat>)
    requires Permutes(order, |p.widths|) && Cells(p, order)
    ensures PackedAs(p, order, PackedAt(p, order))
  {
    PermutesAll(order, |p.widths|);
    forall k | 0 <= k < |order|
      ensures PackedAt(p, order)[order[k]] == CentreOf(p, order, k)
    {
      assert order[k] in order;
      assert Index(order, order[k]) == k;
    }
  }

  ghost function MovedTo(pos: Placement, nodes: seq<nat>, x: seq<real>): (q: Placement)
    requires |x| == |nodes|
    ensures |q| == |pos|
  {
    seq(|pos|, m requires 0 <= m < |pos| => if m in nodes then Point(x[Index(nodes, m)], pos[m].y) else pos[m])
  }

  lemma {:induction false} MovedToIs(net: Network, pos: Placement, nodes: seq<nat>, x: seq<real>)
    requires Window(net, pos, nodes) && |x| == |nodes|
    ensures InterleaveClamp.Moved(pos, MovedTo(pos, nodes, x), nodes, x)
  {
    forall n | 0 <= n < |nodes|
      ensures MovedTo(pos, nodes, x)[nodes[n]] == Point(x[n], pos[nodes[n]].y)
    {
      assert nodes[n] in nodes;
      assert Index(nodes, nodes[n]) == n;
    }
  }

  /** If packing the sorted cells in their order already pays, the window is accepted. */
  lemma {:induction false} PackingAccepted(net: Network, row: Row, pos: Placement, nodes: seq<nat>, leftLimit: real, rightLimit: real)
      returns (q: Placement, nodes': seq<nat>, p: Problem, x: seq<real>)
    requires Window(net, pos, nodes) && row.Valid(|pos|) && nodes != [] && RoomOf(pos, nodes, row, leftLimit, rightLimit).Space?
    requires SortedBy(CentresAt(pos, nodes), Count(|nodes|))
    requires var p := ModelOf(net, pos, nodes, RoomOf(pos, nodes, row, leftLimit, rightLimit));
      |p.widths| == |nodes| ==> p.Valid() ==> OrderCost(p, Count(|nodes|)) < FirstCost(p, CentresAt(pos, nodes))
    ensures Accepts(net, row, pos, nodes, leftLimit, rightLimit, q, nodes', p, Listed(net, nodes, |net.edgePins|), Count(|nodes|), x)
    ensures p == ModelOf(net, pos, nodes, RoomOf(pos, nodes, row, leftLimit, rightLimit))
  {
    hide RoomOf, Network.Valid, BuiltFor, OrderCost, FirstCost, Accepts, ModelOf, SortedBy, Problem.Valid, Row.Valid, Listed;
    var r := RoomOf(pos, nodes, row, leftLimit, rightLimit);
    p := ModelOf(net, pos, nodes, r);
    HasModel(net, row, pos, nodes, leftLimit, rightLimit);
    ModelRoom(net, pos, nodes, r);
    BuiltShape(p, net, pos, nodes, Listed(net, nodes, |net.edgePins|), row, leftLimit, rightLimit);
    q, nodes', x := Packed(net, row, pos, nodes, leftLimit, rightLimit, p, Listed(net, nodes, |net.edgePins|));
  }

  lemma ModelRoom(net: Network, pos: Placement, nodes: seq<nat>, r: Space)
    requires Window(net, pos, nodes) && r.Space?
    ensures var p := ModelOf(net, pos, nodes, r); r == Space(p.xmin, p.xmax, p.widths)
  {
    hide Listed, Outside, AdjOf, Network.Valid;
  }

  lemma {:induction false} Packed(net: Network, row: Row, pos: Placement, nodes: seq<nat>, leftLimit: real, rightLimit: real, p: Problem, ids: seq<nat>)
      returns (q: Placement, nodes': seq<nat>, x: seq<real>)
    requires Window(net, pos, nodes) && row.Valid(|pos|) && nodes != [] && BuiltFor(p, net, pos, nodes, ids, row, leftLimit, rightLimit)
    requires RoomOf(pos, nodes, row, leftLimit, rightLimit) == Space(p.xmin, p.xmax, p.widths)
    requires p.Valid() && |p.widths| == |nodes| && SortedBy(CentresAt(pos, nodes), Count(|nodes|))
    requires OrderCost(p, Count(|nodes|)) < FirstCost(p, CentresAt(pos, nodes))
    ensures Accepts(net, row, pos, nodes, leftLimit, rightLimit, q, nodes', p, ids, Count(|nodes|), x)
  {
    hide RoomOf, Network.Valid, BuiltFor, PackedAs, OrderCost, FirstCost, Accepts, InterleaveClamp.Moved, Problem.Valid, SortedBy;
    var first := Count(|nodes|);
    var order := Passes(p, first, PASSES);
    PassesImprove(p, first, PASSES);
    PermutesByMultiset(first, order, |nodes|);
    x := PackedAt(p, order);
    PackedAtIs(p, order);
    q := MovedTo(pos, nodes, x);
    MovedToIs(net, pos, nodes, x);
    nodes' := Reordered(nodes, order);
    IsAccepted(net, row, pos, q, nodes, leftLimit, rightLimit, nodes', p, ids, CentresAt(pos, nodes), first, x);
  }

  lemma BuiltShape(p: Problem, net: Network, pos: Placement, nodes: seq<nat>, ids: seq<nat>, row: Row, leftLimit: real, rightLimit: real)
    requires Window(net, pos, nodes) && row.Valid(|pos|) && nodes != []
    requires BuiltFor(p, net, pos, nodes, ids, row, leftLimit, rightLimit)
    ensures p.Valid() && |p.widths| == |nodes|
  {
  }

  // ----- costs of windows whose nets have one pin each in the window

  /** The one pin on net k is cell i's, at this offset. */
  ghost predicate OnlyPin(p: Problem, k: nat, i: nat, off: real) {
    i < |p.adj| && forall n, o {:trigger PinOn(k, o) in p.adj[n]} :: 0 <= n < |p.adj| ==> (PinOn(k, o) in p.adj[n] <==> n == i && o == off)
  }

  lemma {:induction false} OnePinCoords(p: Problem, x: seq<real>, k: nat, i: nat, off: real, v: real)
    requires p.Valid() && |x| == |p.widths| && OnlyPin(p, k, i, off)
    ensures v in Coords(p, Count(|x|), x, k) <==> v == x[i] + off
  {
    CoordsMembers(p, Count(|x|), x, k, v);
    if v in Coords(p, Count(|x|), x, k) {
      var n :| 0 <= n < |x| && Reaches(p, Count(|x|), x, k, v, n);
      var m :| 0 <= m < |p.adj[n]| && PinHits(p.adj[n][m], x[n], k, v);
      assert p.adj[n][m] == PinOn(k, p.adj[n][m].offset) && p.adj[n][m] in p.adj[n];
    }
    if v == x[i] + off {
      assert PinOn(k, off) in p.adj[i];
      var m :| 0 <= m < |p.adj[i]| && p.adj[i][m] == PinOn(k, off);
      assert Count(|x|)[i] == i && PinHits(p.adj[Count(|x|)[i]][m], x[i], k, v);
      assert Reaches(p, Count(|x|), x, k, v, i);
    }
  }

  lemma {:induction false} OnePinBox(p: Problem, x: seq<real>, k: nat, i: nat, off: real)
    requires p.Valid() && |x| == |p.widths| && k < |p.netBoxes| && OnlyPin(p, k, i, off) && Ordered(p.netBoxes[k])
    ensures BoxOf(p, Count(|x|), x, k) == p.netBoxes[k].Add(x[i] + off)
  {
    hide Coords;
    var coords, one := Coords(p, Count(|x|), x, k), [x[i] + off];
    forall v
      ensures v in coords <==> v in one
    {
      OnePinCoords(p, x, k, i, off, v);
    }
    ExtendSameMembers(p.netBoxes[k], coords, one);
    assert one[..0] == [];
    assert Extend(p.netBoxes[k], one) == Extend(p.netBoxes[k], one[..0]).Add(one[0]);
  }

  lemma {:induction false} SumLess(s: seq<real>, t: seq<real>)
    requires |s| == |t| && forall k :: 0 <= k < |s| ==> s[k] < t[k]
    ensures if s == [] then Sum(s) == Sum(t) else Sum(s) < Sum(t)
  {
    if s != [] {
      SumLess(s[..|s| - 1], t[..|t| - 1]);
    }
  }

  /** If every net gets shorter, packing the cells in their order pays. */
  lemma {:induction false} PackingPays(p: Problem, x0: seq<real>)
    requires p.Valid() && |x0| == |p.widths| && p.netBoxes != []
    requires forall k: nat :: k < |p.netBoxes| ==>
      BoxOf(p, Count(|x0|), Centres(p, Count(|x0|)), k).Width() < BoxOf(p, Count(|x0|), x0, k).Width()
    ensures OrderCost(p, Count(|x0|)) < FirstCost(p, x0)
  {
    var first := Count(|x0|);
    EntryIsRecount(p, first);
    SumLess(Widths(Boxes(p, first, Centres(p, first))), Widths(Boxes(p, first, x0)));
  }

  /** Packed cells of one width stand in a row of equal slots. */
  lemma {:induction false} EqualSlots(p: Problem, order: seq<nat>, k: nat, w: real)
    requires Cells(p, order) && k < |order| && forall n :: 0 <= n < |p.widths| ==> p.widths[n] == w
    ensures CentreOf(p, order, k) == p.xmin + k as real * w + 0.5 * w
  {
    SumEqual(WidthsOf(p, order[..k]), w);
  }

  lemma {:induction false} SumEqual(s: seq<real>, w: real)
    requires forall k :: 0 <= k < |s| ==> s[k] == w
    ensures Sum(s) == |s| as real * w
  {
    if s != [] {
      SumEqual(s[..|s| - 1], w);
    }
  }
}
