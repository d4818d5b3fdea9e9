/** Rows of cells tied to terminals, each by a net of two pins: what the interleaver does to a window of one. */
module InterleaveTies {
  import opened RealMath
  import opened Intervals
  import opened Netlist
  import opened Permutations
  import opened InterleaveSpec
  import opened InterleaveSolve
  import opened InterleaveClamp
  import opened Interleave
  import opened InterleaveModel

  /** A cell's pin at this offset from its centre, tied to a terminal. */
  datatype Tie = Tie(cell: nat, offset: real, at: real)

  ghost predicate Ties(n: nat, ties: seq<Tie>) {
    forall e :: 0 <= e < |ties| ==> ties[e].cell < n
  }

  /** The cell's ties among the first m. */
  ghost function TiesOf(ties: seq<Tie>, v: nat, m: nat): (es: seq<nat>)
    requires m <= |ties|
  {
    if m == 0 then [] else TiesOf(ties, v, m - 1) + if ties[m - 1].cell == v then [m - 1] else []
  }

  lemma {:induction false} TiesOfIs(ties: seq<Tie>, v: nat, m: nat)
    requires m <= |ties|
    ensures forall e: nat :: e in TiesOf(ties, v, m) <==> e < m && ties[e].cell == v
  {
    if m > 0 {
      TiesOfIs(ties, v, m - 1);
    }
  }

  /** n cells, then the ties' terminals; net e has pins e and |ties| + e. */
  ghost function Tied(n: nat, ties: seq<Tie>): (net: Network)
    ensures |net.nodePins| == n + |ties| && |net.edgePins| == |ties| && |net.pins| == 2 * |ties|
    ensures forall e {:trigger ties[e]} :: 0 <= e < |ties| ==>
      && net.pins[e] == Pin(ties[e].cell, e, ties[e].offset, 0.0) && net.pins[|ties| + e] == Pin(n + e, e, 0.0, 0.0)
      && net.edgePins[e] == [e, |ties| + e] && net.nodePins[n + e] == [|ties| + e]
    ensures forall v :: 0 <= v < n ==> net.nodePins[v] == TiesOf(ties, v, |ties|)
  {
    Network(seq(|ties|, e requires 0 <= e < |ties| => Pin(ties[e].cell, e, ties[e].offset, 0.0))
            + seq(|ties|, e requires 0 <= e < |ties| => Pin(n + e, e, 0.0, 0.0)),
            seq(n, v requires 0 <= v < n => TiesOf(ties, v, |ties|)) + seq(|ties|, e requires 0 <= e < |ties| => [|ties| + e]),
            seq(|ties|, e requires 0 <= e < |ties| => [e, |ties| + e]))
  }

  lemma {:induction false} TiedValid(n: nat, ties: seq<Tie>)
    requires Ties(n, ties)
    ensures Tied(n, ties).Valid()
  {
    hide Tied;
    var net, m := Tied(n, ties), |ties|;
    forall v, k | 0 <= v < |net.nodePins| && 0 <= k < |net.nodePins[v]|
      ensures net.nodePins[v][k] < |net.pins| && net.pins[net.nodePins[v][k]].node == v
    {
      TiedNode(n, ties, v, k);
    }
    forall p | 0 <= p < |net.pins|
      ensures net.pins[p].node < |net.nodePins| && p in net.nodePins[net.pins[p].node]
      ensures net.pins[p].edge < |net.edgePins| && p in net.edgePins[net.pins[p].edge]
    {
      TiedPin(n, ties, p);
    }
    forall e, k | 0 <= e < |net.edgePins| && 0 <= k < |net.edgePins[e]|
      ensures net.edgePins[e][k] < |net.pins| && net.pins[net.edgePins[e][k]].edge == e
    {
      assert ties[e].cell < n;
    }
  }

  lemma {:induction false} TiedNode(n: nat, ties: seq<Tie>, v: nat, k: nat)
    requires Ties(n, ties) && v < n + |ties| && k < |Tied(n, ties).nodePins[v]|
    ensures var net := Tied(n, ties); net.nodePins[v][k] < |net.pins| && net.pins[net.nodePins[v][k]].node == v
  {
    hide Tied;
    if v < n {
      TiesOfIs(ties, v, |ties|);
      assert Tied(n, ties).nodePins[v][k] in TiesOf(ties, v, |ties|);
    } else {
      assert ties[v - n].cell < n;
    }
  }

  lemma {:induction false} TiedPin(n: nat, ties: seq<Tie>, p: nat)
    requires Ties(n, ties) && p < 2 * |ties|
    ensures var net := Tied(n, ties);
      && net.pins[p].node < |net.nodePins| && p in net.nodePins[net.pins[p].node]
      && net.pins[p].edge < |net.edgePins| && p in net.edgePins[net.pins[p].edge]
  {
    hide Tied;
    var net, m := Tied(n, ties), |ties|;
    var e := if p < m then p else p - m;
    assert ties[e].cell < n;
    TiesOfIs(ties, ties[e].cell, m);
    assert net.edgePins[e][0] == e && net.edgePins[e][1] == m + e && net.nodePins[n + e][0] == m + e;
  }

  /** Cells and terminals on one line, the terminals where they are. */
  ghost predicate OnLine(n: nat, ties: seq<Tie>, pos: Placement) {
    && Ties(n, ties) && |pos| == n + |ties| && (forall v :: 0 <= v < |pos| ==> pos[v].y == 0.0)
    && forall e :: 0 <= e < |ties| ==> pos[n + e].x == ties[e].at
  }

  ghost function PinAt(ties: seq<Tie>, pos: Placement, e: nat): real
    requires e < |ties| && ties[e].cell < |pos|
  {
    pos[ties[e].cell].x + ties[e].offset
  }

  lemma {:induction false} TiedCoordinates(n: nat, ties: seq<Tie>, pos: Placement, e: nat)
    requires OnLine(n, ties, pos) && e < |ties| && Tied(n, ties).Valid()
    ensures Tied(n, ties).Xs(pos, e) == [PinAt(ties, pos, e), ties[e].at] && Tied(n, ties).Ys(pos, e) == [0.0, 0.0]
  {
    hide Tied, Network.Valid;
    var net, m := Tied(n, ties), |ties|;
    assert ties[e].cell < n;
    var ps := net.edgePins[e];
    assert ps == [e, m + e] && ps[0] == e && ps[1] == m + e;
    assert net.XOf(pos, e) == PinAt(ties, pos, e) && net.XOf(pos, m + e) == ties[e].at;
    assert net.YOf(pos, e) == 0.0 && net.YOf(pos, m + e) == 0.0;
  }

  lemma {:induction false} TiedLength(n: nat, ties: seq<Tie>, pos: Placement, e: nat)
    requires OnLine(n, ties, pos) && e < |ties|
    ensures Tied(n, ties).Fits(pos) && Tied(n, ties).Counted(e, LIMIT)
    ensures Tied(n, ties).HalfPerimeter(pos, e) == Abs(ties[e].at - PinAt(ties, pos, e))
  {
    hide Tied, Hull;
    TiedValid(n, ties);
    assert ties[e].cell < n && |Tied(n, ties).edgePins[e]| == 2;
    hide Network.Valid;
    TiedCoordinates(n, ties, pos, e);
    HullOfTwo(PinAt(ties, pos, e), ties[e].at);
    HullOfTwo(0.0, 0.0);
  }

  // ----- what a window sees of it

  lemma {:induction false} TiedPins(n: nat, ties: seq<Tie>, e: nat, v: nat, off: real)
    requires Ties(n, ties) && e < |ties| && v < n
    ensures HasPin(Tied(n, ties), e, v, off) <==> v == ties[e].cell && off == ties[e].offset
  {
    hide Tied;
    var net, m := Tied(n, ties), |ties|;
    assert ties[e].cell < n;
    assert net.edgePins[e][0] == e && net.edgePins[e][1] == m + e;
  }

  lemma {:induction false} TiedTouches(n: nat, ties: seq<Tie>, v: nat, e: nat)
    requires Ties(n, ties) && e < |ties| && v < n
    ensures Tied(n, ties).Touches(v, e) <==> v == ties[e].cell
  {
    hide Tied;
    var net, m := Tied(n, ties), |ties|;
    TiesOfIs(ties, v, m);
    assert net.nodePins[v] == TiesOf(ties, v, m);
    if v == ties[e].cell {
      assert e in net.nodePins[v];
      var k :| 0 <= k < |net.nodePins[v]| && net.nodePins[v][k] == e;
    }
    if net.Touches(v, e) {
      var k :| 0 <= k < |net.nodePins[v]| && net.nodePins[v][k] < |net.pins| && net.pins[net.nodePins[v][k]].edge == e;
      assert net.nodePins[v][k] in TiesOf(ties, v, m);
      assert ties[net.nodePins[v][k]].cell == v;
    }
  }

  lemma {:induction false} TiedTouched(n: nat, ties: seq<Tie>, nodes: seq<nat>, e: nat)
    requires Ties(n, ties) && e < |ties| && forall k :: 0 <= k < |nodes| ==> nodes[k] < n
    ensures Tied(n, ties).Valid() && (TouchedBy(Tied(n, ties), nodes, e) <==> ties[e].cell in nodes)
  {
    hide Tied, Network.Touches;
    TiedValid(n, ties);
    hide Network.Valid;
    forall v: nat | v < n
      ensures Tied(n, ties).Touches(v, e) <==> v == ties[e].cell
    {
      TiedTouches(n, ties, v, e);
    }
    if ties[e].cell in nodes {
      var k :| 0 <= k < |nodes| && nodes[k] == ties[e].cell;
      assert Tied(n, ties).Touches(nodes[k], e);
    }
  }

  lemma OutsideTwo(net: Network, pos: Placement, nodes: seq<nat>, a: nat, b: nat)
    requires net.Fits(pos) && a < |net.pins| && b < |net.pins| && net.pins[a].node in nodes && net.pins[b].node !in nodes
    ensures Outside(net, pos, nodes, [a, b]) == [net.XOf(pos, b)]
  {
    hide Network.Valid;
    assert [a, b][..1] == [a] && [a][..0] == [];
    assert Outside(net, pos, nodes, []) == [];
    assert Outside(net, pos, nodes, [a]) == [];
  }

  lemma {:induction false} TiedPair(n: nat, ties: seq<Tie>, pos: Placement, e: nat)
    requires OnLine(n, ties, pos) && e < |ties|
    ensures var net := Tied(n, ties);
      && net.Fits(pos) && net.edgePins[e] == [e, |ties| + e] && net.pins[e].node == ties[e].cell && net.pins[|ties| + e].node == n + e
      && net.XOf(pos, |ties| + e) == ties[e].at
  {
    hide Tied;
    TiedValid(n, ties);
    assert ties[e].cell < n;
  }

  lemma {:induction false} TiedOutside(n: nat, ties: seq<Tie>, pos: Placement, nodes: seq<nat>, e: nat)
    requires OnLine(n, ties, pos) && e < |ties| && ties[e].cell in nodes && forall k :: 0 <= k < |nodes| ==> nodes[k] < n
    ensures Tied(n, ties).Fits(pos) && Outside(Tied(n, ties), pos, nodes, Tied(n, ties).edgePins[e]) == [ties[e].at]
  {
    TiedPair(n, ties, pos, e);
    var net := Tied(n, ties);
    hide Tied, Outside, Network.Valid, OnLine, Ties;
    assert n + e !in nodes;
    OutsideTwo(net, pos, nodes, e, |ties| + e);
  }

  /** The cell of tie e is this far from where it wants to be, as the window sees it. */
  ghost function Seen(tie: Tie, lo: real, hi: real, x: real): real {
    Abs(Clamp(tie.at, lo, hi) - (x + tie.offset))
  }

  ghost function SlotAt(xmin: real, w: real, i: nat): real {
    xmin + i as real * w + 0.5 * w
  }

  /** In equal slots every tied cell of the window gets nearer: the window is accepted. */
  ghost predicate Nearer(ties: seq<Tie>, pos: Placement, nodes: seq<nat>, xmin: real, xmax: real, w: real)
    requires forall k :: 0 <= k < |nodes| ==> nodes[k] < |pos|
  {
    && (forall e, i {:trigger ties[e], nodes[i]} :: 0 <= e < |ties| && 0 <= i < |nodes| && nodes[i] == ties[e].cell ==>
          Seen(ties[e], xmin, xmax, SlotAt(xmin, w, i)) < Seen(ties[e], xmin, xmax, pos[nodes[i]].x))
    && (exists e :: 0 <= e < |ties| && ties[e].cell in nodes)
    && (forall i, j :: 0 <= i < j < |nodes| ==> pos[nodes[i]].x <= pos[nodes[j]].x)
  }

  /** The small problem p of a window of tied cells. */
  ghost predicate TiedModel(n: nat, ties: seq<Tie>, pos: Placement, nodes: seq<nat>, p: Problem, ids: seq<nat>) {
    && p.Valid() && |p.widths| == |nodes| && |p.netBoxes| == |ids|
    && OnLine(n, ties, pos) && (forall k :: 0 <= k < |nodes| ==> nodes[k] < n)
    && Window(Tied(n, ties), pos, nodes) && Models(p, Tied(n, ties), pos, nodes, ids)
  }

  lemma {:induction false} TiedFixed(n: nat, ties: seq<Tie>, pos: Placement, nodes: seq<nat>, p: Problem, ids: seq<nat>, k: nat)
    requires TiedModel(n, ties, pos, nodes, p, ids) && k < |ids| && ids[k] < |ties| && ties[ids[k]].cell in nodes
    ensures var c := Clamp(ties[ids[k]].at, p.xmin, p.xmax); p.netBoxes[k] == Span(c, c)
  {
    hide Network.Valid, ListsNets, Outside, Tied, HasPin, Hull, Problem.Valid;
    var e := ids[k];
    TiedOutside(n, ties, pos, nodes, e);
    var clamped := ClampAll([ties[e].at], p.xmin, p.xmax);
    assert clamped == [Clamp(ties[e].at, p.xmin, p.xmax)];
    HullOfOne(clamped[0]);
  }

  lemma {:induction false} TiedOnly(n: nat, ties: seq<Tie>, pos: Placement, nodes: seq<nat>, p: Problem, ids: seq<nat>, k: nat, i: nat)
    requires TiedModel(n, ties, pos, nodes, p, ids) && k < |ids| && ids[k] < |ties| && i < |nodes| && nodes[i] == ties[ids[k]].cell
    ensures OnlyPin(p, k, i, ties[ids[k]].offset)
  {
    hide Network.Valid, ListsNets, Outside, Tied, HasPin, Hull;
    var e := ids[k];
    forall c, o | 0 <= c < |p.adj|
      ensures PinOn(k, o) in p.adj[c] <==> c == i && o == ties[e].offset
    {
      TiedPins(n, ties, e, nodes[c], o);
      assert PinOn(k, o) in p.adj[c] <==> HasPin(Tied(n, ties), ids[k], nodes[c], o);
    }
  }

  lemma TiedShape(n: nat, ties: seq<Tie>, pos: Placement, nodes: seq<nat>, p: Problem, ids: seq<nat>)
    requires TiedModel(n, ties, pos, nodes, p, ids)
    ensures p.Valid() && |p.widths| == |nodes| && |p.netBoxes| == |ids|
    ensures forall k :: 0 <= k < |nodes| ==> nodes[k] < |pos|
  {
  }

  lemma {:induction false} TiedBox(n: nat, ties: seq<Tie>, pos: Placement, nodes: seq<nat>, p: Problem, ids: seq<nat>, k: nat, i: nat, x: seq<real>)
    requires p.Valid() && |x| == |nodes| == |p.widths| && k < |ids| == |p.netBoxes| && TiedModel(n, ties, pos, nodes, p, ids)
    requires ids[k] < |ties| && i < |nodes| && nodes[i] == ties[ids[k]].cell
    ensures BoxOf(p, Count(|x|), x, k).Width() == Seen(ties[ids[k]], p.xmin, p.xmax, x[i])
  {
    hide TiedModel, BoxOf, OnlyPin, Problem.Valid, Seen, Clamp;
    var e := ids[k];
    assert nodes[i] in nodes;
    TiedFixed(n, ties, pos, nodes, p, ids, k);
    TiedOnly(n, ties, pos, nodes, p, ids, k, i);
    OnePinBox(p, x, k, i, ties[e].offset);
    SeenIs(ties[e], p.xmin, p.xmax, x[i]);
  }

  lemma SeenIs(tie: Tie, lo: real, hi: real, x: real)
    ensures var c := Clamp(tie.at, lo, hi); Span(c, c).Add(x + tie.offset).Width() == Seen(tie, lo, hi, x)
  {
  }

  lemma {:induction false} NearerBox(n: nat, ties: seq<Tie>, pos: Placement, nodes: seq<nat>, w: real, p: Problem, ids: seq<nat>, k: nat, i: nat)
    requires p.Valid() && |nodes| == |p.widths| && k < |ids| == |p.netBoxes| && TiedModel(n, ties, pos, nodes, p, ids)
    requires ids[k] < |ties| && i < |nodes| && nodes[i] == ties[ids[k]].cell && forall k :: 0 <= k < |nodes| ==> nodes[k] < |pos|
    requires (forall i :: 0 <= i < |nodes| ==> p.widths[i] == w) && Nearer(ties, pos, nodes, p.xmin, p.xmax, w)
    ensures var first := Count(|nodes|);
      BoxOf(p, first, Centres(p, first), k).Width() < BoxOf(p, first, CentresAt(pos, nodes), k).Width()
  {
    hide TiedModel, BoxOf, Problem.Valid, Seen, CentreOf;
    var first := Count(|nodes|);
    TiedBox(n, ties, pos, nodes, p, ids, k, i, CentresAt(pos, nodes));
    TiedBox(n, ties, pos, nodes, p, ids, k, i, Centres(p, first));
    EqualSlots(p, first, i, w);
  }

  lemma {:induction false} NearerPays(n: nat, ties: seq<Tie>, pos: Placement, nodes: seq<nat>, w: real, p: Problem, ids: seq<nat>)
    requires p.Valid() && |nodes| == |p.widths| && |p.netBoxes| == |ids| && TiedModel(n, ties, pos, nodes, p, ids)
    requires forall k :: 0 <= k < |nodes| ==> nodes[k] < |pos|
    requires (forall i :: 0 <= i < |nodes| ==> p.widths[i] == w) && Nearer(ties, pos, nodes, p.xmin, p.xmax, w)
    ensures OrderCost(p, Count(|nodes|)) < FirstCost(p, CentresAt(pos, nodes))
  {
    var first, x0 := Count(|nodes|), CentresAt(pos, nodes);
    forall k: nat | k < |p.netBoxes|
      ensures BoxOf(p, first, Centres(p, first), k).Width() < BoxOf(p, first, x0, k).Width()
    {
      hide TiedModel, BoxOf, Problem.Valid, Nearer, Centres, CentresAt;
      var i := CellOf(n, ties, pos, nodes, p, ids, k);
      NearerBox(n, ties, pos, nodes, w, p, ids, k, i);
    }
    hide TiedModel, BoxOf, Problem.Valid, FirstCost, OrderCost;
    NearerNet(n, ties, pos, nodes, p, ids);
    PackingPays(p, x0);
  }

  lemma {:induction false} NearerNet(n: nat, ties: seq<Tie>, pos: Placement, nodes: seq<nat>, p: Problem, ids: seq<nat>)
    requires TiedModel(n, ties, pos, nodes, p, ids)
    requires exists e :: 0 <= e < |ties| && ties[e].cell in nodes
    ensures p.netBoxes != []
  {
    hide Tied, Outside, Hull, HasPin, Network.Valid;
    var e :| 0 <= e < |ties| && ties[e].cell in nodes;
    TiedTouched(n, ties, nodes, e);
    TiedLength(n, ties, pos, e);
    assert e in ids;
  }

  /** The window's cell on listed net k. */
  lemma {:induction false} CellOf(n: nat, ties: seq<Tie>, pos: Placement, nodes: seq<nat>, p: Problem, ids: seq<nat>, k: nat) returns (i: nat)
    requires TiedModel(n, ties, pos, nodes, p, ids) && k < |ids|
    ensures ids[k] < |ties| && i < |nodes| && nodes[i] == ties[ids[k]].cell
  {
    hide Tied, Outside, Hull, HasPin, Network.Valid;
    var e := ids[k];
    assert e in ids && e < |ties|;
    TiedTouched(n, ties, nodes, e);
    i :| 0 <= i < |nodes| && nodes[i] == ties[e].cell;
  }

  lemma {:induction false} NearerIsAccepted(n: nat, ties: seq<Tie>, row: Row, pos: Placement, nodes: seq<nat>, l: real, r: real, w: real)
      returns (q: Placement, nodes': seq<nat>, p: Problem, ids: seq<nat>, first: seq<nat>, x: seq<real>)
    requires OnLine(n, ties, pos) && (forall k :: 0 <= k < |nodes| ==> nodes[k] < n) && Window(Tied(n, ties), pos, nodes)
    requires row.Valid(|pos|) && nodes != []
    requires var s := RoomOf(pos, nodes, row, l, r);
      s.Space? && |s.widths| == |nodes| && (forall i :: 0 <= i < |nodes| ==> s.widths[i] == w) && Nearer(ties, pos, nodes, s.xmin, s.xmax, w)
    ensures Accepts(Tied(n, ties), row, pos, nodes, l, r, q, nodes', p, ids, first, x)
  {
    hide RoomOf, Network.Valid, Models, BuiltFor, FirstCost, OrderCost, Accepts;
    var net, s := Tied(n, ties), RoomOf(pos, nodes, row, l, r);
    HasModel(net, row, pos, nodes, l, r);
    ids, first := Listed(net, nodes, |ties|), Count(|nodes|);
    BuiltShape(ModelOf(net, pos, nodes, s), net, pos, nodes, ids, row, l, r);
    BuiltModels(ModelOf(net, pos, nodes, s), net, pos, nodes, ids, row, l, r);
    NearerPays(n, ties, pos, nodes, w, ModelOf(net, pos, nodes, s), ids);
    q, nodes', p, x := PackingAccepted(net, row, pos, nodes, l, r);
  }

  lemma BuiltModels(p: Problem, net: Network, pos: Placement, nodes: seq<nat>, ids: seq<nat>, row: Row, l: real, r: real)
    requires Window(net, pos, nodes) && row.Valid(|pos|) && nodes != [] && BuiltFor(p, net, pos, nodes, ids, row, l, r)
    ensures Models(p, net, pos, nodes, ids) && |p.netBoxes| == |ids|
  {
  }
}
