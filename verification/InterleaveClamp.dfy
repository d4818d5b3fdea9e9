/** Why a window may be optimised alone (detailed_interleaving.cxx): terminals outside the window are
    clamped to its ends, which shifts every net's width by a constant. */
module InterleaveClamp {
  import opened RealMath
  import opened Intervals
  import opened Netlist
  import opened InterleaveSpec

  function Clamp(x: real, lo: real, hi: real): real {
    Min(Max(x, lo), hi)
  }

  ghost function ClampAll(xs: seq<real>, lo: real, hi: real): (s: seq<real>)
    ensures |s| == |xs|
  {
    seq(|xs|, k requires 0 <= k < |xs| => Clamp(xs[k], lo, hi))
  }

  /** How far the fixed terminals stick out of the window. */
  ghost function Beyond(fixed: seq<real>, lo: real, hi: real): real {
    if fixed == [] then 0.0
    else Max(0.0, lo - Hull(fixed).lo) + Max(0.0, Hull(fixed).hi - hi)
  }

  lemma {:induction false} ClampedHull(fixed: seq<real>, lo: real, hi: real)
    requires fixed != [] && lo <= hi
    ensures Hull(ClampAll(fixed, lo, hi)) == Span(Clamp(Hull(fixed).lo, lo, hi), Clamp(Hull(fixed).hi, lo, hi))
  {
    var c := ClampAll(fixed, lo, hi);
    HullIsRange(fixed);
    var i :| 0 <= i < |fixed| && fixed[i] == Hull(fixed).lo;
    var j :| 0 <= j < |fixed| && fixed[j] == Hull(fixed).hi;
    assert c[i] in c && c[j] in c;
    forall x | x in c
      ensures Clamp(Hull(fixed).lo, lo, hi) <= x <= Clamp(Hull(fixed).hi, lo, hi)
    {
      var k :| 0 <= k < |c| && c[k] == x;
      assert fixed[k] in fixed;
    }
    HullUnique(c, Clamp(Hull(fixed).lo, lo, hi), Clamp(Hull(fixed).hi, lo, hi));
  }

  /** The clamp theorem for one net: as long as the movable pins stay in the window, the true width
      exceeds the clamped width by an amount that does not depend on where they are. */
  lemma {:induction false} ClampWidth(all: seq<real>, fixed: seq<real>, inside: seq<real>, lo: real, hi: real)
    requires inside != [] && forall v :: v in inside ==> lo <= v <= hi
    requires forall v :: v in all <==> v in fixed || v in inside
    ensures Hull(all).Width() == Extend(Hull(ClampAll(fixed, lo, hi)), inside).Width() + Beyond(fixed, lo, hi)
  {
    HullIsRange(inside);
    var i := Hull(inside);
    assert i.lo in inside && i.hi in inside;
    if fixed == [] {
      assert ClampAll(fixed, lo, hi) == [];
      ExtendSameMembers(Empty, all, inside);
    } else {
      HullIsRange(fixed);
      var f := Hull(fixed);
      ClampedHull(fixed, lo, hi);
      HullUnique(all, Min(f.lo, i.lo), Max(f.hi, i.hi));
      var c := Hull(ClampAll(fixed, lo, hi));
      ExtendJoin(c, inside);
    }
  }

  /** Stretching a box by some coordinates joins it with their hull. */
  lemma {:induction false} ExtendJoin(c: Interval, xs: seq<real>)
    requires c.Span? && c.lo <= c.hi && xs != []
    ensures Hull(xs).Span? && Extend(c, xs) == Span(Min(c.lo, Hull(xs).lo), Max(c.hi, Hull(xs).hi))
  {
    ExtendRange(c, xs);
    HullIsRange(xs);
  }

  // ----- the window of a netlist

  /** Cells by window position: `nodes[n]` is the netlist node of the window's n-th cell. */
  ghost predicate Window(net: Network, pos: Placement, nodes: seq<nat>) {
    && net.Fits(pos)
    && (forall n :: 0 <= n < |nodes| ==> nodes[n] < |pos|)
    && (forall m, n :: 0 <= m < n < |nodes| ==> nodes[m] != nodes[n])
  }

  ghost predicate TouchedBy(net: Network, nodes: seq<nat>, e: nat)
    requires forall n :: 0 <= n < |nodes| ==> nodes[n] < |net.nodePins|
  {
    exists n :: 0 <= n < |nodes| && net.Touches(nodes[n], e)
  }

  /** `ids` lists the counted nets of the window's cells, each once. */
  ghost predicate ListsNets(net: Network, nodes: seq<nat>, ids: seq<nat>)
    requires net.Valid() && forall n :: 0 <= n < |nodes| ==> nodes[n] < |net.nodePins|
  {
    && (forall k :: 0 <= k < |ids| ==> ids[k] < |net.edgePins| && net.Counted(ids[k], LIMIT))
    && (forall j, k :: 0 <= j < k < |ids| ==> ids[j] != ids[k])
    && (forall e: nat :: e < |net.edgePins| && net.Counted(e, LIMIT) ==> (e in ids <==> TouchedBy(net, nodes, e)))
  }

  /** Coordinates of the pins of `ps` whose node is not in the window. */
  ghost function Outside(net: Network, pos: Placement, nodes: seq<nat>, ps: seq<nat>): seq<real>
    requires net.Fits(pos) && forall k :: 0 <= k < |ps| ==> ps[k] < |net.pins|
  {
    if ps == [] then []
    else
      var p := ps[|ps| - 1];
      Outside(net, pos, nodes, ps[..|ps| - 1]) + (if net.pins[p].node in nodes then [] else [net.XOf(pos, p)])
  }

  /** The small problem stands for the window: its adjacency lists are the cells' pins on the listed
      nets, its net boxes the clamped terminals of everybody else. */
  ghost predicate Models(p: Problem, net: Network, pos: Placement, nodes: seq<nat>, ids: seq<nat>)
    requires Window(net, pos, nodes)
  {
    && p.Valid() && |p.widths| == |nodes| && |p.netBoxes| == |ids| && p.xmin <= p.xmax
    && ListsNets(net, nodes, ids)
    && (forall k :: 0 <= k < |ids| ==>
          p.netBoxes[k] == Hull(ClampAll(Outside(net, pos, nodes, net.edgePins[ids[k]]), p.xmin, p.xmax)))
    && (forall n, k: nat, off {:trigger PinOn(k, off), nodes[n]} :: 0 <= n < |nodes| && k < |ids| ==>
          (PinOn(k, off) in p.adj[n] <==> HasPin(net, ids[k], nodes[n], off)))
  }

  /** Net `e` has a pin of node `n` at offset `off`. */
  ghost predicate HasPin(net: Network, e: nat, n: nat, off: real)
    requires e < |net.edgePins|
  {
    exists j :: 0 <= j < |net.edgePins[e]| && net.edgePins[e][j] < |net.pins|
      && net.pins[net.edgePins[e][j]].node == n && net.pins[net.edgePins[e][j]].dx == off
  }

  /** `pos` with the window's cells at centres `x`. */
  ghost predicate Moved(pos: Placement, q: Placement, nodes: seq<nat>, x: seq<real>) {
    && |q| == |pos| && |x| == |nodes| && (forall n :: 0 <= n < |nodes| ==> nodes[n] < |pos|)
    && (forall n :: 0 <= n < |nodes| ==> q[nodes[n]] == Point(x[n], pos[nodes[n]].y))
    && (forall m: nat :: m < |pos| && m !in nodes ==> q[m] == pos[m])
  }

  ghost predicate OutsidePin(net: Network, pos: Placement, nodes: seq<nat>, p: nat, v: real)
    requires net.Fits(pos) && p < |net.pins|
  {
    net.pins[p].node !in nodes && v == net.XOf(pos, p)
  }

  lemma {:induction false} OutsideMembers(net: Network, pos: Placement, nodes: seq<nat>, ps: seq<nat>, v: real)
    requires net.Fits(pos) && forall k :: 0 <= k < |ps| ==> ps[k] < |net.pins|
    ensures v in Outside(net, pos, nodes, ps) <==> exists k :: 0 <= k < |ps| && OutsidePin(net, pos, nodes, ps[k], v)
  {
    if ps != [] {
      var n := |ps| - 1;
      OutsideMembers(net, pos, nodes, ps[..n], v);
      if v in Outside(net, pos, nodes, ps[..n]) {
        var k :| 0 <= k < n && OutsidePin(net, pos, nodes, ps[..n][k], v);
        assert OutsidePin(net, pos, nodes, ps[k], v);
      } else if v in Outside(net, pos, nodes, ps) {
        assert OutsidePin(net, pos, nodes, ps[n], v);
      }
      forall k | 0 <= k < n && OutsidePin(net, pos, nodes, ps[k], v)
        ensures v in Outside(net, pos, nodes, ps)
      {
        assert OutsidePin(net, pos, nodes, ps[..n][k], v);
      }
    }
  }

  /** The outside terminals do not move with the window. */
  lemma {:induction false} OutsideFixed(net: Network, pos: Placement, q: Placement, nodes: seq<nat>, ps: seq<nat>)
    requires net.Fits(pos) && net.Fits(q) && forall k :: 0 <= k < |ps| ==> ps[k] < |net.pins|
    requires forall m: nat :: m < |pos| && m !in nodes ==> q[m] == pos[m]
    ensures Outside(net, q, nodes, ps) == Outside(net, pos, nodes, ps)
  {
    if ps != [] {
      OutsideFixed(net, pos, q, nodes, ps[..|ps| - 1]);
    }
  }

  /** Where the window's own pins are on net `k` of the small problem. */
  ghost function Inside(p: Problem, order: seq<nat>, x: seq<real>, k: nat): seq<real>
    requires p.Valid() && Lists(p, order) && |x| == |p.widths|
  {
    Coords(p, order, Along(order, x), k)
  }

  lemma {:induction false} InsideMembers(p: Problem, order: seq<nat>, x: seq<real>, k: nat, v: real)
    requires p.Valid() && Lists(p, order) && |x| == |p.widths|
    ensures v in Inside(p, order, x, k) <==> exists n :: 0 <= n < |x| && PinOn(k, v - x[n]) in p.adj[n]
  {
    CoordsMembers(p, order, Along(order, x), k, v);
    if v in Inside(p, order, x, k) {
      var j :| 0 <= j < |order| && Reaches(p, order, Along(order, x), k, v, j);
      var m :| 0 <= m < |p.adj[order[j]]| && PinHits(p.adj[order[j]][m], x[order[j]], k, v);
      assert p.adj[order[j]][m] == PinOn(k, v - x[order[j]]);
    }
    forall n | 0 <= n < |x| && PinOn(k, v - x[n]) in p.adj[n]
      ensures v in Inside(p, order, x, k)
    {
      assert n in order;
      var j :| 0 <= j < |order| && order[j] == n;
      var m :| 0 <= m < |p.adj[n]| && p.adj[n][m] == PinOn(k, v - x[n]);
      assert PinHits(p.adj[order[j]][m], x[order[j]], k, v);
      assert Reaches(p, order, Along(order, x), k, v, j);
    }
  }

  /** A pin coordinate of a listed net is a fixed terminal's or one of the window's. */
  lemma {:induction false} PinIsSomewhere(p: Problem, net: Network, pos: Placement, q: Placement, nodes: seq<nat>, ids: seq<nat>,
                                          order: seq<nat>, x: seq<real>, k: nat, j: nat)
    requires Window(net, pos, nodes) && Models(p, net, pos, nodes, ids) && net.Fits(q) && Moved(pos, q, nodes, x)
    requires Lists(p, order) && k < |ids| && j < |net.edgePins[ids[k]]|
    ensures var v := net.XOf(q, net.edgePins[ids[k]][j]);
      v in Outside(net, q, nodes, net.edgePins[ids[k]]) || v in Inside(p, order, x, k)
  {
    var ps := net.edgePins[ids[k]];
    var v, pin := net.XOf(q, ps[j]), net.pins[ps[j]];
    if pin.node in nodes {
      var n :| 0 <= n < |nodes| && nodes[n] == pin.node;
      assert HasPin(net, ids[k], nodes[n], pin.dx);
      assert pin.dx == v - x[n];
      assert PinOn(k, pin.dx) in p.adj[n];
      InsideMembers(p, order, x, k, v);
    } else {
      OutsideMembers(net, q, nodes, ps, v);
      assert OutsidePin(net, q, nodes, ps[j], v);
    }
  }

  /** Conversely every such coordinate is a pin coordinate of the net. */
  lemma {:induction false} SomewhereIsPin(p: Problem, net: Network, pos: Placement, q: Placement, nodes: seq<nat>, ids: seq<nat>,
                                          order: seq<nat>, x: seq<real>, k: nat, v: real)
    requires Window(net, pos, nodes) && Models(p, net, pos, nodes, ids) && net.Fits(q) && Moved(pos, q, nodes, x)
    requires Lists(p, order) && k < |ids|
    requires v in Outside(net, q, nodes, net.edgePins[ids[k]]) || v in Inside(p, order, x, k)
    ensures v in net.Xs(q, ids[k])
  {
    hide HasPin, Outside, Inside, Hull;
    if v in Outside(net, q, nodes, net.edgePins[ids[k]]) {
      OutsideIsPin(net, q, nodes, ids[k], v);
    } else {
      InsideMembers(p, order, x, k, v);
      var n :| 0 <= n < |x| && PinOn(k, v - x[n]) in p.adj[n];
      assert HasPin(net, ids[k], nodes[n], v - x[n]);
      InsideIsPin(net, q, nodes[n], ids[k], v - x[n]);
      assert q[nodes[n]].x + (v - x[n]) == v;
    }
  }

  lemma {:induction false} InsideIsPin(net: Network, q: Placement, n: nat, e: nat, off: real)
    requires net.Fits(q) && n < |q| && e < |net.edgePins| && HasPin(net, e, n, off)
    ensures q[n].x + off in net.Xs(q, e)
  {
    var ps := net.edgePins[e];
    var j :| 0 <= j < |ps| && ps[j] < |net.pins| && net.pins[ps[j]].node == n && net.pins[ps[j]].dx == off;
    assert net.Xs(q, e)[j] == q[n].x + off;
  }

  lemma {:induction false} OutsideIsPin(net: Network, q: Placement, nodes: seq<nat>, e: nat, v: real)
    requires net.Fits(q) && e < |net.edgePins| && v in Outside(net, q, nodes, net.edgePins[e])
    ensures v in net.Xs(q, e)
  {
    var ps := net.edgePins[e];
    OutsideMembers(net, q, nodes, ps, v);
    var j :| 0 <= j < |ps| && OutsidePin(net, q, nodes, ps[j], v);
    assert net.Xs(q, e)[j] == v;
  }

  /** The pins of a listed net are the fixed terminals and the window's own pins. */
  lemma {:induction false} NetMembers(p: Problem, net: Network, pos: Placement, q: Placement, nodes: seq<nat>, ids: seq<nat>,
                                      order: seq<nat>, x: seq<real>, k: nat, v: real)
    requires Window(net, pos, nodes) && Models(p, net, pos, nodes, ids) && net.Fits(q) && Moved(pos, q, nodes, x)
    requires Lists(p, order) && k < |ids|
    ensures v in net.Xs(q, ids[k]) <==>
      v in Outside(net, pos, nodes, net.edgePins[ids[k]]) || v in Inside(p, order, x, k)
  {
    OutsideFixed(net, pos, q, nodes, net.edgePins[ids[k]]);
    if v in net.Xs(q, ids[k]) {
      var j :| 0 <= j < |net.Xs(q, ids[k])| && net.Xs(q, ids[k])[j] == v;
      PinIsSomewhere(p, net, pos, q, nodes, ids, order, x, k, j);
    } else if v in Outside(net, q, nodes, net.edgePins[ids[k]]) || v in Inside(p, order, x, k) {
      SomewhereIsPin(p, net, pos, q, nodes, ids, order, x, k, v);
    }
  }

  lemma {:induction false} InsideNonEmpty(p: Problem, net: Network, pos: Placement, nodes: seq<nat>, ids: seq<nat>,
                                          order: seq<nat>, x: seq<real>, k: nat)
    requires Window(net, pos, nodes) && Models(p, net, pos, nodes, ids) && |x| == |nodes|
    requires Lists(p, order) && k < |ids|
    ensures Inside(p, order, x, k) != []
  {
    assert ids[k] in ids;
    var n :| 0 <= n < |nodes| && net.Touches(nodes[n], ids[k]);
    var j :| 0 <= j < |net.nodePins[nodes[n]]| && net.nodePins[nodes[n]][j] < |net.pins|
      && net.pins[net.nodePins[nodes[n]][j]].edge == ids[k];
    var pin := net.nodePins[nodes[n]][j];
    assert pin in net.edgePins[ids[k]];
    assert HasPin(net, ids[k], nodes[n], net.pins[pin].dx);
    assert PinOn(k, net.pins[pin].dx) in p.adj[n];
    var v := x[n] + net.pins[pin].dx;
    assert v - x[n] == net.pins[pin].dx;
    InsideMembers(p, order, x, k, v);
  }

  /** All of the window's pins lie between its ends. */
  ghost predicate PinsInside(p: Problem, x: seq<real>)
    requires |x| == |p.adj|
  {
    forall n, m :: 0 <= n < |x| && 0 <= m < |p.adj[n]| ==> p.xmin <= x[n] + p.adj[n][m].offset <= p.xmax
  }

  /** The clamp theorem for a listed net of the netlist. */
  lemma {:induction false} NetWidth(p: Problem, net: Network, pos: Placement, q: Placement, nodes: seq<nat>, ids: seq<nat>,
                                    order: seq<nat>, x: seq<real>, k: nat)
    requires Window(net, pos, nodes) && Models(p, net, pos, nodes, ids) && net.Fits(q) && Moved(pos, q, nodes, x)
    requires Lists(p, order) && k < |ids| && PinsInside(p, x)
    ensures Hull(net.Xs(q, ids[k])).Width()
         == BoxOf(p, order, Along(order, x), k).Width() + Beyond(Outside(net, pos, nodes, net.edgePins[ids[k]]), p.xmin, p.xmax)
  {
    var fixed, inside := Outside(net, pos, nodes, net.edgePins[ids[k]]), Inside(p, order, x, k);
    InsideNonEmpty(p, net, pos, nodes, ids, order, x, k);
    forall v
      ensures v in net.Xs(q, ids[k]) <==> v in fixed || v in inside
    {
      NetMembers(p, net, pos, q, nodes, ids, order, x, k, v);
    }
    forall v | v in inside
      ensures p.xmin <= v <= p.xmax
    {
      InsideMembers(p, order, x, k, v);
      var n :| 0 <= n < |x| && PinOn(k, v - x[n]) in p.adj[n];
      var m :| 0 <= m < |p.adj[n]| && p.adj[n][m] == PinOn(k, v - x[n]);
      assert p.adj[n][m].offset == v - x[n];
    }
    ClampWidth(net.Xs(q, ids[k]), fixed, inside, p.xmin, p.xmax);
  }

  // ----- from one net to the whole netlist

  /** The entries of `s` at the listed places. */
  ghost function Picked(s: seq<real>, ids: seq<nat>): (r: seq<real>)
    requires forall k :: 0 <= k < |ids| ==> ids[k] < |s|
    ensures |r| == |ids|
  {
    seq(|ids|, k requires 0 <= k < |ids| => s[ids[k]])
  }

  ghost function SetOf(ids: seq<nat>): set<nat> {
    set i | i in ids
  }

  lemma {:induction false} PickedIsMasked(s: seq<real>, ids: seq<nat>)
    requires forall k :: 0 <= k < |ids| ==> ids[k] < |s|
    requires forall j, k :: 0 <= j < k < |ids| ==> ids[j] != ids[k]
    ensures Sum(Picked(s, ids)) == Sum(Masked(s, SetOf(ids)))
  {
    if ids == [] {
      assert SetOf(ids) == {};
      MaskedNone(s);
    } else {
      var n := |ids| - 1;
      PickedIsMasked(s, ids[..n]);
      assert Picked(s, ids)[..n] == Picked(s, ids[..n]);
      assert ids == ids[..n] + [ids[n]];
      assert SetOf(ids) == SetOf(ids[..n]) + {ids[n]};
      assert ids[n] !in ids[..n];
      MaskedAdd(s, SetOf(ids[..n]), ids[n]);
    }
  }

  ghost function Lens(net: Network, pos: Placement, ids: seq<nat>): (s: seq<real>)
    requires net.Fits(pos) && forall k :: 0 <= k < |ids| ==> ids[k] < |net.edgePins|
    ensures |s| == |ids|
  {
    seq(|ids|, k requires 0 <= k < |ids| => net.HalfPerimeter(pos, ids[k]))
  }

  /** Moving the window changes the total by the change over the listed nets. */
  lemma {:induction false} ListedChange(net: Network, pos: Placement, q: Placement, nodes: seq<nat>, ids: seq<nat>, x: seq<real>)
    requires Window(net, pos, nodes) && net.Fits(q) && Moved(pos, q, nodes, x) && ListsNets(net, nodes, ids)
    ensures net.Hpwl(q, LIMIT) - net.Hpwl(pos, LIMIT) == Sum(Lens(net, q, ids)) - Sum(Lens(net, pos, ids))
  {
    forall n: nat, e: nat | n < |pos| && e < |net.edgePins| && q[n] != pos[n] && net.Touches(n, e) && net.Counted(e, LIMIT)
      ensures e in SetOf(ids)
    {
      assert n in nodes;
      var k :| 0 <= k < |nodes| && nodes[k] == n;
      assert TouchedBy(net, nodes, e);
    }
    net.ChangeIsLocal(q, pos, LIMIT, SetOf(ids));
    PickedIsMasked(net.Lengths(q, LIMIT), ids);
    PickedIsMasked(net.Lengths(pos, LIMIT), ids);
    assert Picked(net.Lengths(q, LIMIT), ids) == Lens(net, q, ids);
    assert Picked(net.Lengths(pos, LIMIT), ids) == Lens(net, pos, ids);
  }

  /** The window theorem: with all window pins inside its ends before and after, the true total
      wirelength changes by exactly the change of the small problem's cost. */
  lemma {:induction false} WindowChange(p: Problem, net: Network, pos: Placement, q: Placement, nodes: seq<nat>, ids: seq<nat>,
                                        order: seq<nat>, x0: seq<real>, x: seq<real>)
    requires Window(net, pos, nodes) && Models(p, net, pos, nodes, ids) && net.Fits(q) && Lists(p, order)
    requires Moved(pos, pos, nodes, x0) && PinsInside(p, x0)
    requires Moved(pos, q, nodes, x) && PinsInside(p, x)
    ensures net.Hpwl(q, LIMIT) - net.Hpwl(pos, LIMIT)
         == CostOf(p, order, Along(order, x)) - CostOf(p, order, Along(order, x0))
  {
    ListedChange(net, pos, q, nodes, ids, x);
    var a, b := Widths(Boxes(p, order, Along(order, x))), Widths(Boxes(p, order, Along(order, x0)));
    forall k: nat | k < |ids|
      ensures Lens(net, q, ids)[k] - Lens(net, pos, ids)[k] == a[k] - b[k]
    {
      NetWidth(p, net, pos, q, nodes, ids, order, x, k);
      NetWidth(p, net, pos, pos, nodes, ids, order, x0, k);
      YsKept(net, pos, q, nodes, x, ids[k]);
    }
    SumSameChange(Lens(net, q, ids), Lens(net, pos, ids), a, b);
  }

  lemma {:induction false} YsKept(net: Network, pos: Placement, q: Placement, nodes: seq<nat>, x: seq<real>, e: nat)
    requires Window(net, pos, nodes) && net.Fits(q) && Moved(pos, q, nodes, x) && e < |net.edgePins|
    ensures net.Ys(q, e) == net.Ys(pos, e)
  {
    forall m: nat | m < |pos|
      ensures q[m].y == pos[m].y
    {
      if m in nodes {
        var n :| 0 <= n < |nodes| && nodes[n] == m;
      }
    }
  }
}
