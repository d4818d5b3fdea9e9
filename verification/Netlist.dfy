/** The placement netlist the detailed placer works on: cells with a position, nets ("edges")
    and pins that tie one cell to one net at a fixed offset from the cell's centre. */
module Netlist {
  import opened RealMath
  import opened Intervals

  /** Nets with this many pins or more are skipped. */
  const SKIP_NETS_LARGER_THAN_THIS: nat := 100
  const LIMIT: nat := SKIP_NETS_LARGER_THAN_THIS - 1

  datatype Point = Point(x: real, y: real)

  /** Cell centres, indexed by node id. */
  type Placement = seq<Point>

  datatype Pin = Pin(node: nat, edge: nat, dx: real, dy: real)

  /** The placement after moving `nodes[i]` to `to[i]`, in order. */
  ghost function PlaceAt(pos: Placement, nodes: seq<nat>, to: seq<Point>): (r: Placement)
    requires |nodes| == |to| && forall i :: 0 <= i < |nodes| ==> nodes[i] < |pos|
    ensures |r| == |pos|
    ensures forall n: nat :: n < |pos| && n !in nodes ==> r[n] == pos[n]
  {
    if nodes == [] then pos
    else
      var k := |nodes| - 1;
      assert nodes == nodes[..k] + [nodes[k]];
      PlaceAt(pos, nodes[..k], to[..k])[nodes[k] := to[k]]
  }

  datatype Network = Network(pins: seq<Pin>, nodePins: seq<seq<nat>>, edgePins: seq<seq<nat>>) {

    /** Every pin is listed by its own node and its own edge, and by nobody else. */
    ghost predicate Valid() {
      && (forall n, k :: 0 <= n < |nodePins| && 0 <= k < |nodePins[n]| ==>
            nodePins[n][k] < |pins| && pins[nodePins[n][k]].node == n)
      && (forall e, k :: 0 <= e < |edgePins| && 0 <= k < |edgePins[e]| ==>
            edgePins[e][k] < |pins| && pins[edgePins[e][k]].edge == e)
      && (forall p :: 0 <= p < |pins| ==>
            && pins[p].node < |nodePins| && p in nodePins[pins[p].node]
            && pins[p].edge < |edgePins| && p in edgePins[pins[p].edge])
    }

    ghost predicate Fits(pos: Placement) {
      Valid() && |pos| == |nodePins|
    }

    function XOf(pos: Placement, p: nat): real
      requires p < |pins| && pins[p].node < |pos|
    {
      pos[pins[p].node].x + pins[p].dx
    }

    function YOf(pos: Placement, p: nat): real
      requires p < |pins| && pins[p].node < |pos|
    {
      pos[pins[p].node].y + pins[p].dy
    }

    ghost function Xs(pos: Placement, e: nat): (xs: seq<real>)
      requires Fits(pos) && e < |edgePins|
      ensures |xs| == |edgePins[e]|
    {
      seq(|edgePins[e]|, k requires 0 <= k < |edgePins[e]| => XOf(pos, edgePins[e][k]))
    }

    ghost function Ys(pos: Placement, e: nat): (ys: seq<real>)
      requires Fits(pos) && e < |edgePins|
      ensures |ys| == |edgePins[e]|
    {
      seq(|edgePins[e]|, k requires 0 <= k < |edgePins[e]| => YOf(pos, edgePins[e][k]))
    }

    /** Half the perimeter of the bounding box of a net's pins. */
    ghost function HalfPerimeter(pos: Placement, e: nat): real
      requires Fits(pos) && e < |edgePins|
    {
      Hull(Xs(pos, e)).Width() + Hull(Ys(pos, e)).Width()
    }

    /** Nets with fewer than two or more than `limit` pins are ignored. */
    predicate Counted(e: nat, limit: nat)
      requires e < |edgePins|
    {
      2 <= |edgePins[e]| <= limit
    }

    ghost function Lengths(pos: Placement, limit: nat): (s: seq<real>)
      requires Fits(pos)
      ensures |s| == |edgePins|
      ensures forall e: nat :: e < |s| ==> s[e] == if Counted(e, limit) then HalfPerimeter(pos, e) else 0.0
    {
      seq(|edgePins|, e requires 0 <= e < |edgePins| => if Counted(e, limit) then HalfPerimeter(pos, e) else 0.0)
    }

    /** Total half-perimeter wirelength of the counted nets. */
    ghost function Hpwl(pos: Placement, limit: nat): real
      requires Fits(pos)
    {
      Sum(Lengths(pos, limit))
    }

    /** Node `n` has a pin on net `e`. */
    ghost predicate Touches(n: nat, e: nat)
      requires n < |nodePins|
    {
      exists k :: 0 <= k < |nodePins[n]| && nodePins[n][k] < |pins| && pins[nodePins[n][k]].edge == e
    }

    /** The counted nets of a list of pins. */
    ghost function CountedNets(limit: nat, ps: seq<nat>): set<nat>
      requires Valid() && forall k :: 0 <= k < |ps| ==> ps[k] < |pins|
    {
      set k | 0 <= k < |ps| && Counted(pins[ps[k]].edge, limit) :: pins[ps[k]].edge
    }

    lemma {:induction false} CountedNetsSnoc(limit: nat, ps: seq<nat>, k: nat)
      requires Valid() && k < |ps|
      requires forall k :: 0 <= k < |ps| ==> ps[k] < |pins|
      ensures CountedNets(limit, ps[..k + 1]) == CountedNets(limit, ps[..k])
        + (if Counted(pins[ps[k]].edge, limit) then {pins[ps[k]].edge} else {})
    {
      assert ps[..k + 1] == ps[..k] + [ps[k]];
    }

    /** A net's length depends only on the positions of the nodes that have a pin on it. */
    lemma {:induction false} UntouchedKeepsLength(pos: Placement, pos': Placement, e: nat)
      requires Fits(pos) && Fits(pos') && e < |edgePins|
      requires forall n: nat :: n < |pos| && Touches(n, e) ==> pos[n] == pos'[n]
      ensures HalfPerimeter(pos, e) == HalfPerimeter(pos', e)
    {
      forall k | 0 <= k < |edgePins[e]|
        ensures pos[pins[edgePins[e][k]].node] == pos'[pins[edgePins[e][k]].node]
      {
        var p := edgePins[e][k];
        assert p in nodePins[pins[p].node];
        assert Touches(pins[p].node, e);
      }
      assert Xs(pos, e) == Xs(pos', e);
      assert Ys(pos, e) == Ys(pos', e);
    }

    /** If nodes move only inside `moved`, the change of the total is the change over the nets
        marked in `seen`, provided `seen` holds every counted net of a moved node. */
    lemma {:induction false} ChangeIsLocal(pos: Placement, pos': Placement, limit: nat, seen: set<nat>)
      requires Fits(pos) && Fits(pos')
      requires forall n: nat, e: nat ::
        (n < |pos| && e < |edgePins| && pos[n] != pos'[n] && Touches(n, e) && Counted(e, limit)) ==> e in seen
      ensures Sum(Masked(Lengths(pos, limit), seen)) - Sum(Masked(Lengths(pos', limit), seen))
           == Hpwl(pos, limit) - Hpwl(pos', limit)
    {
      var a, b := Lengths(pos, limit), Lengths(pos', limit);
      forall e: nat | e < |a| && e !in seen
        ensures a[e] == b[e]
      {
        if Counted(e, limit) {
          UntouchedKeepsLength(pos, pos', e);
        }
      }
      MaskedChange(a, b, seen);
    }
  }
}
