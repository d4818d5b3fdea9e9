/** Why per-cell costs may be added up when cells that share no net are moved together
    (the objective of detailed_mis.cxx). */
module IndependentSet {
  import opened RealMath
  import opened Netlist
  import opened Permutations

  /** Nets with more pins than this are ignored by the matcher (100-pin nets still count). */
  const MATCH_LIMIT: nat := 100

  /** The wirelength seen by one node: for each of its pins, the length of the pin's net. */
  ghost function PinLengths(net: Network, pos: Placement, n: nat): (s: seq<real>)
    requires net.Fits(pos) && n < |pos|
    ensures |s| == |net.nodePins[n]|
  {
    seq(|net.nodePins[n]|, k requires 0 <= k < |net.nodePins[n]| =>
      var e := net.pins[net.nodePins[n][k]].edge;
      if net.Counted(e, MATCH_LIMIT) then net.HalfPerimeter(pos, e) else 0.0)
  }

  /** The cost the matcher charges node `n` for standing at `at`, everybody else as in `pos`. */
  ghost function NodeCost(net: Network, pos: Placement, n: nat, at: Point): real
    requires net.Fits(pos) && n < |pos|
  {
    Sum(PinLengths(net, pos[n := at], n))
  }

  ghost predicate OnePinPerNet(net: Network, n: nat)
    requires net.Valid() && n < |net.nodePins|
  {
    forall j, k :: 0 <= j < k < |net.nodePins[n]| ==>
      net.pins[net.nodePins[n][j]].edge != net.pins[net.nodePins[n][k]].edge
  }

  ghost predicate SinglePins(net: Network, nodes: seq<nat>)
    requires net.Valid()
  {
    forall i :: 0 <= i < |nodes| ==> nodes[i] < |net.nodePins| && OnePinPerNet(net, nodes[i])
  }

  /** No net has more than k pins of the node. */
  ghost predicate AtMostPerNet(net: Network, n: nat, k: nat)
    requires net.Valid() && n < |net.nodePins|
  {
    forall e: nat :: |OnNet(net, n, e)| <= k
  }

  ghost function OnNet(net: Network, n: nat, e: nat): set<nat>
    requires net.Valid() && n < |net.nodePins|
  {
    set j: nat | j < |net.nodePins[n]| && net.pins[net.nodePins[n][j]].edge == e
  }

  lemma AtMostOne(net: Network, n: nat, k: nat)
    requires net.Valid() && n < |net.nodePins| && AtMostPerNet(net, n, k) && k <= 1
    ensures OnePinPerNet(net, n)
  {
    forall i, j | 0 <= i < j < |net.nodePins[n]|
      ensures net.pins[net.nodePins[n][i]].edge != net.pins[net.nodePins[n][j]].edge
    {
      var e := net.pins[net.nodePins[n][i]].edge;
      if net.pins[net.nodePins[n][j]].edge == e {
        assert {i, j} <= OnNet(net, n, e);
        SubsetSize({i, j}, OnNet(net, n, e));
      }
    }
  }

  /** No counted net has a pin on both nodes. */
  ghost predicate NoSharedNet(net: Network, m: nat, n: nat)
    requires m < |net.nodePins| && n < |net.nodePins|
  {
    forall e: nat :: e < |net.edgePins| && net.Counted(e, MATCH_LIMIT) ==> !(net.Touches(m, e) && net.Touches(n, e))
  }

  ghost predicate Independent(net: Network, nodes: seq<nat>)
    requires forall i :: 0 <= i < |nodes| ==> nodes[i] < |net.nodePins|
  {
    forall i, j :: 0 <= i < j < |nodes| ==> nodes[i] != nodes[j] && NoSharedNet(net, nodes[i], nodes[j])
  }

  /** The next pin adds its net's length, if the net counts. */
  lemma {:induction false} OneMorePin(net: Network, pos: Placement, n: nat, k: nat)
    requires net.Fits(pos) && n < |pos| && OnePinPerNet(net, n) && k < |net.nodePins[n]|
    ensures var ps, ls := net.nodePins[n], net.Lengths(pos, MATCH_LIMIT);
      Sum(Masked(ls, net.CountedNets(MATCH_LIMIT, ps[..k + 1])))
      == Sum(Masked(ls, net.CountedNets(MATCH_LIMIT, ps[..k]))) + PinLengths(net, pos, n)[k]
  {
    hide Masked, Sum;
    var ps := net.nodePins[n];
    net.CountedNetsSnoc(MATCH_LIMIT, ps, k);
    var e, seen := net.pins[ps[k]].edge, net.CountedNets(MATCH_LIMIT, ps[..k]);
    if net.Counted(e, MATCH_LIMIT) {
      assert e !in seen;
      MaskedAdd(net.Lengths(pos, MATCH_LIMIT), seen, e);
    } else {
      assert seen + {} == seen;
    }
  }

  lemma {:induction false} PinLengthsAreMasked(net: Network, pos: Placement, n: nat, k: nat)
    requires net.Fits(pos) && n < |pos| && OnePinPerNet(net, n) && k <= |net.nodePins[n]|
    ensures Sum(PinLengths(net, pos, n)[..k])
         == Sum(Masked(net.Lengths(pos, MATCH_LIMIT), net.CountedNets(MATCH_LIMIT, net.nodePins[n][..k])))
  {
    hide Masked;
    if k == 0 {
      assert net.CountedNets(MATCH_LIMIT, net.nodePins[n][..0]) == {};
      MaskedNone(net.Lengths(pos, MATCH_LIMIT));
    } else {
      PinLengthsAreMasked(net, pos, n, k - 1);
      SumPrefix(PinLengths(net, pos, n), k - 1);
      OneMorePin(net, pos, n, k - 1);
    }
  }

  /** Moving one node changes the total wirelength by the change of its own cost. */
  lemma {:induction false} OneMove(net: Network, pos: Placement, n: nat, at: Point)
    requires net.Fits(pos) && n < |pos| && OnePinPerNet(net, n)
    ensures net.Hpwl(pos[n := at], MATCH_LIMIT) - net.Hpwl(pos, MATCH_LIMIT)
         == NodeCost(net, pos, n, at) - NodeCost(net, pos, n, pos[n])
  {
    var pos' := pos[n := at];
    var ps := net.nodePins[n];
    PinLengthsAreMasked(net, pos, n, |ps|);
    PinLengthsAreMasked(net, pos', n, |ps|);
    assert ps[..|ps|] == ps && pos[n := pos[n]] == pos;
    assert PinLengths(net, pos, n)[..|ps|] == PinLengths(net, pos, n);
    assert PinLengths(net, pos', n)[..|ps|] == PinLengths(net, pos', n);
    forall m: nat, e: nat | m < |pos| && e < |net.edgePins| && pos'[m] != pos[m] && net.Touches(m, e) && net.Counted(e, MATCH_LIMIT)
      ensures e in net.CountedNets(MATCH_LIMIT, ps)
    {
    }
    net.ChangeIsLocal(pos', pos, MATCH_LIMIT, net.CountedNets(MATCH_LIMIT, ps));
  }

  /** A node's cost does not notice moves of nodes it shares no counted net with. */
  lemma {:induction false} CostIgnoresStrangers(net: Network, p: Placement, q: Placement, n: nat, at: Point)
    requires net.Fits(p) && net.Fits(q) && n < |p|
    requires forall m: nat :: m < |p| && m != n && p[m] != q[m] ==> NoSharedNet(net, m, n)
    ensures NodeCost(net, p, n, at) == NodeCost(net, q, n, at)
  {
    var p', q' := p[n := at], q[n := at];
    forall k | 0 <= k < |net.nodePins[n]|
      ensures PinLengths(net, p', n)[k] == PinLengths(net, q', n)[k]
    {
      var e := net.pins[net.nodePins[n][k]].edge;
      if net.Counted(e, MATCH_LIMIT) {
        assert net.Touches(n, e);
        net.UntouchedKeepsLength(p', q', e);
      }
    }
    assert PinLengths(net, p', n) == PinLengths(net, q', n);
  }

  ghost function Costs(net: Network, pos: Placement, nodes: seq<nat>, to: seq<Point>): (s: seq<real>)
    requires net.Fits(pos) && |nodes| == |to| && forall i :: 0 <= i < |nodes| ==> nodes[i] < |pos|
    ensures |s| == |nodes|
  {
    seq(|nodes|, i requires 0 <= i < |nodes| => NodeCost(net, pos, nodes[i], to[i]))
  }

  ghost function At(pos: Placement, nodes: seq<nat>): (s: seq<Point>)
    requires forall i :: 0 <= i < |nodes| ==> nodes[i] < |pos|
    ensures |s| == |nodes|
  {
    seq(|nodes|, i requires 0 <= i < |nodes| => pos[nodes[i]])
  }

  /** One more cell of an independent list: its own cost change is what the total gains. */
  lemma {:induction false} LastMove(net: Network, pos: Placement, nodes: seq<nat>, to: seq<Point>)
    requires net.Fits(pos) && |nodes| == |to| > 0 && forall i :: 0 <= i < |nodes| ==> nodes[i] < |pos|
    requires Independent(net, nodes)
    requires OnePinPerNet(net, nodes[|nodes| - 1])
    ensures var k := |nodes| - 1;
      && net.Hpwl(PlaceAt(pos, nodes, to), MATCH_LIMIT) - net.Hpwl(PlaceAt(pos, nodes[..k], to[..k]), MATCH_LIMIT)
      == NodeCost(net, pos, nodes[k], to[k]) - NodeCost(net, pos, nodes[k], pos[nodes[k]])
  {
    var k := |nodes| - 1;
    var n := nodes[k];
    var q := PlaceAt(pos, nodes[..k], to[..k]);
    assert n !in nodes[..k];
    OneMove(net, q, n, to[k]);
    forall m: nat | m < |pos| && m != n && q[m] != pos[m]
      ensures NoSharedNet(net, m, n)
    {
      assert m in nodes[..k];
    }
    CostIgnoresStrangers(net, q, pos, n, to[k]);
    CostIgnoresStrangers(net, q, pos, n, pos[n]);
  }

  lemma CostsSnoc(net: Network, pos: Placement, nodes: seq<nat>, to: seq<Point>)
    requires net.Fits(pos) && |nodes| == |to| > 0 && forall i :: 0 <= i < |nodes| ==> nodes[i] < |pos|
    ensures var k := |nodes| - 1;
      Sum(Costs(net, pos, nodes, to)) == Sum(Costs(net, pos, nodes[..k], to[..k])) + NodeCost(net, pos, nodes[k], to[k])
  {
    var k := |nodes| - 1;
    assert Costs(net, pos, nodes, to)[..k] == Costs(net, pos, nodes[..k], to[..k]);
  }

  /** The sum of the changes the moves would make, each alone. */
  ghost function Change(net: Network, pos: Placement, nodes: seq<nat>, to: seq<Point>): real
    requires net.Fits(pos) && |nodes| == |to| && forall i :: 0 <= i < |nodes| ==> nodes[i] < |pos|
  {
    Sum(Costs(net, pos, nodes, to)) - Sum(Costs(net, pos, nodes, At(pos, nodes)))
  }

  lemma NoChange(net: Network, pos: Placement, to: seq<Point>)
    requires net.Fits(pos) && to == []
    ensures Change(net, pos, [], to) == 0.0 && PlaceAt(pos, [], to) == pos
  {
  }

  lemma ChangeSnoc(net: Network, pos: Placement, nodes: seq<nat>, to: seq<Point>)
    requires net.Fits(pos) && |nodes| == |to| > 0 && forall i :: 0 <= i < |nodes| ==> nodes[i] < |pos|
    ensures var k := |nodes| - 1;
      Change(net, pos, nodes, to)
        == Change(net, pos, nodes[..k], to[..k]) + NodeCost(net, pos, nodes[k], to[k]) - NodeCost(net, pos, nodes[k], pos[nodes[k]])
  {
    CostsSnoc(net, pos, nodes, to);
    CostsSnoc(net, pos, nodes, At(pos, nodes));
    assert At(pos, nodes)[..|nodes| - 1] == At(pos, nodes[..|nodes| - 1]);
  }

  /** The central fact: for cells no two of which share a counted net, the wirelength change of
      moving them all is the sum of the changes each would make alone. */
  lemma {:induction false} CostsAddUp(net: Network, pos: Placement, nodes: seq<nat>, to: seq<Point>)
    requires net.Fits(pos) && |nodes| == |to| && forall i :: 0 <= i < |nodes| ==> nodes[i] < |pos|
    requires Independent(net, nodes)
    requires SinglePins(net, nodes)
    ensures net.Hpwl(PlaceAt(pos, nodes, to), MATCH_LIMIT) - net.Hpwl(pos, MATCH_LIMIT) == Change(net, pos, nodes, to)
  {
    hide NodeCost, Network.Hpwl, OnePinPerNet, Change, PlaceAt;
    if nodes == [] {
      NoChange(net, pos, to);
    } else {
      CostsAddUp(net, pos, nodes[..|nodes| - 1], to[..|nodes| - 1]);
      ChangeSnoc(net, pos, nodes, to);
      LastMove(net, pos, nodes, to);
    }
  }
}
