/** The incremental wirelength objective (detailed_hpwl.cxx). */
module HpwlObjective {
  import opened RealMath
  import opened Intervals
  import opened Netlist

  /** The cells' current positions; everything else about the netlist is fixed. */
  class Design {
    const net: Network
    var pos: Placement

    ghost predicate Valid()
      reads this
    {
      net.Fits(pos)
    }

    constructor (net: Network, pos: Placement)
      requires net.Fits(pos)
      ensures Valid() && this.net == net && this.pos == pos
    {
      this.net := net;
      this.pos := pos;
    }
  }

  /** Moving the same nodes twice: only the second targets matter. */
  lemma {:induction false} MovedTwice(pos: Placement, nodes: seq<nat>, first: seq<Point>, second: seq<Point>)
    requires |nodes| == |first| == |second| && forall i :: 0 <= i < |nodes| ==> nodes[i] < |pos|
    ensures PlaceAt(PlaceAt(pos, nodes, first), nodes, second) == PlaceAt(pos, nodes, second)
  {
    var a, b := PlaceAt(PlaceAt(pos, nodes, first), nodes, second), PlaceAt(pos, nodes, second);
    forall n: nat | n < |pos|
      ensures a[n] == b[n]
    {
      if n in nodes {
        MovedNode(PlaceAt(pos, nodes, first), pos, nodes, second, n);
      }
    }
  }

  /** A moved node's position does not depend on the placement it was moved in. */
  lemma {:induction false} MovedNode(p: Placement, q: Placement, nodes: seq<nat>, to: seq<Point>, n: nat)
    requires |p| == |q| && |nodes| == |to| && forall i :: 0 <= i < |nodes| ==> nodes[i] < |p|
    requires n in nodes
    ensures PlaceAt(p, nodes, to)[n] == PlaceAt(q, nodes, to)[n]
  {
    var k := |nodes| - 1;
    if nodes[k] != n {
      MovedNode(p, q, nodes[..k], to[..k], n);
    }
  }

  /** The counted nets on which some node of the list has a pin. */
  ghost function TouchedNets(net: Network, nodes: seq<nat>): set<nat>
    requires forall i :: 0 <= i < |nodes| ==> nodes[i] < |net.nodePins|
  {
    set e: nat | e < |net.edgePins| && net.Counted(e, LIMIT) && (exists i :: 0 <= i < |nodes| && net.Touches(nodes[i], e))
  }

  lemma {:induction false} TouchedNetsSnoc(net: Network, nodes: seq<nat>, i: nat)
    requires net.Valid() && i < |nodes|
    requires forall i :: 0 <= i < |nodes| ==> nodes[i] < |net.nodePins|
    ensures TouchedNets(net, nodes[..i + 1]) == TouchedNets(net, nodes[..i]) + net.CountedNets(LIMIT, net.nodePins[nodes[i]])
  {
    assert nodes[..i + 1] == nodes[..i] + [nodes[i]];
    forall e: nat
      ensures e in TouchedNets(net, nodes[..i + 1]) <==>
              e in TouchedNets(net, nodes[..i]) + net.CountedNets(LIMIT, net.nodePins[nodes[i]])
    {
      assert e in net.CountedNets(LIMIT, net.nodePins[nodes[i]])
        <==> e < |net.edgePins| && net.Counted(e, LIMIT) && net.Touches(nodes[i], e);
    }
  }

  /** If only the listed nodes move, the total changes by exactly the change over the counted
      nets they touch. */
  lemma {:induction false} DeltaIsLocal(net: Network, p: Placement, q: Placement, nodes: seq<nat>)
    requires net.Fits(p) && net.Fits(q)
    requires forall i :: 0 <= i < |nodes| ==> nodes[i] < |p|
    requires forall n: nat :: n < |p| && n !in nodes ==> p[n] == q[n]
    ensures Sum(Masked(net.Lengths(p, LIMIT), TouchedNets(net, nodes)))
          - Sum(Masked(net.Lengths(q, LIMIT), TouchedNets(net, nodes)))
         == net.Hpwl(p, LIMIT) - net.Hpwl(q, LIMIT)
  {
    net.ChangeIsLocal(p, q, LIMIT, TouchedNets(net, nodes));
  }

  lemma {:induction false} MovesAgreeElsewhere(pos: Placement, nodes: seq<nat>, cur: seq<Point>, next: seq<Point>)
    requires |nodes| == |cur| == |next| && forall i :: 0 <= i < |nodes| ==> nodes[i] < |pos|
    ensures forall n: nat :: n < |pos| && n !in nodes ==> PlaceAt(pos, nodes, cur)[n] == PlaceAt(pos, nodes, next)[n]
  {
    forall n: nat | n < |pos| && n !in nodes
      ensures PlaceAt(pos, nodes, cur)[n] == PlaceAt(pos, nodes, next)[n]
    {
    }
  }

  /** Moving nodes to where they already are changes nothing. */
  lemma {:induction false} MovedToSelf(pos: Placement, nodes: seq<nat>, to: seq<Point>)
    requires |nodes| == |to| && forall i :: 0 <= i < |nodes| ==> nodes[i] < |pos| && to[i] == pos[nodes[i]]
    ensures PlaceAt(pos, nodes, to) == pos
  {
    if nodes != [] {
      MovedToSelf(pos, nodes[..|nodes| - 1], to[..|nodes| - 1]);
    }
  }

  /** A generated move: the nodes involved and where they would go. */
  datatype Move = Move(nodes: seq<nat>, to: seq<Point>)

  /** The moves concern nodes of a placement of n. */
  ghost predicate Moves(moves: seq<Move>, n: nat) {
    forall k :: 0 <= k < |moves| ==> |moves[k].nodes| == |moves[k].to| && forall i :: 0 <= i < |moves[k].nodes| ==> moves[k].nodes[i] < n
  }

  /** Where the nodes are after the first m moves, each kept exactly when the total wirelength does not rise. */
  ghost function KeptMoves(net: Network, p: Placement, moves: seq<Move>, m: nat): (r: Placement)
    requires net.Fits(p) && Moves(moves, |p|) && m <= |moves|
    ensures |r| == |p|
  {
    if m == 0 then p
    else
      var before := KeptMoves(net, p, moves, m - 1);
      var after := PlaceAt(before, moves[m - 1].nodes, moves[m - 1].to);
      if net.Hpwl(after, LIMIT) <= net.Hpwl(before, LIMIT) then after else before
  }

  lemma KeptNone(net: Network, p: Placement, moves: seq<Move>)
    requires net.Fits(p) && Moves(moves, |p|)
    ensures KeptMoves(net, p, moves, 0) == p
  {
  }

  lemma KeptNext(net: Network, p: Placement, moves: seq<Move>, m: nat)
    requires net.Fits(p) && Moves(moves, |p|) && m < |moves|
    ensures var before := KeptMoves(net, p, moves, m);
      var after := PlaceAt(before, moves[m].nodes, moves[m].to);
      && net.Fits(before) && net.Fits(after)
      && KeptMoves(net, p, moves, m + 1) == if net.Hpwl(after, LIMIT) <= net.Hpwl(before, LIMIT) then after else before
  {
  }

  class DetailedHpwl {
    const design: Design
    var traversal: nat
    var edgeMask: seq<nat>

    /** A mask entry equal to `traversal` means "this net was already counted in this call". */
    ghost predicate Valid()
      reads this, design
    {
      && design.Valid()
      && |edgeMask| == |design.net.edgePins|
      && forall e :: 0 <= e < |edgeMask| ==> edgeMask[e] <= traversal
    }

    constructor (design: Design)
      requires design.Valid()
      ensures Valid() && this.design == design
    {
      this.design := design;
      traversal := 0;
      edgeMask := seq(|design.net.edgePins|, _ => 0);
    }

    /** The bounding box of net `e`, accumulated pin by pin. */
    method EdgeBox(e: nat, pos: Placement) returns (boxX: Interval, boxY: Interval)
      requires e < |design.net.edgePins| && design.net.Fits(pos)
      ensures boxX == Hull(design.net.Xs(pos, e)) && boxY == Hull(design.net.Ys(pos, e))
    {
      boxX, boxY := Empty, Empty;
      ghost var xs, ys := design.net.Xs(pos, e), design.net.Ys(pos, e);
      var pins := design.net.edgePins[e];
      for k := 0 to |pins|
        invariant boxX == Hull(xs[..k]) && boxY == Hull(ys[..k])
      {
        ExtendPrefix(Empty, xs, k);
        ExtendPrefix(Empty, ys, k);
        boxX := boxX.Add(design.net.XOf(pos, pins[k]));
        boxY := boxY.Add(design.net.YOf(pos, pins[k]));
      }
      assert xs[..|pins|] == xs && ys[..|pins|] == ys;
    }

    /** Full recount. */
    method Curr() returns (hpwl: real)
      requires Valid()
      ensures hpwl == design.net.Hpwl(design.pos, LIMIT)
    {
      hpwl := 0.0;
      ghost var ls := design.net.Lengths(design.pos, LIMIT);
      for e := 0 to |design.net.edgePins|
        invariant hpwl == Sum(ls[..e])
      {
        SumPrefix(ls, e);
        var npins := |design.net.edgePins[e]|;
        if npins <= 1 || npins >= SKIP_NETS_LARGER_THAN_THIS {
          continue;
        }
        var boxX, boxY := EdgeBox(e, design.pos);
        hpwl := hpwl + (boxX.Width() + boxY.Width());
      }
      assert ls[..|ls|] == ls;
    }

    /** Adds one more net's lengths. */
    method AddNet(e: nat, a: Placement, b: Placement, wlA0: real, wlB0: real, ghost seen: set<nat>) returns (wlA: real, wlB: real)
      requires design.net.Fits(a) && design.net.Fits(b) && e < |design.net.edgePins| && design.net.Counted(e, LIMIT) && e !in seen
      requires wlA0 == Sum(Masked(design.net.Lengths(a, LIMIT), seen))
      requires wlB0 == Sum(Masked(design.net.Lengths(b, LIMIT), seen))
      ensures wlA == Sum(Masked(design.net.Lengths(a, LIMIT), seen + {e}))
      ensures wlB == Sum(Masked(design.net.Lengths(b, LIMIT), seen + {e}))
    {
      hide Masked, Sum;
      var ax, ay := EdgeBox(e, a);
      var bx, dy := EdgeBox(e, b);
      MaskedAdd(design.net.Lengths(a, LIMIT), seen, e);
      MaskedAdd(design.net.Lengths(b, LIMIT), seen, e);
      wlA := wlA0 + (ax.Width() + ay.Width());
      wlB := wlB0 + (bx.Width() + dy.Width());
    }

    /** The pins of one node: each counted net not yet marked is marked and its lengths under
        the two placements `a` and `b` are added to the running totals. */
    method TraversePins(pins: seq<nat>, a: Placement, b: Placement, wlA0: real, wlB0: real, ghost seen0: set<nat>)
        returns (wlA: real, wlB: real)
      requires design.net.Fits(a) && design.net.Fits(b) && |edgeMask| == |design.net.edgePins|
      requires forall k :: 0 <= k < |pins| ==> pins[k] < |design.net.pins|
      requires Marks(seen0)
      requires wlA0 == Sum(Masked(design.net.Lengths(a, LIMIT), seen0))
      requires wlB0 == Sum(Masked(design.net.Lengths(b, LIMIT), seen0))
      modifies this`edgeMask
      ensures |edgeMask| == |design.net.edgePins|
      ensures Marks(seen0 + design.net.CountedNets(LIMIT, pins))
      ensures wlA == Sum(Masked(design.net.Lengths(a, LIMIT), seen0 + design.net.CountedNets(LIMIT, pins)))
      ensures wlB == Sum(Masked(design.net.Lengths(b, LIMIT), seen0 + design.net.CountedNets(LIMIT, pins)))
    {
      hide Masked, Sum;
      wlA, wlB := wlA0, wlB0;
      var net := design.net;
      ghost var la, lb := net.Lengths(a, LIMIT), net.Lengths(b, LIMIT);
      ghost var seen := seen0;
      for k := 0 to |pins|
        invariant |edgeMask| == |net.edgePins|
        invariant Marks(seen) && seen == seen0 + net.CountedNets(LIMIT, pins[..k])
        invariant wlA == Sum(Masked(la, seen)) && wlB == Sum(Masked(lb, seen))
      {
        var e := net.pins[pins[k]].edge;
        net.CountedNetsSnoc(LIMIT, pins, k);
        var npins := |net.edgePins[e]|;
        if npins <= 1 || npins >= SKIP_NETS_LARGER_THAN_THIS {
          continue;
        }
        if edgeMask[e] == traversal {
          continue;
        }
        edgeMask := edgeMask[e := traversal];
        wlA, wlB := AddNet(e, a, b, wlA, wlB, seen);
        seen := seen + {e};
      }
      assert pins[..|pins|] == pins;
    }

    /** One traversal over the counted nets of `nodes`, each net once however many pins lead to
        it, summing their lengths under the two placements `a` and `b`. */
    method Traverse(nodes: seq<nat>, a: Placement, b: Placement) returns (wlA: real, wlB: real)
      requires Valid() && design.net.Fits(a) && design.net.Fits(b)
      requires forall i :: 0 <= i < |nodes| ==> nodes[i] < |a|
      modifies this`traversal, this`edgeMask
      ensures Valid()
      ensures wlA == Sum(Masked(design.net.Lengths(a, LIMIT), TouchedNets(design.net, nodes)))
      ensures wlB == Sum(Masked(design.net.Lengths(b, LIMIT), TouchedNets(design.net, nodes)))
    {
      hide Masked, Sum;
      wlA, wlB := 0.0, 0.0;
      MaskedNone(design.net.Lengths(a, LIMIT));
      MaskedNone(design.net.Lengths(b, LIMIT));
      assert TouchedNets(design.net, nodes[..0]) == {};
      traversal := traversal + 1;
      for i := 0 to |nodes|
        invariant |edgeMask| == |design.net.edgePins|
        invariant Marks(TouchedNets(design.net, nodes[..i]))
        invariant wlA == Sum(Masked(design.net.Lengths(a, LIMIT), TouchedNets(design.net, nodes[..i])))
        invariant wlB == Sum(Masked(design.net.Lengths(b, LIMIT), TouchedNets(design.net, nodes[..i])))
      {
        wlA, wlB := TraversePins(design.net.nodePins[nodes[i]], a, b, wlA, wlB, TouchedNets(design.net, nodes[..i]));
        TouchedNetsSnoc(design.net, nodes, i);
      }
      assert nodes[..|nodes|] == nodes;
    }

    /** Change in wirelength for moving one node. */
    method DeltaOne(ndi: nat, to: Point) returns (delta: real)
      requires Valid() && ndi < |design.pos|
      modifies this`traversal, this`edgeMask
      ensures Valid()
      ensures delta == design.net.Hpwl(design.pos, LIMIT) - design.net.Hpwl(design.pos[ndi := to], LIMIT)
    {
      var next := seq(|design.pos|, n requires 0 <= n < |design.pos| reads design => if n == ndi then to else design.pos[n]);
      var oldWl, newWl := Traverse([ndi], design.pos, next);
      DeltaIsLocal(design.net, design.pos, next, [ndi]);
      assert next == design.pos[ndi := to];
      delta := oldWl - newWl;
    }

    /** Change in wirelength for exchanging the positions of two nodes. */
    method DeltaSwap(ndi: nat, ndj: nat) returns (delta: real)
      requires Valid() && ndi < |design.pos| && ndj < |design.pos|
      modifies this`traversal, this`edgeMask
      ensures Valid()
      ensures delta == design.net.Hpwl(design.pos, LIMIT)
                     - design.net.Hpwl(design.pos[ndi := design.pos[ndj]][ndj := design.pos[ndi]], LIMIT)
    {
      var next := seq(|design.pos|, n requires 0 <= n < |design.pos| && ndi < |design.pos| && ndj < |design.pos| reads design =>
        if n == ndi then design.pos[ndj] else if n == ndj then design.pos[ndi] else design.pos[n]);
      var oldWl, newWl := Traverse([ndi, ndj], design.pos, next);
      DeltaIsLocal(design.net, design.pos, next, [ndi, ndj]);
      assert next == design.pos[ndi := design.pos[ndj]][ndj := design.pos[ndi]];
      delta := oldWl - newWl;
    }

    /** Change in wirelength for moving two nodes to given targets; when both are the same node,
        its first target counts. */
    method DeltaTwo(ndi: nat, ti: Point, ndj: nat, tj: Point) returns (delta: real)
      requires Valid() && ndi < |design.pos| && ndj < |design.pos|
      modifies this`traversal, this`edgeMask
      ensures Valid()
      ensures delta == design.net.Hpwl(design.pos, LIMIT) - design.net.Hpwl(design.pos[ndj := tj][ndi := ti], LIMIT)
    {
      var next := seq(|design.pos|, n requires 0 <= n < |design.pos| reads design =>
        if n == ndi then ti else if n == ndj then tj else design.pos[n]);
      var oldWl, newWl := Traverse([ndi, ndj], design.pos, next);
      DeltaIsLocal(design.net, design.pos, next, [ndi, ndj]);
      assert next == design.pos[ndj := tj][ndi := ti];
      delta := oldWl - newWl;
    }

    /** The mask marks exactly the nets in `seen`. */
    ghost predicate Marks(seen: set<nat>)
      reads this
    {
      && (forall e :: e in seen ==> e < |edgeMask|)
      && (forall e: nat :: e < |edgeMask| ==> edgeMask[e] <= traversal && (edgeMask[e] == traversal <==> e in seen))
    }

    /** Puts `nodes[i]` at `to[i]`, in order. */
    method SetPositions(nodes: seq<nat>, to: seq<Point>)
      requires design.Valid() && |nodes| == |to|
      requires forall i :: 0 <= i < |nodes| ==> nodes[i] < |design.pos|
      modifies design`pos
      ensures design.pos == PlaceAt(old(design.pos), nodes, to)
    {
      for i := 0 to |nodes|
        invariant design.pos == PlaceAt(old(design.pos), nodes[..i], to[..i])
      {
        design.pos := design.pos[nodes[i] := to[i]];
        assert nodes[..i + 1][..i] == nodes[..i] && to[..i + 1][..i] == to[..i];
      }
      assert nodes[..|nodes|] == nodes && to[..|nodes|] == to;
    }

    /** Change in wirelength for moving a list of nodes from `cur` to `new`. Positive means
        improvement. Leaves the nodes at `cur`. */
    method DeltaMany(nodes: seq<nat>, cur: seq<Point>, next: seq<Point>) returns (delta: real)
      requires Valid() && |nodes| == |cur| == |next|
      requires forall i :: 0 <= i < |nodes| ==> nodes[i] < |design.pos|
      modifies this`traversal, this`edgeMask, design`pos
      ensures Valid()
      ensures design.pos == PlaceAt(old(design.pos), nodes, cur)
      ensures delta == design.net.Hpwl(PlaceAt(old(design.pos), nodes, cur), LIMIT)
                     - design.net.Hpwl(PlaceAt(old(design.pos), nodes, next), LIMIT)
    {
      ghost var p0 := design.pos;
      SetPositions(nodes, cur);
      ghost var p := design.pos;
      var oldWl, _ := Traverse(nodes, design.pos, design.pos);
      SetPositions(nodes, next);
      ghost var q := design.pos;
      var newWl, _ := Traverse(nodes, design.pos, design.pos);
      SetPositions(nodes, cur);
      MovedTwice(p0, nodes, cur, next);
      MovedTwice(p0, nodes, next, cur);
      MovesAgreeElsewhere(p0, nodes, cur, next);
      DeltaIsLocal(design.net, p, q, nodes);
      delta := oldWl - newWl;
    }

    /** One move, kept unless it makes the nets longer. */
    method TryMove(move: Move, currHpwl: real) returns (nextHpwl: real)
      requires Valid() && currHpwl == design.net.Hpwl(design.pos, LIMIT)
      requires |move.nodes| == |move.to| && forall i :: 0 <= i < |move.nodes| ==> move.nodes[i] < |design.pos|
      modifies this`traversal, this`edgeMask, design`pos
      ensures Valid() && nextHpwl == design.net.Hpwl(design.pos, LIMIT) <= currHpwl
      ensures var after := PlaceAt(old(design.pos), move.nodes, move.to);
        design.pos == if design.net.Hpwl(after, LIMIT) <= currHpwl then after else old(design.pos)
    {
      var nodes := move.nodes;
      var cur := seq(|nodes|, i requires 0 <= i < |nodes| && nodes[i] < |design.pos| reads design => design.pos[nodes[i]]);
      MovedToSelf(design.pos, nodes, cur);
      var delta := DeltaMany(nodes, cur, move.to);
      nextHpwl := currHpwl - delta;
      if nextHpwl <= currHpwl {
        SetPositions(nodes, move.to);
      } else {
        nextHpwl := currHpwl;
      }
    }

    /** The improvement loop of the global swapper: moves are priced by `DeltaMany` alone and kept
        when the running total does not rise. The running total is at every step the recount. */
    method Improve(moves: seq<Move>) returns (currHpwl: real)
      requires Valid()
      requires Moves(moves, |design.pos|)
      modifies this`traversal, this`edgeMask, design`pos
      ensures Valid()
      ensures currHpwl == design.net.Hpwl(design.pos, LIMIT)
      ensures currHpwl <= old(design.net.Hpwl(design.pos, LIMIT))
      ensures design.pos == KeptMoves(design.net, old(design.pos), moves, |moves|)
    {
      hide Network.Hpwl, Network.Fits, PlaceAt, KeptMoves;
      currHpwl := Curr();
      KeptNone(design.net, design.pos, moves);
      for a := 0 to |moves|
        invariant Valid() && |design.pos| == |old(design.pos)|
        invariant currHpwl == design.net.Hpwl(design.pos, LIMIT)
        invariant currHpwl <= old(design.net.Hpwl(design.pos, LIMIT))
        invariant design.pos == KeptMoves(design.net, old(design.pos), moves, a)
      {
        KeptNext(design.net, old(design.pos), moves, a);
        currHpwl := TryMove(moves[a], currHpwl);
      }
    }
  }
}
