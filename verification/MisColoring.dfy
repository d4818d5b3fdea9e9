/** Colouring the cells for the matcher (detailed_mis.cxx): movable cells with pins on a common
    counted net get different colours. */
module MisColoring {
  import opened Netlist
  import opened Coloring
  import opened IndependentSet

  /** Node pairs that the nets before `e` force apart. */
  ghost predicate LinkedUpTo(net: Network, adj: seq<seq<nat>>, movable: seq<bool>, e: nat)
    requires net.Valid() && |adj| == |movable| == |net.nodePins| && e <= |net.edgePins|
  {
    forall m, n, f: nat {:trigger net.Touches(m, f), net.Touches(n, f)} ::
      (0 <= m < |adj| && 0 <= n < |adj| && m != n && movable[m] && movable[n] && f < e && net.Counted(f, MATCH_LIMIT)
       && net.Touches(m, f) && net.Touches(n, f)) ==> n in adj[m]
  }

  /** Only such pairs are linked. */
  ghost predicate OnlyLinked(net: Network, adj: seq<seq<nat>>, movable: seq<bool>)
    requires net.Valid() && |adj| == |movable| == |net.nodePins|
  {
    forall m: nat, n: nat {:trigger n in adj[m]} :: m < |adj| && n in adj[m] ==>
      n < |adj| && movable[m] && movable[n] && !NoSharedNet(net, m, n)
  }

  /** Every movable node has the smallest colour that no movable node before it has that shares a net with it. */
  ghost predicate Smallest(net: Network, movable: seq<bool>, colors: seq<int>)
    requires net.Valid() && |movable| == |colors| == |net.nodePins|
  {
    forall n: nat, c {:trigger RivalHas(net, movable, colors, n, c)} :: n < |colors| && movable[n] && 0 <= c < colors[n] ==>
      RivalHas(net, movable, colors, n, c)
  }

  ghost predicate RivalHas(net: Network, movable: seq<bool>, colors: seq<int>, n: nat, c: int)
    requires net.Valid() && n < |movable| == |colors| == |net.nodePins|
  {
    exists m: nat :: m < n && movable[m] && colors[m] == c && !NoSharedNet(net, m, n)
  }

  /** Two different movable nodes of one colour share no counted net. */
  ghost predicate Separates(net: Network, movable: seq<bool>, colors: seq<int>)
    requires net.Valid() && |movable| == |colors| == |net.nodePins|
  {
    forall m: nat, n: nat {:trigger colors[m], colors[n]} ::
      (m < |colors| && n < |colors| && movable[m] && movable[n] && m != n && colors[m] == colors[n])
      ==> NoSharedNet(net, m, n)
  }

  /** Colours for the movable nodes, -1 for the others. */
  method ColorCells(net: Network, movable: seq<bool>) returns (colors: seq<int>)
    requires net.Valid() && |movable| == |net.nodePins| > 0
    ensures |colors| == |movable| && Separates(net, movable, colors) && Smallest(net, movable, colors)
    ensures forall n :: 0 <= n < |colors| ==> (colors[n] >= 0 <==> movable[n]) && colors[n] >= -1
  {
    var gr := new Graph(|movable|);
    for e := 0 to |net.edgePins|
      invariant fresh(gr) && gr.Valid() && NoLoops(gr.adj) && |gr.adj| == |movable|
      invariant LinkedUpTo(net, gr.adj, movable, e) && OnlyLinked(net, gr.adj, movable)
    {
      var numPins := |net.edgePins[e]|;
      if numPins <= 1 || numPins > MATCH_LIMIT {
        continue;
      }
      LinkPins(net, gr, movable, e);
    }
    gr.RemoveDuplicates();
    gr.GreedyColoring();
    colors := CopyColors(gr, movable);
    ProperSeparates(net, gr.adj, movable, gr.color, colors);
    FirstFitIsSmallest(net, gr.adj, movable, gr.color, colors);
  }

  lemma {:induction false} FirstFitIsSmallest(net: Network, adj: seq<seq<nat>>, movable: seq<bool>, fit: seq<int>, colors: seq<int>)
    requires net.Valid() && |adj| == |movable| == |fit| == |colors| == |net.nodePins|
    requires OnlyLinked(net, adj, movable) && FirstFit(adj, fit, |adj|)
    requires forall n :: 0 <= n < |colors| ==> colors[n] == if movable[n] then fit[n] else -1
    ensures Smallest(net, movable, colors)
  {
    hide NoSharedNet, Network.Valid;
    forall n: nat, c | n < |colors| && movable[n] && 0 <= c < colors[n]
      ensures RivalHas(net, movable, colors, n, c)
    {
      assert EarlierHas(adj, fit, n, c);
      var m :| m in adj[n] && m < n && fit[m] == c;
      SharedBoth(net, m, n);
    }
  }

  lemma SharedBoth(net: Network, m: nat, n: nat)
    requires m < |net.nodePins| && n < |net.nodePins|
    ensures NoSharedNet(net, m, n) == NoSharedNet(net, n, m)
  {
  }

  method CopyColors(gr: Graph, movable: seq<bool>) returns (colors: seq<int>)
    requires |gr.color| == |movable| && forall n :: 0 <= n < |movable| ==> 0 <= gr.color[n] < gr.ncolors
    ensures |colors| == |movable| && forall n :: 0 <= n < |colors| ==> colors[n] == if movable[n] then gr.color[n] else -1
  {
    colors := seq(|movable|, _ => -1);
    for i := 0 to |movable|
      invariant |colors| == |movable|
      invariant forall n :: 0 <= n < i ==> colors[n] == if movable[n] then gr.color[n] else -1
      invariant forall n :: i <= n < |colors| ==> colors[n] == -1
    {
      var color := gr.color[i];
      if color < 0 || color >= gr.ncolors {
        assert false;
      }
      if movable[i] {
        colors := colors[i := color];
      }
    }
  }

  lemma {:induction false} ProperSeparates(net: Network, adj: seq<seq<nat>>, movable: seq<bool>, proper: seq<int>, colors: seq<int>)
    requires net.Valid() && |adj| == |movable| == |proper| == |colors| == |net.nodePins|
    requires LinkedUpTo(net, adj, movable, |net.edgePins|) && Proper(adj, proper)
    requires forall n :: 0 <= n < |colors| ==> colors[n] == if movable[n] then proper[n] else -1
    ensures Separates(net, movable, colors)
  {
    forall m: nat, n: nat | m < |colors| && n < |colors| && movable[m] && movable[n] && m != n && colors[m] == colors[n]
      ensures NoSharedNet(net, m, n)
    {
      assert n !in adj[m];
    }
  }

  /** Links every pair of movable cells with a pin on net `e`. */
  method LinkPins(net: Network, gr: Graph, movable: seq<bool>, e: nat)
    requires net.Valid() && e < |net.edgePins| && net.Counted(e, MATCH_LIMIT)
    requires gr.Valid() && NoLoops(gr.adj) && |gr.adj| == |movable| == |net.nodePins|
    requires LinkedUpTo(net, gr.adj, movable, e) && OnlyLinked(net, gr.adj, movable)
    modifies gr`adj
    ensures gr.Valid() && NoLoops(gr.adj) && |gr.adj| == |movable|
    ensures LinkedUpTo(net, gr.adj, movable, e + 1) && OnlyLinked(net, gr.adj, movable)
  {
    var ps := net.edgePins[e];
    for pi := 0 to |ps|
      invariant gr.Valid() && NoLoops(gr.adj) && |gr.adj| == |movable|
      invariant LinkedUpTo(net, gr.adj, movable, e) && OnlyLinked(net, gr.adj, movable)
      invariant forall a, b :: 0 <= a < pi && a < b < |ps| ==> PairLinked(net, gr.adj, movable, ps[a], ps[b])
    {
      ghost var was := gr.adj;
      LinkPin(net, gr, movable, e, pi);
      forall a, b | 0 <= a <= pi && a < b < |ps|
        ensures PairLinked(net, gr.adj, movable, ps[a], ps[b])
      {
        if a < pi {
          assert PairLinked(net, was, movable, ps[a], ps[b]);
        }
      }
    }
    AllPairsLinked(net, gr.adj, movable, e);
  }

  /** Links pin `pi`'s cell with the cells of the later pins of the net. */
  method LinkPin(net: Network, gr: Graph, movable: seq<bool>, e: nat, pi: nat)
    requires net.Valid() && e < |net.edgePins| && pi < |net.edgePins[e]|
    requires gr.Valid() && NoLoops(gr.adj) && |gr.adj| == |movable| == |net.nodePins|
    requires net.Counted(e, MATCH_LIMIT) && OnlyLinked(net, gr.adj, movable)
    modifies gr`adj
    ensures gr.Valid() && NoLoops(gr.adj) && |gr.adj| == |movable| && OnlyLinked(net, gr.adj, movable)
    ensures Grew(old(gr.adj), gr.adj)
    ensures forall b :: pi < b < |net.edgePins[e]| ==> PairLinked(net, gr.adj, movable, net.edgePins[e][pi], net.edgePins[e][b])
  {
    var ps := net.edgePins[e];
    var ndi := net.pins[ps[pi]].node;
    if !movable[ndi] {
      return;
    }
    for pj := pi + 1 to |ps|
      invariant gr.Valid() && NoLoops(gr.adj) && |gr.adj| == |movable|
      invariant Grew(old(gr.adj), gr.adj) && OnlyLinked(net, gr.adj, movable)
      invariant forall b :: pi < b < pj ==> PairLinked(net, gr.adj, movable, ps[pi], ps[b])
    {
      var ndj := net.pins[ps[pj]].node;
      if !movable[ndj] {
        continue;
      }
      if ndj == ndi {
        continue;
      }
      PinsShare(net, e, pi, pj);
      gr.AddEdge(ndi, ndj);
    }
  }

  /** Two pins of a counted net. */
  lemma PinsShare(net: Network, e: nat, a: nat, b: nat)
    requires net.Valid() && e < |net.edgePins| && a < |net.edgePins[e]| && b < |net.edgePins[e]| && net.Counted(e, MATCH_LIMIT)
    ensures !NoSharedNet(net, net.pins[net.edgePins[e][a]].node, net.pins[net.edgePins[e][b]].node)
    ensures !NoSharedNet(net, net.pins[net.edgePins[e][b]].node, net.pins[net.edgePins[e][a]].node)
  {
    PinTouches(net, e, a);
    PinTouches(net, e, b);
  }

  lemma PinTouches(net: Network, e: nat, a: nat)
    requires net.Valid() && e < |net.edgePins| && a < |net.edgePins[e]|
    ensures net.Touches(net.pins[net.edgePins[e][a]].node, e)
  {
    var p := net.edgePins[e][a];
    assert p in net.nodePins[net.pins[p].node];
    var k :| 0 <= k < |net.nodePins[net.pins[p].node]| && net.nodePins[net.pins[p].node][k] == p;
  }

  lemma {:induction false} AllPairsLinked(net: Network, adj: seq<seq<nat>>, movable: seq<bool>, e: nat)
    requires net.Valid() && e < |net.edgePins| && |adj| == |movable| == |net.nodePins|
    requires LinkedUpTo(net, adj, movable, e)
    requires var ps := net.edgePins[e];
      forall a, b :: 0 <= a < b < |ps| ==> PairLinked(net, adj, movable, ps[a], ps[b])
    ensures LinkedUpTo(net, adj, movable, e + 1)
  {
    var ps := net.edgePins[e];
    forall m, n | 0 <= m < |adj| && 0 <= n < |adj| && m != n && movable[m] && movable[n]
        && net.Touches(m, e) && net.Touches(n, e)
      ensures n in adj[m]
    {
      var a := PinOnNet(net, m, e);
      var b := PinOnNet(net, n, e);
      if a < b {
        assert PairLinked(net, adj, movable, ps[a], ps[b]);
      } else {
        assert PairLinked(net, adj, movable, ps[b], ps[a]);
      }
    }
  }

  ghost predicate PairLinked(net: Network, adj: seq<seq<nat>>, movable: seq<bool>, p: nat, q: nat)
    requires net.Valid() && |adj| == |movable| == |net.nodePins| && p < |net.pins| && q < |net.pins|
  {
    var m, n := net.pins[p].node, net.pins[q].node;
    m != n && movable[m] && movable[n] ==> n in adj[m] && m in adj[n]
  }

  ghost predicate Grew(was: seq<seq<nat>>, adj: seq<seq<nat>>) {
    |was| == |adj| && forall u: nat, v: nat :: u < |was| && v in was[u] ==> v in adj[u]
  }

  lemma {:induction false} PinOnNet(net: Network, n: nat, e: nat) returns (k: nat)
    requires net.Valid() && n < |net.nodePins| && e < |net.edgePins| && net.Touches(n, e)
    ensures k < |net.edgePins[e]| && net.pins[net.edgePins[e][k]].node == n
  {
    var j :| 0 <= j < |net.nodePins[n]| && net.nodePins[n][j] < |net.pins| && net.pins[net.nodePins[n][j]].edge == e;
    assert net.nodePins[n][j] in net.edgePins[e];
    k :| 0 <= k < |net.edgePins[e]| && net.edgePins[e][k] == net.nodePins[n][j];
  }
}
