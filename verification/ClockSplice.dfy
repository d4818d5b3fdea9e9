/** Buffer chains: building a segment of the tree, and splicing buffers into long wires
    (HTreeBuilder.cpp, PostCtsOpt.cpp). */
module ClockSplice {
  import opened ClockTree
  import opened ClockNet
  import opened Options
  import opened IntMath

  /** Every sink stays one, and all new sinks are buffers. */
  ghost predicate KeepsSinks(was: Nets, now: Nets) {
    && (forall x :: Hangs(was, x) ==> Hangs(now, x))
    && (forall x :: Hangs(now, x) && !Hangs(was, x) ==> !HasPin(x))
  }

  lemma {:induction false} KeepsSinksTwice(a: Nets, b: Nets, c: Nets)
    requires KeepsSinks(a, b) && KeepsSinks(b, c)
    ensures KeepsSinks(a, c)
  {
  }

  lemma {:induction false} GrowKeepsSinks(nets: Nets, i: nat, b: Inst)
    requires i < |nets| && !HasPin(b)
    ensures KeepsSinks(nets, Grow(nets, i, b))
  {
    var nets' := Grow(nets, i, b);
    forall x | Hangs(nets, x)
      ensures Hangs(nets', x)
    {
      var j :| 0 <= j < |nets| && x in nets[j].sinks;
      assert x in nets'[j].sinks;
    }
  }

  lemma {:induction false} SpliceKeepsSinks(nets: Nets, root: nat, i: nat, k: nat, b: Inst)
    requires Once(nets, root) && i < |nets| && k < |nets[i].sinks| && Unused(nets, b) && !HasPin(b)
    ensures KeepsSinks(nets, Splice(nets, i, k, b))
  {
    var nets', n := Splice(nets, i, k, b), |nets|;
    UpdateMembers(nets[i].sinks, k, b);
    assert nets[i].sinks[k] in nets[i].sinks;
    forall x | Hangs(nets, x)
      ensures Hangs(nets', x)
    {
      var j :| 0 <= j < n && x in nets[j].sinks;
      assert x in nets'[if j == i && x == nets[i].sinks[k] then n else j].sinks;
    }
  }

  /** x drives no net. */
  ghost predicate Idle(nets: Nets, x: Inst) {
    forall j :: 0 <= j < |nets| ==> nets[j].driver != x
  }

  /** When the spliced sink drives nothing, all nets keep their depths. */
  lemma {:induction false} SpliceLeaf(nets: Nets, root: nat, i: nat, k: nat, b: Inst)
    requires Once(nets, root) && i < |nets| && k < |nets[i].sinks| && Unused(nets, b) && Idle(nets, nets[i].sinks[k])
    ensures DepthsKept(nets, Splice(nets, i, k, b), root) && Idle(Splice(nets, i, k, b), nets[i].sinks[k])
  {
    UpdateMembers(nets[i].sinks, k, b);
    EmbeddingKeepsDepths(nets, Splice(nets, i, k, b), root);
    assert nets[i].sinks[k] in nets[i].sinks;
  }

  /** `at` is the position of the sink, if there is one, among the sinks of net i. */
  ghost predicate Marks(nets: Nets, i: nat, at: Option<nat>, sink: Option<Inst>) {
    && i < |nets| && (at.Some? <==> sink.Some?)
    && (at.Some? ==> at.value < |nets[i].sinks| && nets[i].sinks[at.value] == sink.value)
  }

  /** One buffer more: in front of the sink at a position of net i, or else below net i. */
  function OneBuffer(nets: Nets, i: nat, at: Option<nat>, b: Inst): (r: Nets)
    requires i < |nets|
    ensures |r| == |nets| + 1
  {
    if at.Some? && at.value < |nets[i].sinks| then Splice(nets, i, at.value, b) else Grow(nets, i, b)
  }

  /** The net that ends a chain of n buffers started below net i, and where the sink is in it. */
  function ChainEnd(nets: Nets, i: nat, n: nat): nat {
    if n == 0 then i else |nets| + n - 1
  }

  function ChainAt(at: Option<nat>, n: nat): Option<nat> {
    if n == 0 || at.None? then at else Some(0)
  }

  /** n buffers in a row, numbered from id. */
  function Chain(nets: Nets, i: nat, at: Option<nat>, id: nat, n: nat): (r: Nets)
    requires i < |nets|
    ensures |r| == |nets| + n
  {
    if n == 0 then nets
    else OneBuffer(Chain(nets, i, at, id, n - 1), ChainEnd(nets, i, n - 1), ChainAt(at, n - 1), Inst(id + n - 1, NO_PIN))
  }

  /** The sink stays at the end of the chain. */
  lemma {:induction false} ChainMarks(nets: Nets, i: nat, at: Option<nat>, sink: Option<Inst>, id: nat, n: nat)
    requires Marks(nets, i, at, sink)
    ensures Marks(Chain(nets, i, at, id, n), ChainEnd(nets, i, n), ChainAt(at, n), sink)
  {
    if n > 0 {
      ChainMarks(nets, i, at, sink, id, n - 1);
    }
  }

  lemma {:induction false} OneBufferBelow(nets: Nets, i: nat, at: Option<nat>, id: nat)
    requires i < |nets| && Below(nets, id)
    ensures Unused(nets, Inst(id, NO_PIN)) && Below(OneBuffer(nets, i, at, Inst(id, NO_PIN)), id + 1)
  {
    var b := Inst(id, NO_PIN);
    var r := OneBuffer(nets, i, at, b);
    forall j, x: Inst | 0 <= j < |r| && r[j].Has(x)
      ensures x.id < id + 1
    {
      if j < |nets| {
        assert x == b || nets[j].Has(x);
      } else {
        assert x == b || nets[i].Has(x);
      }
    }
  }

  // ----- what one buffer keeps

  lemma {:induction false} OneBufferTree(nets: Nets, root: nat, i: nat, at: Option<nat>, id: nat)
    requires Tree(nets, root) && i < |nets| && Below(nets, id)
    ensures var r := OneBuffer(nets, i, at, Inst(id, NO_PIN));
      && Tree(r, root) && KeepsSinks(nets, r) && Below(r, id + 1)
      && forall d: nat :: Reach(nets, root, i, d) ==> Reach(r, root, |nets|, d + 1)
  {
    var b := Inst(id, NO_PIN);
    OneBufferBelow(nets, i, at, id);
    if at.Some? && at.value < |nets[i].sinks| {
      SpliceTree(nets, root, i, at.value, b);
      SpliceKeepsSinks(nets, root, i, at.value, b);
    } else {
      GrowTree(nets, root, i, b);
      GrowKeepsSinks(nets, i, b);
    }
  }

  lemma {:induction false} OneBufferDepths(nets: Nets, root: nat, i: nat, at: Option<nat>, sink: Option<Inst>, id: nat)
    requires Tree(nets, root) && Marks(nets, i, at, sink) && (sink.Some? ==> Idle(nets, sink.value)) && Below(nets, id)
    ensures var r := OneBuffer(nets, i, at, Inst(id, NO_PIN));
      DepthsKept(nets, r, root) && (sink.Some? ==> Idle(r, sink.value))
  {
    var b := Inst(id, NO_PIN);
    OneBufferBelow(nets, i, at, id);
    if at.Some? {
      SpliceLeaf(nets, root, i, at.value, b);
    } else {
      GrowTree(nets, root, i, b);
    }
  }

  // ----- what a whole chain keeps

  /** The clock is still a tree with all its sinks. */
  lemma {:induction false} ChainTree(nets: Nets, root: nat, i: nat, at: Option<nat>, id: nat, n: nat)
    requires Tree(nets, root) && i < |nets| && Below(nets, id)
    ensures var r := Chain(nets, i, at, id, n); Tree(r, root) && KeepsSinks(nets, r) && Below(r, id + n)
  {
    hide Tree, Below, OneBuffer;
    if n > 0 {
      var mid := Chain(nets, i, at, id, n - 1);
      ChainTree(nets, root, i, at, id, n - 1);
      OneBufferTree(mid, root, ChainEnd(nets, i, n - 1), ChainAt(at, n - 1), id + n - 1);
      KeepsSinksTwice(nets, mid, Chain(nets, i, at, id, n));
    }
  }

  /** Its end is n buffers below where it was built. */
  lemma {:induction false} ChainDepth(nets: Nets, root: nat, i: nat, at: Option<nat>, id: nat, n: nat, d: nat)
    requires Tree(nets, root) && i < |nets| && Below(nets, id) && Reach(nets, root, i, d)
    ensures Reach(Chain(nets, i, at, id, n), root, ChainEnd(nets, i, n), d + n)
  {
    hide Tree, Below, Reach, OneBuffer;
    if n > 0 {
      var m := n - 1;
      ChainDepth(nets, root, i, at, id, m, d);
      ChainTree(nets, root, i, at, id, m);
      OneBufferTree(Chain(nets, i, at, id, m), root, ChainEnd(nets, i, m), ChainAt(at, m), id + m);
    }
  }

  /** In front of a sink that drives nothing, or below a net, it moves no other net. */
  lemma {:induction false} ChainDepths(nets: Nets, root: nat, i: nat, at: Option<nat>, sink: Option<Inst>, id: nat, n: nat)
    requires Tree(nets, root) && Marks(nets, i, at, sink) && (sink.Some? ==> Idle(nets, sink.value)) && Below(nets, id)
    ensures var r := Chain(nets, i, at, id, n);
      DepthsKept(nets, r, root) && (sink.Some? ==> Idle(r, sink.value))
  {
    hide Tree, Below, Reach, OneBuffer;
    if n > 0 {
      var m := n - 1;
      var mid := Chain(nets, i, at, id, m);
      ChainDepths(nets, root, i, at, sink, id, m);
      ChainTree(nets, root, i, at, id, m);
      ChainMarks(nets, i, at, sink, id, m);
      OneBufferDepths(mid, root, ChainEnd(nets, i, m), ChainAt(at, m), sink, id + m);
      DepthsKeptTwice(nets, mid, Chain(nets, i, at, id, n), root);
    }
  }

  /** It changes no other net, and in net i the sink's entry or one more sink. */
  lemma {:induction false} ChainFrame(nets: Nets, i: nat, at: Option<nat>, sink: Option<Inst>, id: nat, n: nat, j: nat)
    requires Marks(nets, i, at, sink) && j < |nets|
    ensures var r := Chain(nets, i, at, id, n);
      && r[j].driver == nets[j].driver
      && r[j].sinks == if j != i || n == 0 then nets[j].sinks
                       else if at.Some? then nets[i].sinks[at.value := Inst(id, NO_PIN)]
                       else nets[i].sinks + [Inst(id, NO_PIN)]
  {
    if n > 0 {
      ChainMarks(nets, i, at, sink, id, n - 1);
      ChainFrame(nets, i, at, sink, id, n - 1, j);
    }
  }

  class SegmentBuilder {
    const clock: Clock
    const wires: seq<nat> // buffers on each wire of the segment
    var drivingSubNet: nat
    var numBufferLevels: nat

    constructor (clock: Clock, drivingSubNet: nat, wires: seq<nat>)
      ensures this.clock == clock && this.wires == wires
      ensures this.drivingSubNet == drivingSubNet && numBufferLevels == 0
    {
      this.clock, this.wires, this.drivingSubNet, numBufferLevels := clock, wires, drivingSubNet, 0;
    }

    /** One more buffer: in front of the sink if there is one, else below the driving net. */
    method AddBuffer(sink: Option<Inst>, ghost at: Option<nat>)
      requires clock.Valid() && Marks(clock.nets, drivingSubNet, at, sink)
      modifies this, clock, clock.subNets`instances, clock.subNets`index
      ensures clock.Valid() && numBufferLevels == old(numBufferLevels) + 1
      ensures old(clock.subNets) <= clock.subNets && forall k :: old(|clock.subNets|) <= k < |clock.subNets| ==> fresh(clock.subNets[k])
      ensures drivingSubNet == |clock.subNets| - 1 && clock.nextId == old(clock.nextId) + 1
      ensures clock.nets == OneBuffer(old(clock.nets), old(drivingSubNet), at, Inst(old(clock.nextId), NO_PIN))
    {
      numBufferLevels := numBufferLevels + 1;
      if sink.Some? {
        var b := clock.SpliceNet(drivingSubNet, sink.value, at.value);
      } else {
        var b := clock.GrowNet(drivingSubNet);
      }
      drivingSubNet := |clock.subNets| - 1;
    }

    /** So far n buffers were added to a chain that began below net i. */
    ghost predicate Under(was: Nets, i: nat, at: Option<nat>, id: nat, n: nat)
      requires clock.Valid() && i < |was|
      reads this, clock, clock.subNets
    {
      && clock.nextId == id + n && drivingSubNet == ChainEnd(was, i, n)
      && clock.nets == Chain(was, i, at, id, n)
    }

    method AddNth(sink: Option<Inst>, ghost was: Nets, ghost i: nat, ghost at: Option<nat>, ghost id: nat, ghost n: nat)
      requires clock.Valid() && Marks(was, i, at, sink) && Under(was, i, at, id, n)
      modifies this, clock, clock.subNets`instances, clock.subNets`index
      ensures clock.Valid() && numBufferLevels == old(numBufferLevels) + 1
      ensures old(clock.subNets) <= clock.subNets && forall k :: old(|clock.subNets|) <= k < |clock.subNets| ==> fresh(clock.subNets[k])
      ensures Under(was, i, at, id, n + 1)
    {
      ChainMarks(was, i, at, sink, id, n);
      AddBuffer(sink, ChainAt(at, n));
    }

    /** The buffers of one wire. */
    method AddWire(sink: Option<Inst>, buffers: nat, ghost was: Nets, ghost i: nat, ghost at: Option<nat>, ghost id: nat, ghost n: nat)
      requires clock.Valid() && Marks(was, i, at, sink) && Under(was, i, at, id, n)
      modifies this, clock, clock.subNets`instances, clock.subNets`index
      ensures clock.Valid() && numBufferLevels == old(numBufferLevels) + buffers
      ensures old(clock.subNets) <= clock.subNets && forall k :: old(|clock.subNets|) <= k < |clock.subNets| ==> fresh(clock.subNets[k])
      ensures Under(was, i, at, id, n + buffers)
    {
      hide Under;
      ghost var m := n;
      for buffer := 0 to buffers
        invariant clock.Valid() && numBufferLevels == old(numBufferLevels) + buffer && m == n + buffer
        invariant old(clock.subNets) <= clock.subNets && forall k :: old(|clock.subNets|) <= k < |clock.subNets| ==> fresh(clock.subNets[k])
        invariant Under(was, i, at, id, m)
      {
        AddNth(sink, was, i, at, id, m);
        m := m + 1;
      }
    }

    /** The whole segment. */
    method Build(sink: Option<Inst>, ghost at: Option<nat>)
      requires clock.Valid() && Marks(clock.nets, drivingSubNet, at, sink)
      modifies this, clock, clock.subNets`instances, clock.subNets`index
      ensures clock.Valid() && numBufferLevels == old(numBufferLevels) + Total(wires)
      ensures old(clock.subNets) <= clock.subNets && forall k :: old(|clock.subNets|) <= k < |clock.subNets| ==> fresh(clock.subNets[k])
      ensures Under(old(clock.nets), old(drivingSubNet), at, old(clock.nextId), Total(wires))
    {
      AddWires(sink, clock.nets, drivingSubNet, at, clock.nextId);
    }

    method AddWires(sink: Option<Inst>, ghost was: Nets, ghost i: nat, ghost at: Option<nat>, ghost id: nat)
      requires clock.Valid() && Marks(was, i, at, sink) && Under(was, i, at, id, 0)
      modifies this, clock, clock.subNets`instances, clock.subNets`index
      ensures clock.Valid() && numBufferLevels == old(numBufferLevels) + Total(wires)
      ensures old(clock.subNets) <= clock.subNets && forall k :: old(|clock.subNets|) <= k < |clock.subNets| ==> fresh(clock.subNets[k])
      ensures Under(was, i, at, id, Total(wires))
    {
      hide Under;
      ghost var n := 0;
      for wire := 0 to |wires|
        invariant clock.Valid() && n == Total(wires[..wire]) && numBufferLevels == old(numBufferLevels) + n
        invariant old(clock.subNets) <= clock.subNets && forall k :: old(|clock.subNets|) <= k < |clock.subNets| ==> fresh(clock.subNets[k])
        invariant Under(was, i, at, id, n)
      {
        AddWire(sink, wires[wire], was, i, at, id, n);
        TotalSnoc(wires, wire);
        n := n + wires[wire];
      }
      assert wires[..|wires|] == wires;
    }

    /** A segment that got no buffer gets one at its end. */
    method ForceBufferInSegment()
      requires clock.Valid() && drivingSubNet < |clock.subNets|
      modifies this, clock, clock.subNets`instances, clock.subNets`index
      ensures clock.Valid() && numBufferLevels >= 1
      ensures old(clock.subNets) <= clock.subNets && forall k :: old(|clock.subNets|) <= k < |clock.subNets| ==> fresh(clock.subNets[k])
      ensures Under(old(clock.nets), old(drivingSubNet), None, old(clock.nextId), if old(numBufferLevels) == 0 then 1 else 0)
    {
      if numBufferLevels != 0 {
        return;
      }
      AddNth(None, clock.nets, drivingSubNet, None, clock.nextId, 0);
    }
  }
}
