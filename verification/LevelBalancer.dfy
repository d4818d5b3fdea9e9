/** The level balancer (LevelBalancer.cpp): measures the nested builders, then delays every sink and every
    clock gate by buffers until all sinks of all builders are equally deep. */
module LevelBalancing {
  import opened Permutations
  import opened ClockTree
  import opened ClockNet
  import opened ClockSplice
  import opened LevelSteps
  import opened LevelSpec
  import opened LevelProgress
  import opened LevelLeaves
  import opened Options

  /** Chains add buffers only, so what has a pin occurs in them only if it did before. */
  lemma {:induction false} ChainUnused(nets: Nets, i: nat, id: nat, n: nat, x: Inst)
    requires i < |nets| && Unused(nets, x) && HasPin(x)
    ensures Unused(Chain(nets, i, None, id, n), x)
  {
    if n > 0 {
      ChainUnused(nets, i, id, n - 1, x);
    }
  }

  lemma AddOneMore(nets: Nets, i: nat, xs: seq<Inst>, k: nat)
    requires i < |nets| && k < |xs|
    ensures AddSinks(AddSinks(nets, i, xs[..k]), i, [xs[k]]) == AddSinks(nets, i, xs[..k + 1])
  {
    assert xs[..k + 1] == xs[..k] + [xs[k]];
    assert nets[i].sinks + xs[..k] + [xs[k]] == nets[i].sinks + xs[..k + 1];
  }

  lemma AddNone(nets: Nets, i: nat)
    requires i < |nets|
    ensures AddSinks(nets, i, []) == nets
  {
    assert nets[i].sinks + [] == nets[i].sinks;
  }

  class LevelBalancer {
    const root: Builder
    ghost const clocks: set<Clock>
    var cgcLevelMap: LevelMap
    var levelBufCount: nat

    constructor (root: Builder)
      ensures this.root == root && clocks == Clocks(root) && cgcLevelMap == map[] && levelBufCount == 0
    {
      this.root, clocks, cgcLevelMap, levelBufCount := root, Clocks(root), map[], 0;
    }

    ghost function SubNets(): set<SubNet>
      reads clocks
    {
      set c, s | c in clocks && s in c.subNets :: s
    }

    /** All clocks are in order, and no two share a subnet. */
    ghost predicate Sound()
      reads clocks, SubNets()
    {
      && (forall c :: c in clocks ==> assert forall s :: s in c.subNets ==> s in SubNets(); c.Valid())
      && (forall c, d, s {:trigger s in c.subNets, s in d.subNets} ::
            c in clocks && d in clocks && s in c.subNets && s in d.subNets ==> c == d)
    }

    ghost function Nets(): (s: State)
      reads clocks
      ensures s.Keys == clocks
    {
      map c | c in clocks :: c.nets
    }

    /** Which of a clock's nets are marked as leaves. */
    ghost function LeafMarks(c: Clock): (s: seq<bool>)
      reads c, c.subNets
      ensures |s| == |c.subNets|
    {
      seq(|c.subNets|, k requires 0 <= k < |c.subNets| reads c, c.subNets => c.subNets[k].leafLevel)
    }

    /** Exactly the nets that have sinks with pins are marked as leaves. */
    ghost predicate LeavesMarked()
      reads clocks, SubNets()
    {
      forall c :: c in clocks ==> assert forall s :: s in c.subNets ==> s in SubNets(); MarksPins(c.nets, LeafMarks(c))
    }

    /** Buffers counted less the nets there are, which no step changes. */
    ghost function Uncounted(): int
      reads this`levelBufCount, clocks
    {
      levelBufCount - NetCount(Nets())
    }

    /** A chain of buffers below a net, and sinks at its end, whose net alone of these is marked as a leaf. */
    method AddBufferLevels(clock: Clock, cluster: seq<Inst>, net: nat, bufLevels: nat)
      requires clock.Valid() && net < |clock.subNets| && Distinct(cluster)
      requires forall x :: x in cluster ==> HasPin(x) && x.id < clock.nextId && Unused(clock.nets, x)
      modifies this`levelBufCount, clock, clock.subNets
      ensures clock.Valid() && clock.nextId >= old(clock.nextId)
      ensures old(clock.subNets) <= clock.subNets && forall k :: old(|clock.subNets|) <= k < |clock.subNets| ==> fresh(clock.subNets[k])
      ensures clock.nets == AddSinks(Chain(old(clock.nets), net, None, old(clock.nextId), bufLevels),
                                     ChainEnd(old(clock.nets), net, bufLevels), cluster)
      ensures levelBufCount == old(levelBufCount) + bufLevels && Remarked(old(LeafMarks(clock)), LeafMarks(clock), net, bufLevels)
    {
      var last := AddLevels(clock, net, bufLevels);
      ghost var chain := clock.nets;
      forall x | x in cluster
        ensures Unused(chain, x)
      {
        ChainUnused(old(clock.nets), net, old(clock.nextId), bufLevels, x);
      }
      AddAll(clock, last, cluster);
      MarkEnd(clock, last, net, bufLevels, old(LeafMarks(clock)));
    }

    /** The cluster's sinks, one after the other. */
    method AddAll(clock: Clock, last: nat, cluster: seq<Inst>)
      requires clock.Valid() && last < |clock.subNets| && Distinct(cluster)
      requires forall x :: x in cluster ==> x.id < clock.nextId && Unused(clock.nets, x)
      modifies clock, clock.subNets
      ensures clock.Valid() && clock.nextId >= old(clock.nextId) && clock.subNets == old(clock.subNets)
      ensures clock.nets == AddSinks(old(clock.nets), last, cluster) && LeafMarks(clock) == old(LeafMarks(clock))
    {
      ghost var chain := clock.nets;
      AddNone(chain, last);
      for k := 0 to |cluster|
        invariant clock.Valid() && clock.subNets == old(clock.subNets) && clock.nets == AddSinks(chain, last, cluster[..k])
        invariant clock.nextId >= old(clock.nextId) && LeafMarks(clock) == old(LeafMarks(clock))
      {
        assert !clock.nets[last].Has(cluster[k]) by {
          assert cluster[k] in cluster && !chain[last].Has(cluster[k]) && cluster[k] !in cluster[..k];
        }
        clock.AddInst(last, cluster[k]);
        AddOneMore(chain, last, cluster, k);
      }
      assert cluster[..|cluster|] == cluster;
    }

    method MarkEnd(clock: Clock, last: nat, ghost net: nat, ghost bufLevels: nat, ghost marks: seq<bool>)
      requires clock.Valid() && last < |clock.subNets| && net < |marks| && LeafMarks(clock) == Unmarked(marks, net, bufLevels)
      requires last == if bufLevels == 0 then net else |marks| + bufLevels - 1
      modifies {clock.subNets[last]}`leafLevel
      ensures clock.Valid() && Remarked(marks, LeafMarks(clock), net, bufLevels)
    {
      Mark(clock, last, true);
    }

    method AddLevels(clock: Clock, net: nat, bufLevels: nat) returns (last: nat)
      requires clock.Valid() && net < |clock.subNets|
      modifies this`levelBufCount, clock, clock.subNets
      ensures clock.Valid() && last < |clock.subNets| && last == ChainEnd(old(clock.nets), net, bufLevels)
      ensures old(clock.subNets) <= clock.subNets && forall k :: old(|clock.subNets|) <= k < |clock.subNets| ==> fresh(clock.subNets[k])
      ensures clock.nets == Chain(old(clock.nets), net, None, old(clock.nextId), bufLevels)
      ensures clock.nextId >= old(clock.nextId) && levelBufCount == old(levelBufCount) + bufLevels
      ensures LeafMarks(clock) == Unmarked(old(LeafMarks(clock)), net, bufLevels)
    {
      hide ChainEnd, Unmarked, Clock.Holds;
      last := net;
      ghost var was, id, m, marks := clock.nets, clock.nextId, 0, LeafMarks(clock);
      NoneAdded(was, marks, net, id);
      for level := 0 to bufLevels
        invariant clock.Valid() && last < |clock.subNets| && m == level && clock.nextId == id + m
        invariant old(clock.subNets) <= clock.subNets && forall k :: old(|clock.subNets|) <= k < |clock.subNets| ==> fresh(clock.subNets[k])
        invariant last == ChainEnd(was, net, m) && clock.nets == Chain(was, net, None, id, m)
        invariant levelBufCount == old(levelBufCount) + m && LeafMarks(clock) == Unmarked(marks, net, m)
      {
        last := AddLevel(clock, last, was, marks, net, id, m);
        m := m + 1;
      }
    }

    /** After n buffers below net i, neither it nor the new nets are marked. */
    ghost function Unmarked(marks: seq<bool>, i: nat, n: nat): (s: seq<bool>)
      requires i < |marks|
      ensures |s| == |marks| + n
    {
      if n == 0 then marks else marks[i := false] + seq(n, _ => false)
    }

    lemma NoneAdded(nets: ClockTree.Nets, marks: seq<bool>, i: nat, id: nat)
      requires i < |nets| && i < |marks|
      ensures ChainEnd(nets, i, 0) == i && Chain(nets, i, None, id, 0) == nets && Unmarked(marks, i, 0) == marks
    {
    }

    lemma UnmarkedNext(nets: ClockTree.Nets, marks: seq<bool>, i: nat, n: nat)
      requires i < |marks| == |nets|
      ensures ChainEnd(nets, i, n) < |marks| + n
      ensures Unmarked(marks, i, n + 1) == Unmarked(marks, i, n)[ChainEnd(nets, i, n) := false] + [false]
    {
    }

    /** Sets the mark of one net. */
    method Mark(clock: Clock, k: nat, isLeaf: bool)
      requires clock.Valid() && k < |clock.subNets|
      modifies {clock.subNets[k]}`leafLevel
      ensures clock.Valid() && LeafMarks(clock) == old(LeafMarks(clock))[k := isLeaf]
    {
      clock.SetLeafLevel(k, isLeaf);
    }

    method AddLevel(clock: Clock, last: nat, ghost was: ClockTree.Nets, ghost marks: seq<bool>, ghost i: nat, ghost id: nat, ghost n: nat)
        returns (next: nat)
      requires clock.Valid() && last < |clock.subNets| && clock.nextId == id + n
      requires i < |was| == |marks| && LeafMarks(clock) == Unmarked(marks, i, n)
      requires last == ChainEnd(was, i, n) && clock.nets == Chain(was, i, None, id, n)
      modifies this`levelBufCount, clock, clock.subNets
      ensures clock.Valid() && next < |clock.subNets| && clock.nextId == id + n + 1
      ensures old(clock.subNets) <= clock.subNets && forall k :: old(|clock.subNets|) <= k < |clock.subNets| ==> fresh(clock.subNets[k])
      ensures next == ChainEnd(was, i, n + 1) && clock.nets == Chain(was, i, None, id, n + 1)
      ensures levelBufCount == old(levelBufCount) + 1 && LeafMarks(clock) == Unmarked(marks, i, n + 1)
    {
      hide Unmarked;
      UnmarkedNext(was, marks, i, n);
      var b := clock.GrowNet(last);
      levelBufCount := levelBufCount + 1;
      Mark(clock, last, false);
      next := |clock.subNets| - 1;
    }

    // ----- the same on all clocks at once

    method HangCluster(b: Builder, cluster: seq<Inst>, net: nat, bufLevels: nat)
      requires Sound() && b.clock in clocks && net < |b.clock.subNets| && Distinct(cluster)
      requires forall x :: x in cluster ==> HasPin(x) && x.id < b.clock.nextId && Unused(b.clock.nets, x)
      modifies this`levelBufCount, clocks, SubNets()
      ensures Sound() && forall s :: s in SubNets() ==> s in old(SubNets()) || fresh(s)
      ensures Nets() == old(Nets())[b.clock := Hung(old(b.clock.nets), net, old(b.clock.nextId), bufLevels, cluster)]
      ensures forall c :: c in clocks ==> c.nextId >= old(c.nextId)
      ensures Uncounted() == old(Uncounted())
      ensures old(LeavesMarked()) && |cluster| > 0 && (bufLevels > 0 ==> !Pins(old(b.clock.nets), net)) ==> LeavesMarked()
      ensures |cluster| > 0 && bufLevels > 0 && !Pins(old(b.clock.nets), net) ==> !Pins(b.clock.nets, net)
    {
      hide Below, Clock.Holds, MarksPins, Remarked, Pins, NetCount, Chain, AddSinks, ChainEnd, HasPin;
      var clock := b.clock;
      Apart(clock);
      ghost var s0, n0, marks := Nets(), clock.nets, LeafMarks(clock);
      HangOn(clock, cluster, net, bufLevels);
      NetCountUpdate(s0, clock, clock.nets);
      HungCase(n0, marks, LeafMarks(clock), net, old(clock.nextId), bufLevels, cluster);
    }

    /** All but the one clock stay as they are. */
    method HangOn(clock: Clock, cluster: seq<Inst>, net: nat, bufLevels: nat)
      requires Sound() && clock in clocks && net < |clock.subNets| && Distinct(cluster)
      requires forall x :: x in cluster ==> HasPin(x) && x.id < clock.nextId && Unused(clock.nets, x)
      modifies this`levelBufCount, clock, clock.subNets
      ensures clock.Valid() && clock.nets == Hung(old(clock.nets), net, old(clock.nextId), bufLevels, cluster)
      ensures clock.nextId >= old(clock.nextId) && levelBufCount == old(levelBufCount) + bufLevels
      ensures |clock.nets| == old(|clock.nets|) + bufLevels
      ensures Remarked(old(LeafMarks(clock)), LeafMarks(clock), net, bufLevels)
      ensures old(clock.subNets) <= clock.subNets && forall k :: old(|clock.subNets|) <= k < |clock.subNets| ==> fresh(clock.subNets[k])
      ensures forall c :: c in clocks && c != clock ==> c.Valid() && c.nets == old(c.nets) && c.subNets == old(c.subNets)
      ensures forall c :: c in clocks && c != clock ==> c.nextId == old(c.nextId) && LeafMarks(c) == old(LeafMarks(c))
    {
      hide Below, Clock.Holds, MarksPins, Remarked, Pins, NetCount, Chain, AddSinks, ChainEnd, HasPin;
      Apart(clock);
      AddBufferLevels(clock, cluster, net, bufLevels);
      HungLonger(old(clock.nets), net, old(clock.nextId), bufLevels, cluster);
      forall c | c in clocks && c != clock
        ensures c.Valid() && c.nets == old(c.nets) && c.subNets == old(c.subNets) && c.nextId == old(c.nextId) && LeafMarks(c) == old(LeafMarks(c))
      {
        forall k | 0 <= k < |c.subNets|
          ensures c.Holds(c.subNets[k], c.nets[k]) && c.subNets[k].leafLevel == old(c.subNets[k].leafLevel)
        {
          assert c.subNets[k] in old(c.subNets) && old(c.Holds(c.subNets[k], c.nets[k]));
        }
      }
    }

    lemma HungLonger(nets: Nets, i: nat, id: nat, n: nat, cluster: seq<Inst>)
      requires i < |nets|
      ensures |Hung(nets, i, id, n, cluster)| == |nets| + n
    {
    }

    lemma HungCase(nets: Nets, marks: seq<bool>, marks': seq<bool>, i: nat, id: nat, n: nat, cluster: seq<Inst>)
      requires i < |nets| && Remarked(marks, marks', i, n) && forall x :: x in cluster ==> HasPin(x)
      ensures |cluster| > 0 && (n > 0 ==> !Pins(nets, i)) && MarksPins(nets, marks) ==> MarksPins(Hung(nets, i, id, n, cluster), marks')
      ensures |cluster| > 0 && n > 0 && !Pins(nets, i) ==> !Pins(Hung(nets, i, id, n, cluster), i)
    {
      hide Pins, MarksPins, Remarked, Hung;
      if |cluster| > 0 && (n > 0 ==> !Pins(nets, i)) && MarksPins(nets, marks) {
        HungMarks(nets, marks, marks', i, id, n, cluster);
      }
      if |cluster| > 0 && n > 0 && !Pins(nets, i) {
        HungPins(nets, i, id, n, cluster);
      }
    }

    lemma Apart(clock: Clock)
      requires Sound() && clock in clocks
      ensures forall s :: s in clock.subNets ==> s in SubNets()
      ensures forall c, s {:trigger s in c.subNets} :: c in clocks && c != clock && s in c.subNets ==> s !in clock.subNets
      ensures forall c :: c in clocks ==> c.Valid()
    {
    }

    method TakePins(b: Builder, net: nat, gone: set<Inst>)
      requires Sound() && b.clock in clocks && net < |b.clock.subNets|
      modifies clocks, SubNets()
      ensures Sound() && forall s :: s in SubNets() ==> s in old(SubNets()) || fresh(s)
      ensures Nets() == old(Nets())[b.clock := RemoveSinks(old(b.clock.nets), net, gone)]
      ensures forall c :: c in clocks ==> c.nextId == old(c.nextId)
      ensures Uncounted() == old(Uncounted())
      ensures (forall x :: x in old(b.clock.nets[net].sinks) && HasPin(x) ==> x in gone) ==>
        (old(LeavesMarked()) ==> LeavesMarked()) && !Pins(b.clock.nets, net)
    {
      hide RemoveSinks, Below, Clock.Holds, MarksPins, Pins, NetCount;
      var clock := b.clock;
      Apart(clock);
      ghost var s0, n0, marks := Nets(), clock.nets, LeafMarks(clock);
      TakeOff(clock, net, gone);
      TakenCase(s0, clock, n0, marks, net, gone);
      assert forall c :: c in clocks ==> c.subNets == old(c.subNets);
    }

    /** All but the one clock stay as they are. */
    method TakeOff(clock: Clock, net: nat, gone: set<Inst>)
      requires Sound() && clock in clocks && net < |clock.subNets|
      modifies clock, clock.subNets
      ensures clock.Valid() && clock.nets == RemoveSinks(old(clock.nets), net, gone) && clock.subNets == old(clock.subNets)
      ensures clock.nextId == old(clock.nextId) && LeafMarks(clock) == old(LeafMarks(clock))[net := false]
      ensures forall c :: c in clocks && c != clock ==> c.Valid() && c.nets == old(c.nets) && c.subNets == old(c.subNets)
      ensures forall c :: c in clocks && c != clock ==> c.nextId == old(c.nextId) && LeafMarks(c) == old(LeafMarks(c))
    {
      hide RemoveSinks, Below, Clock.Holds, MarksPins, Pins, NetCount;
      Apart(clock);
      clock.RemoveSinks(net, gone);
      clock.SetLeafLevel(net, false);
      assert forall k :: 0 <= k < |clock.subNets| && k != net ==> clock.subNets[k] != clock.subNets[net];
      forall c | c in clocks && c != clock
        ensures c.Valid() && c.nets == old(c.nets) && c.subNets == old(c.subNets) && c.nextId == old(c.nextId) && LeafMarks(c) == old(LeafMarks(c))
      {
        forall k | 0 <= k < |c.subNets|
          ensures c.Holds(c.subNets[k], c.nets[k]) && c.subNets[k].leafLevel == old(c.subNets[k].leafLevel)
        {
          assert c.subNets[k] in old(c.subNets) && old(c.Holds(c.subNets[k], c.nets[k]));
        }
      }
    }

    lemma TakenCase(s: State, c: Clock, nets: Nets, marks: seq<bool>, i: nat, gone: set<Inst>)
      requires c in s && s[c] == nets && i < |nets| == |marks|
      ensures NetCount(s[c := RemoveSinks(nets, i, gone)]) == NetCount(s)
      ensures (forall x :: x in nets[i].sinks && HasPin(x) ==> x in gone) ==>
        (MarksPins(nets, marks) ==> MarksPins(RemoveSinks(nets, i, gone), marks[i := false])) && !Pins(RemoveSinks(nets, i, gone), i)
    {
      NetCountUpdate(s, c, RemoveSinks(nets, i, gone));
      if (forall x :: x in nets[i].sinks && HasPin(x) ==> x in gone) && MarksPins(nets, marks) {
        TakenMarks(nets, marks, i, gone);
      }
    }

    // ----- the sinks of one net, by the level they are on

    function LevelOf(x: Inst, currLevel: nat): nat
      reads this`cgcLevelMap
    {
      currLevel + LevelsBelow(cgcLevelMap, x)
    }

    ghost predicate Clustered(clusters: map<nat, seq<Inst>>, gone: set<Inst>, currLevel: nat)
      reads this`cgcLevelMap
    {
      && (forall x :: x in gone ==>
            HasPin(x) && LevelOf(x, currLevel) in clusters && x in clusters[LevelOf(x, currLevel)])
      && (forall l :: l in clusters ==> |clusters[l]| > 0 && Distinct(clusters[l]))
      && (forall l, x {:trigger x in clusters[l]} :: l in clusters && x in clusters[l] ==>
            x in gone && l == LevelOf(x, currLevel))
    }

    method SubClusters(subNet: SubNet, currLevel: nat) returns (clusters: map<nat, seq<Inst>>, gone: set<Inst>)
      requires |subNet.instances| > 0 && Distinct(subNet.instances[1..])
      ensures Clustered(clusters, gone, currLevel)
      ensures forall x :: x in gone <==> x in subNet.instances[1..] && HasPin(x)
      ensures gone == {} <==> clusters == map[]
    {
      clusters, gone := map[], {};
      var sinks := subNet.instances[1..];
      for k := 0 to |sinks|
        invariant Clustered(clusters, gone, currLevel)
        invariant forall x :: x in gone <==> x in sinks[..k] && HasPin(x)
        invariant gone == {} <==> clusters == map[]
      {
        var x := sinks[k];
        assert sinks[..k + 1] == sinks[..k] + [x] && x !in sinks[..k];
        if HasPin(x) {
          var level := LevelOf(x, currLevel);
          var cluster := if level in clusters then clusters[level] else [];
          assert x !in cluster && Distinct(cluster);
          clusters := clusters[level := cluster + [x]];
          assert level in clusters && x in clusters[level];
          gone := gone + {x};
        }
      }
      assert sinks[..|sinks|] == sinks;
    }

    // ----- measuring

    /** Buffers and gates down to the deepest sink; fills the map from gates to what hangs below them. A child
        driven by a port counts, and gets no entry. */
    method ComputeMaxTreeDepth(parent: Builder) returns (depth: nat)
      requires Separate(parent)
      modifies this`cgcLevelMap
      ensures depth == Depth(parent) && Measured(old(cgcLevelMap), cgcLevelMap, parent, |parent.children|)
      decreases parent, |parent.children| + 1
    {
      var maxDepth := 0;
      for k := 0 to |parent.children|
        invariant maxDepth == DepthBelow(parent, k) && Measured(old(cgcLevelMap), cgcLevelMap, parent, k)
      {
        depth := MeasureChild(parent, k, old(cgcLevelMap));
        if depth > maxDepth {
          maxDepth := depth;
        }
      }
      depth := parent.levels + maxDepth;
    }

    method MeasureChild(parent: Builder, k: nat, ghost m0: LevelMap) returns (depth: nat)
      requires Separate(parent) && k < |parent.children| && Measured(m0, cgcLevelMap, parent, k)
      modifies this`cgcLevelMap
      ensures depth == Depth(parent.children[k]) + 1 && Measured(m0, cgcLevelMap, parent, k + 1)
      decreases parent, k
    {
      var child := parent.children[k];
      ghost var m := cgcLevelMap;
      depth := ComputeMaxTreeDepth(child);
      depth := depth + 1;
      ghost var m' := cgcLevelMap;
      if child.driver >= 0 {
        cgcLevelMap := cgcLevelMap[child.driver := (depth, child)];
      }
      MeasuredStep(m0, m, m', parent, k);
    }

    // ----- balancing

    /** Makes all sinks of a builder, and of the builders behind its gates, `maxTreeDepth` deep. */
    method FixTreeLevels(b: Builder, parentDepth: nat, maxTreeDepth: nat)
      requires Sound() && Setup(Nets(), b, cgcLevelMap, parentDepth, maxTreeDepth)
      modifies this`levelBufCount, clocks, SubNets()
      ensures Sound() && forall s :: s in SubNets() ==> s in old(SubNets()) || fresh(s)
      ensures forall c :: c in clocks ==> c.nextId >= old(c.nextId)
      ensures Balanced(Nets(), b, parentDepth, maxTreeDepth) && Kept(old(Nets()), Nets(), b)
      ensures SamePins(old(Nets())[b.clock], Nets()[b.clock])
      ensures Uncounted() == old(Uncounted()) && (old(LeavesMarked()) ==> LeavesMarked())
      decreases b, 4
    {
      OwnClockIn(Nets(), b, parentDepth, maxTreeDepth);
      hide LeavesMarked, NetCount, Going, Setup, Balanced, Kept, SamePins, Sound;
      var currLevel := b.levels + parentDepth;
      ghost var s0 := Nets();
      if currLevel >= maxTreeDepth {
        NothingToDo(s0, b, cgcLevelMap, parentDepth, maxTreeDepth);
        return;
      }
      Start(s0, b, cgcLevelMap, parentDepth, maxTreeDepth);
      FixNets(b, currLevel, parentDepth, maxTreeDepth);
      AllGone(s0, Nets(), b, parentDepth, maxTreeDepth);
    }

    /** All nets of the builder there are now. */
    method FixNets(b: Builder, currLevel: nat, parentDepth: nat, maxTreeDepth: nat)
      requires Sound() && Going(Nets(), Nets(), b, cgcLevelMap, parentDepth, maxTreeDepth, 0, {}, {})
      requires b.clock in clocks && currLevel == b.levels + parentDepth
      modifies this`levelBufCount, clocks, SubNets()
      ensures Sound() && forall s :: s in SubNets() ==> s in old(SubNets()) || fresh(s)
      ensures forall c :: c in clocks ==> c.nextId >= old(c.nextId)
      ensures Going(old(Nets()), Nets(), b, cgcLevelMap, parentDepth, maxTreeDepth, |old(b.clock.nets)|, {}, {})
      ensures Uncounted() == old(Uncounted()) && (old(LeavesMarked()) ==> LeavesMarked())
      decreases b, 3
    {
      hide LeavesMarked, NetCount, Going, Sound;
      SizeOf(b.clock);
      ghost var s0 := Nets();
      var size := |b.clock.subNets|;
      for idx := 0 to size
        invariant Sound() && forall s :: s in SubNets() ==> s in old(SubNets()) || fresh(s)
        invariant forall c :: c in clocks ==> c.nextId >= old(c.nextId)
        invariant Uncounted() == old(Uncounted()) && (old(LeavesMarked()) ==> LeavesMarked())
        invariant Going(s0, Nets(), b, cgcLevelMap, parentDepth, maxTreeDepth, idx, {}, {})
      {
        FixNet(b, idx, currLevel, parentDepth, maxTreeDepth, s0);
      }
    }

    lemma SizeOf(clock: Clock)
      requires Sound() && clock in clocks
      ensures |clock.subNets| == |clock.nets|
    {
    }

    lemma OwnClockIn(s: State, b: Builder, parentDepth: nat, maxTreeDepth: nat)
      requires Setup(s, b, cgcLevelMap, parentDepth, maxTreeDepth)
      ensures b.clock in s
    {
    }

    lemma AllGone(s0: State, s: State, b: Builder, parentDepth: nat, maxTreeDepth: nat)
      requires b.clock in s0 && Going(s0, s, b, cgcLevelMap, parentDepth, maxTreeDepth, |s0[b.clock]|, {}, {})
      ensures b.clock in s && Balanced(s, b, parentDepth, maxTreeDepth) && Kept(s0, s, b) && SamePins(s0[b.clock], s[b.clock])
    {
      AllDone(s0, s, b, cgcLevelMap, parentDepth, maxTreeDepth);
    }

    /** One net of the builder. */
    method FixNet(b: Builder, idx: nat, currLevel: nat, parentDepth: nat, maxTreeDepth: nat, ghost s0: State)
      requires Sound() && Going(s0, Nets(), b, cgcLevelMap, parentDepth, maxTreeDepth, idx, {}, {})
      requires idx < |s0[b.clock]| && currLevel == b.levels + parentDepth
      modifies this`levelBufCount, clocks, SubNets()
      ensures Sound() && forall s :: s in SubNets() ==> s in old(SubNets()) || fresh(s)
      ensures forall c :: c in clocks ==> c.nextId >= old(c.nextId)
      ensures Going(s0, Nets(), b, cgcLevelMap, parentDepth, maxTreeDepth, idx + 1, {}, {})
      ensures Uncounted() == old(Uncounted()) && (old(LeavesMarked()) ==> LeavesMarked())
      decreases b, 2
    {
      hide Going, Setup, Clustered, Sound, LeavesMarked, NetCount, Pins;
      var clusters, gone := NetClusters(b, idx, currLevel, parentDepth, maxTreeDepth, s0);
      if clusters == map[] {
        SkipStep(s0, Nets(), b, cgcLevelMap, parentDepth, maxTreeDepth, idx);
        return;
      }
      TakeOffPins(b, idx, gone, parentDepth, maxTreeDepth, s0);
      FixClusters(b, idx, clusters, gone, currLevel, parentDepth, maxTreeDepth, s0);
    }

    /** Its pins by level. */
    method NetClusters(b: Builder, idx: nat, currLevel: nat, ghost parentDepth: nat, ghost maxTreeDepth: nat, ghost s0: State)
        returns (clusters: map<nat, seq<Inst>>, gone: set<Inst>)
      requires Sound() && Going(s0, Nets(), b, cgcLevelMap, parentDepth, maxTreeDepth, idx, {}, {}) && idx < |s0[b.clock]|
      ensures Clustered(clusters, gone, currLevel) && (gone == {} <==> clusters == map[])
      ensures forall x :: x in gone <==> x in s0[b.clock][idx].sinks && HasPin(x)
      ensures forall x :: x in gone ==> x.id < b.clock.nextId
    {
      hide Going, Setup, Clustered, Kids, Below, SubNet.Valid, Reach;
      NetsLeft(s0, Nets(), b, cgcLevelMap, parentDepth, maxTreeDepth, idx, {}, {});
      Apart(b.clock);
      NetAt(b.clock, idx);
      clusters, gone := SubClusters(b.clock.subNets[idx], currLevel);
    }

    /** All its pins come off the net. */
    method TakeOffPins(b: Builder, idx: nat, gone: set<Inst>, parentDepth: nat, maxTreeDepth: nat, ghost s0: State)
      requires Sound() && Going(s0, Nets(), b, cgcLevelMap, parentDepth, maxTreeDepth, idx, {}, {})
      requires idx < |s0[b.clock]| && forall x :: x in gone <==> x in s0[b.clock][idx].sinks && HasPin(x)
      modifies clocks, SubNets()
      ensures Sound() && forall s :: s in SubNets() ==> s in old(SubNets()) || fresh(s)
      ensures forall c :: c in clocks ==> c.nextId == old(c.nextId)
      ensures Going(s0, Nets(), b, cgcLevelMap, parentDepth, maxTreeDepth, idx + 1, gone, gone)
      ensures Uncounted() == old(Uncounted()) && (old(LeavesMarked()) ==> LeavesMarked())
      ensures !Pins(b.clock.nets, idx)
    {
      hide Going, Setup, Sound, LeavesMarked, NetCount, Pins;
      NetsLeft(s0, Nets(), b, cgcLevelMap, parentDepth, maxTreeDepth, idx, {}, {});
      Apart(b.clock);
      TakeOffStep(s0, Nets(), b, cgcLevelMap, parentDepth, maxTreeDepth, idx, gone);
      TakePins(b, idx, gone);
    }

    /** The pins of net idx that were taken off. */
    ghost predicate PinsOf(b: Builder, idx: nat, todo: set<Inst>, s0: State)
      requires b.clock in s0 && idx < |s0[b.clock]|
      reads b.clock
    {
      forall x :: x in todo ==> x in s0[b.clock][idx].sinks && HasPin(x) && x.id < b.clock.nextId
    }

    /** All clusters of the net. */
    method FixClusters(b: Builder, idx: nat, clusters: map<nat, seq<Inst>>, gone: set<Inst>, currLevel: nat,
                       parentDepth: nat, maxTreeDepth: nat, ghost s0: State)
      requires Sound() && Going(s0, Nets(), b, cgcLevelMap, parentDepth, maxTreeDepth, idx + 1, gone, gone)
      requires idx < |s0[b.clock]| && currLevel == b.levels + parentDepth && PinsOf(b, idx, gone, s0)
      requires Clustered(clusters, gone, currLevel) && !Pins(b.clock.nets, idx)
      modifies this`levelBufCount, clocks, SubNets()
      ensures Sound() && forall s :: s in SubNets() ==> s in old(SubNets()) || fresh(s)
      ensures forall c :: c in clocks ==> c.nextId >= old(c.nextId)
      ensures Going(s0, Nets(), b, cgcLevelMap, parentDepth, maxTreeDepth, idx + 1, {}, {})
      ensures Uncounted() == old(Uncounted()) && (old(LeavesMarked()) ==> LeavesMarked())
      decreases b, 1
    {
      hide Going, Setup, Sound, LeavesMarked, NetCount, Pins;
      var levels := clusters.Keys;
      ghost var todo := gone;
      while levels != {}
        invariant Sound() && forall s :: s in SubNets() ==> s in old(SubNets()) || fresh(s)
        invariant forall c :: c in clocks ==> c.nextId >= old(c.nextId)
        invariant Going(s0, Nets(), b, cgcLevelMap, parentDepth, maxTreeDepth, idx + 1, todo, todo)
        invariant Uncounted() == old(Uncounted()) && (old(LeavesMarked()) ==> LeavesMarked())
        invariant (exists l :: l in levels && l < maxTreeDepth) ==> !Pins(b.clock.nets, idx)
        invariant levels <= clusters.Keys
        invariant forall x :: x in todo <==> x in gone && currLevel + LevelsBelow(cgcLevelMap, x) in levels
      {
        HasSmallest(levels);
        var level :| level in levels && forall l :: l in levels ==> level <= l;
        levels := levels - {level};
        FixCluster(b, idx, level, clusters[level], currLevel, parentDepth, maxTreeDepth, s0, todo);
        todo := todo - set x | x in clusters[level];
      }
      assert todo == {};
    }

    /** One cluster: a chain of buffers that brings it to its depth, and the builders behind its gates. */
    method FixCluster(b: Builder, idx: nat, level: nat, cluster: seq<Inst>, currLevel: nat,
                      parentDepth: nat, maxTreeDepth: nat, ghost s0: State, ghost todo: set<Inst>)
      requires Sound() && Going(s0, Nets(), b, cgcLevelMap, parentDepth, maxTreeDepth, idx + 1, todo, todo)
      requires idx < |s0[b.clock]| && currLevel == b.levels + parentDepth && PinsOf(b, idx, todo, s0) && Distinct(cluster)
      requires |cluster| > 0 && forall x :: x in cluster ==> x in todo && currLevel + LevelsBelow(cgcLevelMap, x) == level
      requires level < maxTreeDepth ==> !Pins(b.clock.nets, idx)
      modifies this`levelBufCount, clocks, SubNets()
      ensures Sound() && forall s :: s in SubNets() ==> s in old(SubNets()) || fresh(s)
      ensures forall c :: c in clocks ==> c.nextId >= old(c.nextId)
      ensures var rest := todo - set x | x in cluster; Going(s0, Nets(), b, cgcLevelMap, parentDepth, maxTreeDepth, idx + 1, rest, rest)
      ensures Uncounted() == old(Uncounted()) && (old(LeavesMarked()) ==> LeavesMarked())
      ensures level < maxTreeDepth ==> !Pins(b.clock.nets, idx)
      decreases b, 0, |cluster|, 1
    {
      hide Going, Setup, Sound, LeavesMarked, NetCount, Pins;
      ghost var rest := todo - set x | x in cluster;
      NetsLeft(s0, Nets(), b, cgcLevelMap, parentDepth, maxTreeDepth, idx + 1, todo, todo);
      HangAtDepth(b, idx, level, cluster, currLevel, parentDepth, maxTreeDepth, s0, todo);
      KindOfAll(s0, Nets(), b, cgcLevelMap, parentDepth, maxTreeDepth, idx, level, rest, todo, cluster);
      if currLevel != level {
        FixGates(b, idx, cluster, maxTreeDepth - level, currLevel, parentDepth, maxTreeDepth, s0, rest, todo);
      } else {
        DropStep(s0, Nets(), b, cgcLevelMap, parentDepth, maxTreeDepth, idx + 1, rest, todo, set x | x in cluster);
      }
    }

    /** A cluster on the builder's level has no gates, and one below it only gates of that level. */
    lemma KindOfAll(s0: State, s: State, b: Builder, m: LevelMap, above: nat, max: nat, idx: nat, level: nat, rest: set<Inst>,
                    pending: set<Inst>, cluster: seq<Inst>)
      requires Going(s0, s, b, m, above, max, idx + 1, rest, pending) && b.clock in s0 && idx < |s0[b.clock]|
      requires forall x :: x in cluster ==> x in s0[b.clock][idx].sinks && HasPin(x)
      requires forall x :: x in cluster ==> above + b.levels + LevelsBelow(m, x) == level
      ensures if above + b.levels == level then forall x :: x in cluster ==> x.cell !in m
        else forall x :: x in cluster ==> x.cell in m && above + b.levels + m[x.cell].0 == level
    {
      hide Going, Setup;
      NetsLeft(s0, s, b, m, above, max, idx + 1, rest, pending);
      forall x | x in cluster
        ensures LevelsBelow(m, x) == 0 <==> x.cell !in m
      {
        ClusterKind(s0, b, m, above, max, idx, x);
      }
    }

    /** The chain alone. */
    method HangAtDepth(b: Builder, idx: nat, level: nat, cluster: seq<Inst>, currLevel: nat,
                       parentDepth: nat, maxTreeDepth: nat, ghost s0: State, ghost todo: set<Inst>)
      requires Sound() && Going(s0, Nets(), b, cgcLevelMap, parentDepth, maxTreeDepth, idx + 1, todo, todo)
      requires idx < |s0[b.clock]| && currLevel == b.levels + parentDepth && PinsOf(b, idx, todo, s0) && Distinct(cluster)
      requires |cluster| > 0 && forall x :: x in cluster ==> x in todo && currLevel + LevelsBelow(cgcLevelMap, x) == level
      requires level < maxTreeDepth ==> !Pins(b.clock.nets, idx)
      modifies this`levelBufCount, clocks, SubNets()
      ensures Sound() && level <= maxTreeDepth && forall s :: s in SubNets() ==> s in old(SubNets()) || fresh(s)
      ensures forall c :: c in clocks ==> c.nextId >= old(c.nextId)
      ensures var rest := todo - set x | x in cluster; Going(s0, Nets(), b, cgcLevelMap, parentDepth, maxTreeDepth, idx + 1, rest, todo)
      ensures Uncounted() == old(Uncounted()) && (old(LeavesMarked()) ==> LeavesMarked())
      ensures level < maxTreeDepth ==> !Pins(b.clock.nets, idx)
    {
      hide Going, Setup, Sound, LeavesMarked, NetCount, Pins;
      NetsLeft(s0, Nets(), b, cgcLevelMap, parentDepth, maxTreeDepth, idx + 1, todo, todo);
      Apart(b.clock);
      ClusterKind(s0, b, cgcLevelMap, parentDepth, maxTreeDepth, idx, cluster[0]);
      HangStep(s0, Nets(), b, cgcLevelMap, parentDepth, maxTreeDepth, idx, todo, b.clock.nextId, level, cluster);
      TodoUnused(s0, Nets(), b, cgcLevelMap, parentDepth, maxTreeDepth, idx + 1, todo);
      HangCluster(b, cluster, idx, maxTreeDepth - level);
    }

    /** The builders behind the gates of a cluster. */
    method FixGates(b: Builder, idx: nat, cluster: seq<Inst>, bufLevels: nat, currLevel: nat,
                    parentDepth: nat, maxTreeDepth: nat, ghost s0: State, ghost todo: set<Inst>, ghost pending: set<Inst>)
      requires Sound() && Going(s0, Nets(), b, cgcLevelMap, parentDepth, maxTreeDepth, idx + 1, todo, pending)
      requires idx < |s0[b.clock]| && Distinct(cluster)
      requires forall x :: x in cluster ==> x in pending && x in s0[b.clock][idx].sinks && HasPin(x)
      requires forall x :: x in cluster ==> x.cell in cgcLevelMap && bufLevels + currLevel + cgcLevelMap[x.cell].0 == maxTreeDepth
      modifies this`levelBufCount, clocks, SubNets()
      ensures Sound() && forall s :: s in SubNets() ==> s in old(SubNets()) || fresh(s)
      ensures forall c :: c in clocks ==> c.nextId >= old(c.nextId)
      ensures Going(s0, Nets(), b, cgcLevelMap, parentDepth, maxTreeDepth, idx + 1, todo, pending - set x | x in cluster)
      ensures Uncounted() == old(Uncounted()) && (old(LeavesMarked()) ==> LeavesMarked())
      ensures b.clock.nets == old(b.clock.nets)
      decreases b, 0, |cluster|, 0
    {
      hide Going, Setup, Sound, LeavesMarked, NetCount;
      ghost var left := pending;
      for q := 0 to |cluster|
        invariant Sound() && forall s :: s in SubNets() ==> s in old(SubNets()) || fresh(s)
        invariant forall c :: c in clocks ==> c.nextId >= old(c.nextId)
        invariant Uncounted() == old(Uncounted()) && (old(LeavesMarked()) ==> LeavesMarked())
        invariant b.clock.nets == old(b.clock.nets)
        invariant left == pending - set x | x in cluster[..q]
        invariant Going(s0, Nets(), b, cgcLevelMap, parentDepth, maxTreeDepth, idx + 1, todo, left)
      {
        var g := cluster[q];
        assert cluster[..q + 1] == cluster[..q] + [g] && g in cluster && g !in cluster[..q];
        FixGate(b, idx, g, bufLevels, currLevel, parentDepth, maxTreeDepth, s0, todo, left);
        left := left - {g};
      }
      assert cluster[..|cluster|] == cluster;
    }

    method FixGate(b: Builder, idx: nat, g: Inst, bufLevels: nat, currLevel: nat,
                   parentDepth: nat, maxTreeDepth: nat, ghost s0: State, ghost todo: set<Inst>, ghost pending: set<Inst>)
      requires Sound() && Going(s0, Nets(), b, cgcLevelMap, parentDepth, maxTreeDepth, idx + 1, todo, pending)
      requires idx < |s0[b.clock]| && g in pending && g in s0[b.clock][idx].sinks && HasPin(g)
      requires g.cell in cgcLevelMap && bufLevels + currLevel + cgcLevelMap[g.cell].0 == maxTreeDepth
      modifies this`levelBufCount, clocks, SubNets()
      ensures Sound() && forall s :: s in SubNets() ==> s in old(SubNets()) || fresh(s)
      ensures forall c :: c in clocks ==> c.nextId >= old(c.nextId)
      ensures Going(s0, Nets(), b, cgcLevelMap, parentDepth, maxTreeDepth, idx + 1, todo, pending - {g})
      ensures Uncounted() == old(Uncounted()) && (old(LeavesMarked()) ==> LeavesMarked())
      ensures b.clock.nets == old(b.clock.nets)
      decreases b, 0, 0, 0
    {
      hide Going, Setup, Balanced, Depth, Kept, SamePins, Sound, LeavesMarked, NetCount;
      ghost var s := Nets();
      NetsLeft(s0, s, b, cgcLevelMap, parentDepth, maxTreeDepth, idx + 1, todo, pending);
      ClusterKind(s0, b, cgcLevelMap, parentDepth, maxTreeDepth, idx, g);
      ghost var k: nat :| k < |b.children| && GateOf(s0[b.clock], b, k, g) && cgcLevelMap[g.cell] == (Depth(b.children[k]) + 1, b.children[k]);
      var child := cgcLevelMap[g.cell].1;
      ChildReady(s0, s, b, cgcLevelMap, parentDepth, maxTreeDepth, idx + 1, todo, pending, k, g);
      FixTreeLevels(child, currLevel + bufLevels + 1, maxTreeDepth);
      GateStep(s0, s, Nets(), b, cgcLevelMap, parentDepth, maxTreeDepth, idx, todo, pending, k, g);
      OwnNetsKept(s0, s, Nets(), b, cgcLevelMap, parentDepth, maxTreeDepth, idx + 1, todo, pending, k);
    }

    /** A child's clock is not the builder's. */
    lemma OwnNetsKept(s0: State, s: State, s': State, b: Builder, m: LevelMap, above: nat, max: nat, i: nat,
                      todo: set<Inst>, pending: set<Inst>, k: nat)
      requires Going(s0, s, b, m, above, max, i, todo, pending) && k < |b.children| && Kept(s, s', b.children[k])
      ensures b.clock in s && b.clock in s' && s'[b.clock] == s[b.clock]
    {
    }

    lemma HasSmallest(levels: set<nat>)
      requires levels != {}
      ensures exists l :: l in levels && forall k :: k in levels ==> l <= k
    {
      var l := HasLeast(levels);
    }

    /** Pins taken off occur nowhere. */
    lemma TodoUnused(s0: State, s: State, b: Builder, m: LevelMap, above: nat, max: nat, i: nat, todo: set<Inst>)
      requires Going(s0, s, b, m, above, max, i, todo, todo)
      ensures forall x :: x in todo ==> Unused(s[b.clock], x)
    {
      forall x | x in todo
        ensures Unused(s[b.clock], x)
      {
        assert !Hangs(s[b.clock], x) && HasPin(x);
      }
    }

    /** The whole pass: every sink that is no gate, of the root and of every builder behind gates, ends up exactly
        as deep as the deepest one was, and every clock keeps its pins. */
    method Run()
      requires Sound() && clocks == Clocks(root) && cgcLevelMap == map[]
      requires Separate(root) && Input(Nets(), root, Gates(root))
      modifies this, clocks, SubNets()
      ensures Sound() && Balanced(Nets(), root, 0, Depth(root))
      ensures forall x, depth {:trigger Sits(Nets(), root, 0, x, depth)} :: Sits(Nets(), root, 0, x, depth) ==> depth == Depth(root)
      ensures forall c :: c in clocks ==> SamePins(old(c.nets), c.nets)
      ensures levelBufCount == NetCount(Nets()) - NetCount(old(Nets())) && (old(LeavesMarked()) ==> LeavesMarked())
    {
      hide Balanced, Sits, Input, Setup, Measured, Gates, Depth, Mapped, LeavesMarked, NetCount, Kept, SamePins, Sound;
      ghost var s0 := Nets();
      var maxTreeDepth := ComputeMaxTreeDepth(root);
      levelBufCount := 0;
      Prepared(Nets(), cgcLevelMap);
      FixTreeLevels(root, 0, maxTreeDepth);
      EverySink(Nets(), root);
      PinsKept(s0, Nets(), root);
    }

    lemma Prepared(s: State, m: LevelMap)
      requires Separate(root) && Input(s, root, Gates(root)) && Clocks(root) <= s.Keys
      requires Measured(map[], m, root, |root.children|)
      ensures Setup(s, root, m, 0, Depth(root))
    {
      assert m.Keys == Gates(root);
      assert Mapped(m, root);
    }

    lemma PinsKept(s: State, s': State, b: Builder)
      requires b.clock in s && b.clock in s' && s.Keys == s'.Keys == Clocks(b) && Kept(s, s', b) && SamePins(s[b.clock], s'[b.clock])
      ensures forall c :: c in s ==> SamePins(s[c], s'[c])
    {
    }

    lemma EverySink(s: State, b: Builder)
      requires Balanced(s, b, 0, Depth(b))
      ensures forall x, depth {:trigger Sits(s, b, 0, x, depth)} :: Sits(s, b, 0, x, depth) ==> depth == Depth(b)
    {
      forall x, depth | Sits(s, b, 0, x, depth)
        ensures depth == Depth(b)
      {
        AllAtMax(s, b, 0, Depth(b), x, depth);
      }
    }

    /** What a subnet holds. */
    lemma NetAt(clock: Clock, idx: nat)
      requires clock.Valid() && idx < |clock.nets|
      ensures |clock.subNets[idx].instances| > 0 && clock.subNets[idx].instances[1..] == clock.nets[idx].sinks
      ensures Distinct(clock.subNets[idx].instances[1..])
      ensures forall x :: x in clock.nets[idx].sinks ==> x.id < clock.nextId
    {
      assert clock.Holds(clock.subNets[idx], clock.nets[idx]);
      clock.subNets[idx].DistinctInstances();
      assert forall x :: x in clock.nets[idx].sinks ==> clock.nets[idx].Has(x);
    }
  }

  /** `m` is `m0` with the entries of the first n children and of all below them. */
  ghost predicate Measured(m0: LevelMap, m: LevelMap, b: Builder, n: nat) {
    && n <= |b.children| && m.Keys == m0.Keys + GatesBelow(b, n)
    && (forall g :: g in m0 && g !in GatesBelow(b, n) ==> m[g] == m0[g])
    && forall k :: 0 <= k < n ==> Entered(m, b.children[k])
  }

  /** A child measured in between leaves the entries of the children before it. */
  lemma {:induction false} EnteredKept(m: LevelMap, m': LevelMap, b: Builder, k: nat, n: nat)
    requires Separate(b) && k < n < |b.children| && Entered(m, b.children[k])
    requires forall g :: g in m && g !in GatesAt(b.children[n]) ==> g in m' && m'[g] == m[g]
    ensures Entered(m', b.children[k])
  {
    assert GatesAt(b.children[k]) !! GatesAt(b.children[n]);
    EnteredFrame(m, m', b.children[k]);
  }

  /** A child driven by a port gets no entry. */
  ghost function WithEntry(m: LevelMap, child: Builder): LevelMap {
    if child.driver >= 0 then m[child.driver := (Depth(child) + 1, child)] else m
  }

  /** The child's own entry does not disturb those below it. */
  lemma {:induction false} EnterChild(m: LevelMap, child: Builder)
    requires Mapped(m, child) && child.driver !in Gates(child)
    ensures Entered(WithEntry(m, child), child)
  {
    var m' := WithEntry(m, child);
    forall k | 0 <= k < |child.children|
      ensures Entered(m', child.children[k])
    {
      GatesOf(child, |child.children|, k);
      EnteredFrame(m, m', child.children[k]);
    }
  }

  lemma {:induction false} MeasuredStep(m0: LevelMap, m: LevelMap, m': LevelMap, b: Builder, n: nat)
    requires Separate(b) && n < |b.children| && Measured(m0, m, b, n)
    requires Measured(m, m', b.children[n], |b.children[n].children|)
    ensures Measured(m0, WithEntry(m', b.children[n]), b, n + 1)
  {
    var child := b.children[n];
    var m2 := WithEntry(m', child);
    EnterChild(m', child);
    assert GatesBelow(b, n + 1) == GatesBelow(b, n) + GatesAt(child);
    assert m2.Keys == m0.Keys + GatesBelow(b, n + 1);
    forall k | 0 <= k < n
      ensures Entered(m2, b.children[k])
    {
      EnteredKept(m, m2, b, k, n);
    }
  }
}
