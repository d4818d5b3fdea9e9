/** Buffers in wires that are too long (PostCtsOpt.cpp). Which wire of the characterised ones is fastest for a
    slew and a capacitance is a parameter. */
module PostCts {
  import opened ClockTree
  import opened ClockNet
  import opened ClockSplice
  import opened Options
  import opened IntMath
  import RealMath

  /** A characterised wire: its buffers, and the slew and capacitance it leaves. */
  datatype Wire = Wire(buffers: nat, outSlew: nat, outCap: nat)

  /** What decides which sinks get which buffers: where instances are, the database units of a wire length unit,
      the length of a characterised wire, the fastest one for a slew and a capacitance, and the distances of
      the sinks of leaf nets from their drivers, with their sum. */
  datatype Repair = Repair(loc: Inst -> (int, int), unit: real, charSegLength: nat, fastest: (nat, nat) -> Wire,
                           slew: nat, cap: nat, numSinks: nat, sinkDist: map<Inst, int>, total: int) {
    ghost predicate Valid() {
      unit > 0.0 && charSegLength > 0
    }

    /** More than five times the average; none is when there are no sinks to average over. */
    predicate Outlier(x: Inst) {
      var d := if x in sinkDist then sinkDist[x] else 0;
      numSinks > 0 && d as real > 5.0 * (total as real / numSinks as real)
    }

    /** That is, as many such distances as there are sinks come to more than five times the sum of all; a sink whose
        distance is not known is none. */
    lemma OutlierIsFar(x: Inst)
      requires total >= 0
      ensures Outlier(x) <==> x in sinkDist && numSinks > 0 && numSinks * sinkDist[x] > 5 * total
    {
      if numSinks > 0 {
        var d := if x in sinkDist then sinkDist[x] else 0;
        MoreThanMean(d, total, numSinks);
      }
    }

    lemma MoreThanMean(d: int, total: int, n: nat)
      requires n > 0
      ensures d as real > 5.0 * (total as real / n as real) <==> n * d > 5 * total
    {
      var mean := total as real / n as real;
      assert mean * n as real == total as real;
      assert (n * d) as real == n as real * d as real;
      Times(d as real, 5.0 * mean, n as real);
      assert 5.0 * mean * n as real == (5 * total) as real;
    }

    lemma Times(a: real, b: real, n: real)
      requires n > 0.0
      ensures a > b <==> n * a > b * n
    {
      if a > b {
        assert (a - b) * n > 0.0;
      } else {
        assert (b - a) * n >= 0.0;
      }
    }

    /** How many sinks are outliers. */
    ghost function Outliers(xs: seq<Inst>): nat {
      if xs == [] then 0 else Outliers(xs[..|xs| - 1]) + if Outlier(xs[|xs| - 1]) then 1 else 0
    }

    /** How many characterised wires reach the sink. */
    function NumWires(driver: Inst, x: Inst): (n: nat)
      requires Valid()
      ensures n * charSegLength <= RealMath.Trunc(Distance(loc, driver, x) as real / unit) < (n + 1) * charSegLength
    {
      var wireLength := RealMath.Trunc(Distance(loc, driver, x) as real / unit);
      NotNegative(Distance(loc, driver, x), unit);
      wireLength / charSegLength
    }

    /** Slew and capacitance behind the first n wires. */
    function Handed(n: nat): (nat, nat) {
      if n == 0 then (slew, cap)
      else
        var (s, c) := Handed(n - 1);
        var w := fastest(s, c);
        (w.outSlew, if w.outCap > c then w.outCap else c)
    }

    /** The buffers of the first n wires. */
    function Buffers(n: nat): (s: seq<nat>)
      ensures |s| == n
    {
      if n == 0 then [] else Buffers(n - 1) + [fastest(Handed(n - 1).0, Handed(n - 1).1).buffers]
    }

    function Segments(driver: Inst, x: Inst): (s: seq<nat>)
      requires Valid()
    {
      Buffers(NumWires(driver, x))
    }

    /** The buffers a sink gets in front of it. */
    function Extra(driver: Inst, x: Inst): nat
      requires Valid()
    {
      if Outlier(x) then Total(Segments(driver, x)) else 0
    }
  }

  function Distance(loc: Inst -> (int, int), a: Inst, b: Inst): (d: int)
    ensures d >= 0
  {
    Abs(loc(a).0 - loc(b).0) + Abs(loc(a).1 - loc(b).1)
  }

  /** A wire runs along the axes: as far as it is sideways, and as far as it is up or down. */
  lemma DistanceIs(loc: Inst -> (int, int), a: Inst, b: Inst, dx: nat, dy: nat)
    requires loc(b).0 == loc(a).0 + dx || loc(a).0 == loc(b).0 + dx
    requires loc(b).1 == loc(a).1 + dy || loc(a).1 == loc(b).1 + dy
    ensures Distance(loc, a, b) == dx + dy
  {
  }

  /** Of the first k sinks of a net. */
  ghost function NetTotal(loc: Inst -> (int, int), net: Net, k: nat): int
    requires k <= |net.sinks|
  {
    if k == 0 then 0 else NetTotal(loc, net, k - 1) + Distance(loc, net.driver, net.sinks[k - 1])
  }

  /** Of all sinks of the leaves among the first n nets. */
  ghost function LeafTotal(loc: Inst -> (int, int), nets: Nets, leaf: set<nat>, n: nat): int
    requires n <= |nets|
  {
    if n == 0 then 0
    else LeafTotal(loc, nets, leaf, n - 1) + if n - 1 in leaf then NetTotal(loc, nets[n - 1], |nets[n - 1].sinks|) else 0
  }

  /** The distances of a net's first k sinks were noted and added up, and no others. */
  ghost predicate Noted(was: Repair, r: Repair, net: Net, k: nat) {
    && k <= |net.sinks| && r == was.(sinkDist := r.sinkDist, total := was.total + NetTotal(was.loc, net, k))
    && (forall i :: 0 <= i < k ==> net.sinks[i] in r.sinkDist && r.sinkDist[net.sinks[i]] == Distance(r.loc, net.driver, net.sinks[i]))
    && (forall x :: x in was.sinkDist && x !in net.sinks ==> x in r.sinkDist && r.sinkDist[x] == was.sinkDist[x])
  }

  lemma NotedStart(r: Repair, net: Net)
    ensures Noted(r, r, net, 0)
  {
  }

  lemma NotedStep(was: Repair, r: Repair, net: Net, k: nat)
    requires Noted(was, r, net, k) && k < |net.sinks|
    ensures var d := Distance(r.loc, net.driver, net.sinks[k]);
      Noted(was, r.(sinkDist := r.sinkDist[net.sinks[k] := d], total := r.total + d), net, k + 1)
  {
    hide Distance;
  }

  /** The distances of the sinks of the leaves among the first n nets are noted. */
  ghost predicate Known(r: Repair, nets: Nets, leaf: set<nat>, n: nat)
    requires n <= |nets|
  {
    forall i, x {:trigger x in nets[i].sinks} :: i in leaf && i < n && x in nets[i].sinks ==>
      x in r.sinkDist && r.sinkDist[x] == Distance(r.loc, nets[i].driver, x)
  }

  lemma KnownStart(r: Repair, nets: Nets, leaf: set<nat>)
    ensures Known(r, nets, leaf, 0)
  {
  }

  lemma {:induction false} KnownStep(was: Repair, r: Repair, nets: Nets, root: nat, leaf: set<nat>, n: nat)
    requires n < |nets| && Once(nets, root) && Known(was, nets, leaf, n)
    requires if n in leaf then Noted(was, r, nets[n], |nets[n].sinks|) else r == was
    ensures Known(r, nets, leaf, n + 1)
  {
    hide Distance;
  }

  lemma NotNegative(d: int, unit: real)
    requires d >= 0 && unit > 0.0
    ensures RealMath.Trunc(d as real / unit) >= 0
  {
    assert d as real / unit >= 0.0;
  }

  /** Net i after its first k sinks were looked at. */
  ghost predicate Fixing(was: Nets, now: Nets, root: nat, i: nat, k: nat) {
    && i < |was| <= |now| && Tree(now, root) && KeepsSinks(was, now)
    && now[i].driver == was[i].driver && |now[i].sinks| == |was[i].sinks|
    && forall j {:trigger was[i].sinks[j]} :: k <= j < |was[i].sinks| ==> now[i].sinks[j] == was[i].sinks[j]
  }

  /** None of the sinks of net i drives a net. */
  ghost predicate LeafNet(nets: Nets, i: nat) {
    i < |nets| && forall x :: x in nets[i].sinks ==> Idle(nets, x)
  }

  /** The nets kept their depths, and the first k sinks of net i hang lower by their own chains. */
  ghost predicate Lowered(was: Nets, now: Nets, root: nat, i: nat, k: nat, r: Repair)
    requires r.Valid()
  {
    && i < |was| && k <= |was[i].sinks| && DepthsKept(was, now, root)
    && (forall x :: x in was[i].sinks ==> Idle(now, x))
    && Hung(was, now, root, i, k, r)
  }

  ghost predicate Hung(was: Nets, now: Nets, root: nat, i: nat, k: nat, r: Repair)
    requires i < |was| && k <= |was[i].sinks| && r.Valid()
  {
    forall j, d: nat {:trigger was[i].sinks[j], Reach(was, root, i, d)} :: 0 <= j < k && Reach(was, root, i, d) ==>
      Placed(now, root, was[i].sinks[j], d + r.Extra(was[i].driver, was[i].sinks[j]))
  }

  lemma {:induction false} FixStep(was: Nets, now: Nets, root: nat, i: nat, k: nat, id: nat, n: nat)
    requires Fixing(was, now, root, i, k) && Below(now, id) && k < |was[i].sinks|
    ensures var now' := Chain(now, i, Some(k), id, n); Fixing(was, now', root, i, k + 1) && Below(now', id + n)
  {
    var now' := Chain(now, i, Some(k), id, n);
    ChainTree(now, root, i, Some(k), id, n);
    KeepsSinksTwice(was, now, now');
    ChainFrame(now, i, Some(k), Some(was[i].sinks[k]), id, n, i);
  }

  /** The spliced sink hangs n buffers lower. */
  lemma {:induction false} OwnChain(now: Nets, root: nat, i: nat, k: nat, id: nat, n: nat, d: nat)
    requires Tree(now, root) && i < |now| && Below(now, id) && k < |now[i].sinks| && Reach(now, root, i, d)
    ensures Placed(Chain(now, i, Some(k), id, n), root, now[i].sinks[k], d + n)
  {
    var now', e := Chain(now, i, Some(k), id, n), ChainEnd(now, i, n);
    ChainMarks(now, i, Some(k), Some(now[i].sinks[k]), id, n);
    ChainDepth(now, root, i, Some(k), id, n, d);
    assert now[i].sinks[k] in now'[e].sinks && Reach(now', root, e, d + n);
  }

  /** Another sink stays where it is. */
  lemma {:induction false} OtherSink(now: Nets, root: nat, i: nat, k: nat, id: nat, n: nat, x: Inst, e: nat)
    requires Tree(now, root) && i < |now| && Below(now, id) && k < |now[i].sinks| && x != now[i].sinks[k]
    requires Idle(now, now[i].sinks[k]) && Placed(now, root, x, e)
    ensures Placed(Chain(now, i, Some(k), id, n), root, x, e)
  {
    var sink := now[i].sinks[k];
    var now' := Chain(now, i, Some(k), id, n);
    var p :| 0 <= p < |now| && x in now[p].sinks && Reach(now, root, p, e);
    ChainDepths(now, root, i, Some(k), Some(sink), id, n);
    ChainFrame(now, i, Some(k), Some(sink), id, n, p);
    var q :| 0 <= q < |now[p].sinks| && now[p].sinks[q] == x;
    assert now'[p].sinks[q] == x;
    assert x in now'[p].sinks && Reach(now', root, p, e);
  }

  lemma {:induction false} LowerOne(was: Nets, now: Nets, root: nat, i: nat, k: nat, id: nat, n: nat, r: Repair, j: nat, d: nat)
    requires r.Valid()
    requires Once(was, root) && Fixing(was, now, root, i, k) && Below(now, id) && j <= k < |was[i].sinks|
    requires Lowered(was, now, root, i, k, r) && n == r.Extra(was[i].driver, was[i].sinks[k]) && Reach(was, root, i, d)
    ensures Placed(Chain(now, i, Some(k), id, n), root, was[i].sinks[j], d + r.Extra(was[i].driver, was[i].sinks[j]))
  {
    var s := was[i].sinks;
    assert s[k] in s && now[i].sinks[k] == s[k] && Reach(now, root, i, d);
    if j == k {
      OwnChain(now, root, i, k, id, n, d);
    } else {
      OtherSink(now, root, i, k, id, n, s[j], d + r.Extra(was[i].driver, s[j]));
    }
  }

  lemma {:induction false} DepthsStep(was: Nets, now: Nets, root: nat, i: nat, k: nat, id: nat, n: nat)
    requires Fixing(was, now, root, i, k) && Below(now, id) && k < |was[i].sinks|
    requires DepthsKept(was, now, root) && Idle(now, was[i].sinks[k])
    ensures DepthsKept(was, Chain(now, i, Some(k), id, n), root)
  {
    ChainDepths(now, root, i, Some(k), Some(was[i].sinks[k]), id, n);
    DepthsKeptTwice(was, now, Chain(now, i, Some(k), id, n), root);
  }

  lemma {:induction false} IdleStep(was: Nets, now: Nets, i: nat, k: nat, id: nat, n: nat)
    requires i < |was| <= |now| && Below(was, id) && forall x :: x in was[i].sinks ==> Idle(now, x)
    ensures forall x :: x in was[i].sinks ==> Idle(Chain(now, i, Some(k), id, n), x)
  {
    forall x | x in was[i].sinks
      ensures Idle(Chain(now, i, Some(k), id, n), x)
    {
      assert was[i].Has(x);
      StaysIdle(now, i, k, id, n, x);
    }
  }

  lemma {:induction false} HungStep(was: Nets, now: Nets, root: nat, i: nat, k: nat, id: nat, n: nat, r: Repair)
    requires r.Valid()
    requires Once(was, root) && Fixing(was, now, root, i, k) && Below(now, id) && k < |was[i].sinks|
    requires Lowered(was, now, root, i, k, r) && n == r.Extra(was[i].driver, was[i].sinks[k])
    ensures Hung(was, Chain(now, i, Some(k), id, n), root, i, k + 1, r)
  {
    forall j, d: nat | 0 <= j < k + 1 && Reach(was, root, i, d)
      ensures Placed(Chain(now, i, Some(k), id, n), root, was[i].sinks[j], d + r.Extra(was[i].driver, was[i].sinks[j]))
    {
      LowerOne(was, now, root, i, k, id, n, r, j, d);
    }
  }

  lemma {:induction false} LowerStep(was: Nets, now: Nets, root: nat, i: nat, k: nat, id: nat, n: nat, r: Repair)
    requires r.Valid()
    requires Once(was, root) && Fixing(was, now, root, i, k) && Below(now, id) && k < |was[i].sinks|
    requires Lowered(was, now, root, i, k, r) && n == r.Extra(was[i].driver, was[i].sinks[k]) && Below(was, id)
    ensures Lowered(was, Chain(now, i, Some(k), id, n), root, i, k + 1, r)
  {
    assert Idle(now, was[i].sinks[k]) by {
      assert was[i].sinks[k] in was[i].sinks;
    }
    DepthsStep(was, now, root, i, k, id, n);
    IdleStep(was, now, i, k, id, n);
    HungStep(was, now, root, i, k, id, n, r);
  }

  /** A chain makes nobody a driver but its own buffers. */
  lemma {:induction false} StaysIdle(nets: Nets, i: nat, k: nat, id: nat, n: nat, x: Inst)
    requires i < |nets| && Idle(nets, x) && x.id < id
    ensures Idle(Chain(nets, i, Some(k), id, n), x)
  {
    if n > 0 {
      StaysIdle(nets, i, k, id, n - 1, x);
    }
  }

  /** The other nets are as before, and so are the depths of their sinks. */
  ghost predicate Elsewhere(was: Nets, now: Nets, root: nat, i: nat) {
    && i < |was| <= |now|
    && (forall j {:trigger now[j]} :: 0 <= j < |was| ==> now[j].driver == was[j].driver && (j != i ==> now[j] == was[j]))
    && (forall x :: Hangs(was, x) && Idle(was, x) ==> Idle(now, x))
    && forall x, e: nat {:trigger Placed(was, root, x, e)} :: x !in was[i].sinks && Placed(was, root, x, e) ==> Placed(now, root, x, e)
  }

  lemma {:induction false} ElsewhereStep(was: Nets, now: Nets, root: nat, i: nat, k: nat, id: nat, n: nat)
    requires Fixing(was, now, root, i, k) && Below(was, id) && Below(now, id) && k < |was[i].sinks|
    requires Elsewhere(was, now, root, i) && Idle(now, was[i].sinks[k])
    ensures Elsewhere(was, Chain(now, i, Some(k), id, n), root, i)
  {
    hide Placed, Reach;
    var now' := Chain(now, i, Some(k), id, n);
    forall j | 0 <= j < |was|
      ensures now'[j].driver == was[j].driver && (j != i ==> now'[j] == was[j])
    {
      ChainFrame(now, i, Some(k), Some(was[i].sinks[k]), id, n, j);
    }
    forall x | Hangs(was, x) && Idle(was, x)
      ensures Idle(now', x)
    {
      var j :| 0 <= j < |was| && x in was[j].sinks;
      assert was[j].Has(x);
      StaysIdle(now, i, k, id, n, x);
    }
    forall x, e: nat | x !in was[i].sinks && Placed(was, root, x, e)
      ensures Placed(now', root, x, e)
    {
      OtherSink(now, root, i, k, id, n, x, e);
    }
  }

  // ----- all leaf nets

  /** The buffers a sink of net i gets when the first n nets have been gone through. */
  ghost function More(was: Nets, leaf: set<nat>, r: Repair, n: nat, i: nat, x: Inst): nat
    requires r.Valid() && i < |was|
  {
    if i < n && i in leaf then r.Extra(was[i].driver, x) else 0
  }

  /** After n nets: every net kept its depth, every sink of every net there was is deeper by its own buffers, and
      the nets not yet looked at are as they were. */
  ghost predicate Deepened(was: Nets, now: Nets, root: nat, leaf: set<nat>, r: Repair, n: nat)
    requires r.Valid()
  {
    && n <= |was| <= |now| && DepthsKept(was, now, root)
    && (forall j {:trigger now[j]} :: 0 <= j < |was| ==> now[j].driver == was[j].driver && (n <= j ==> now[j] == was[j]))
    && (forall x :: Hangs(was, x) && Idle(was, x) ==> Idle(now, x))
    && forall i, x, d: nat {:trigger x in was[i].sinks, Reach(was, root, i, d)} ::
         0 <= i < |was| && x in was[i].sinks && Reach(was, root, i, d) ==> Placed(now, root, x, d + More(was, leaf, r, n, i, x))
  }

  ghost predicate LeafNets(nets: Nets, leaf: set<nat>) {
    forall i :: i in leaf ==> LeafNet(nets, i)
  }

  lemma {:induction false} DeepenedStart(was: Nets, root: nat, leaf: set<nat>, r: Repair)
    requires r.Valid()
    ensures Deepened(was, was, root, leaf, r, 0)
  {
    hide Reach;
    forall i, x, d: nat | 0 <= i < |was| && x in was[i].sinks && Reach(was, root, i, d)
      ensures Placed(was, root, x, d + More(was, leaf, r, 0, i, x))
    {
      assert Placed(was, root, x, d);
    }
  }

  lemma {:induction false} LeafStays(was: Nets, mid: Nets, root: nat, leaf: set<nat>, r: Repair, n: nat)
    requires r.Valid() && Deepened(was, mid, root, leaf, r, n) && LeafNet(was, n)
    ensures LeafNet(mid, n)
  {
    forall x | x in mid[n].sinks
      ensures Idle(mid, x)
    {
      assert x in was[n].sinks;
      assert Hangs(was, x);
    }
  }

  lemma {:induction false} DeepenedStep(was: Nets, mid: Nets, now: Nets, root: nat, leaf: set<nat>, r: Repair, n: nat)
    requires r.Valid() && Once(was, root) && n < |was| && Deepened(was, mid, root, leaf, r, n) && KeepsSinks(was, mid)
    requires if n in leaf then Lowered(mid, now, root, n, |mid[n].sinks|, r) && Elsewhere(mid, now, root, n) else now == mid
    ensures Deepened(was, now, root, leaf, r, n + 1)
  {
    hide Reach, Placed;
    assert mid[n] == was[n];
    if n in leaf {
      DepthsKeptTwice(was, mid, now, root);
    }
    forall i, x, d: nat | 0 <= i < |was| && x in was[i].sinks && Reach(was, root, i, d)
      ensures Placed(now, root, x, d + More(was, leaf, r, n + 1, i, x))
    {
      if n in leaf && i == n {
        var j :| 0 <= j < |was[n].sinks| && was[n].sinks[j] == x;
        assert mid[n].sinks[j] == x && Reach(mid, root, n, d);
      } else if n in leaf {
        assert x !in mid[n].sinks;
      }
    }
  }

  class PostCtsOpt {
    const clock: Clock
    var repair: Repair
    var numViolatingSinks: nat

    constructor (clock: Clock, repair: Repair)
      ensures this.clock == clock && this.repair == repair && numViolatingSinks == 0
    {
      this.clock, this.repair, numViolatingSinks := clock, repair, 0;
    }

    /** Distances of the sinks of leaf nets from their drivers, and their sum. */
    method InitSourceSinkDists()
      requires clock.Valid() && Once(clock.nets, clock.root)
      modifies this`repair
      ensures repair == old(repair).(sinkDist := repair.sinkDist, total := old(repair.total) + LeafTotal(repair.loc, clock.nets, Leaves(), |clock.nets|))
      ensures Known(repair, clock.nets, Leaves(), |clock.nets|)
    {
      hide Known, Once, Distance, NetTotal;
      KnownStart(repair, clock.nets, Leaves());
      for i := 0 to |clock.subNets|
        invariant repair == old(repair).(sinkDist := repair.sinkDist, total := old(repair.total) + LeafTotal(repair.loc, clock.nets, Leaves(), i))
        invariant Known(repair, clock.nets, Leaves(), i)
      {
        ghost var was := repair;
        if clock.subNets[i].leafLevel {
          ComputeNetSourceSinkDists(i);
        }
        KnownStep(was, repair, clock.nets, clock.root, Leaves(), i);
      }
    }

    method ComputeNetSourceSinkDists(i: nat)
      requires clock.Valid() && i < |clock.subNets|
      modifies this`repair
      ensures Noted(old(repair), repair, clock.nets[i], |clock.nets[i].sinks|)
    {
      hide Noted, Distance;
      assert clock.Holds(clock.subNets[i], clock.nets[i]);
      var driver, sinks := clock.subNets[i].instances[0], clock.subNets[i].instances[1..];
      ghost var net := clock.nets[i];
      assert driver == net.driver && sinks == net.sinks;
      NotedStart(repair, net);
      for k := 0 to |sinks|
        invariant Noted(old(repair), repair, net, k)
      {
        var dist := Distance(repair.loc, driver, sinks[k]);
        NotedStep(old(repair), repair, net, k);
        repair := repair.(sinkDist := repair.sinkDist[sinks[k] := dist], total := repair.total + dist);
      }
    }

    method FixLongWire(i: nat, driver: Inst, sink: Inst, ghost k: nat)
      requires repair.Valid() && clock.Valid() && Marks(clock.nets, i, Some(k), Some(sink))
      modifies clock, clock.subNets`instances, clock.subNets`index
      ensures clock.Valid() && clock.nextId == old(clock.nextId) + Total(repair.Segments(driver, sink))
      ensures old(clock.subNets) <= clock.subNets && forall k :: old(|clock.subNets|) <= k < |clock.subNets| ==> fresh(clock.subNets[k])
      ensures clock.nets == Chain(old(clock.nets), i, Some(k), old(clock.nextId), Total(repair.Segments(driver, sink)))
    {
      var segments := FastestSegments(repair.NumWires(driver, sink));
      var builder := new SegmentBuilder(clock, i, segments);
      builder.Build(Some(sink), Some(k));
    }

    /** The fastest wires, one after the other. */
    method FastestSegments(numWires: nat) returns (segments: seq<nat>)
      ensures segments == repair.Buffers(numWires)
    {
      segments := [];
      var inputSlew: nat, inputCap: nat := repair.slew, repair.cap;
      for wireCount := 0 to numWires
        invariant segments == repair.Buffers(wireCount) && (inputSlew, inputCap) == repair.Handed(wireCount)
      {
        var w := repair.fastest(inputSlew, inputCap);
        segments := segments + [w.buffers];
        inputCap := if w.outCap > inputCap then w.outCap else inputCap;
        inputSlew := w.outSlew;
      }
    }

    /** The first k sinks of net i have been looked at. */
    ghost predicate At(was: Nets, i: nat, k: nat)
      requires repair.Valid()
      reads this, clock, clock.subNets
    {
      && clock.Valid() && Fixing(was, clock.nets, clock.root, i, k)
      && (LeafNet(was, i) ==> Lowered(was, clock.nets, clock.root, i, k, repair) && Elsewhere(was, clock.nets, clock.root, i))
    }

    method FixSink(i: nat, driver: Inst, inst: nat, ghost was: Nets)
      requires repair.Valid() && i < |clock.subNets| && 1 <= inst < |clock.subNets[i].instances| && At(was, i, inst - 1)
      requires driver == was[i].driver && Once(was, clock.root) && Below(was, clock.nextId)
      modifies this`numViolatingSinks, clock, clock.subNets`instances, clock.subNets`index
      ensures At(was, i, inst) && clock.nextId >= old(clock.nextId) && inst <= |was[i].sinks|
      ensures numViolatingSinks == old(numViolatingSinks) + if repair.Outlier(was[i].sinks[inst - 1]) then 1 else 0
      ensures old(clock.subNets) <= clock.subNets && forall k :: old(|clock.subNets|) <= k < |clock.subNets| ==> fresh(clock.subNets[k])
    {
      hide Lowered, Elsewhere;
      ghost var now, k, id := clock.nets, inst - 1, clock.nextId;
      assert clock.Holds(clock.subNets[i], now[i]);
      var sink := clock.subNets[i].instances[inst];
      if repair.Outlier(sink) {
        FixLongWire(i, driver, sink, k);
        numViolatingSinks := numViolatingSinks + 1;
      }
      FixStep(was, now, clock.root, i, k, id, repair.Extra(driver, sink));
      if LeafNet(was, i) {
        SinkIdle(was, now, clock.root, i, k, repair);
        LowerStep(was, now, clock.root, i, k, id, repair.Extra(driver, sink), repair);
        ElsewhereStep(was, now, clock.root, i, k, id, repair.Extra(driver, sink));
      }
    }

    lemma SinkIdle(was: Nets, now: Nets, root: nat, i: nat, k: nat, r: Repair)
      requires r.Valid() && Lowered(was, now, root, i, k, r) && k < |was[i].sinks|
      ensures Idle(now, was[i].sinks[k])
    {
      assert was[i].sinks[k] in was[i].sinks;
    }

    /** Goes through the sinks of a net while splicing buffers in front of some of them. */
    method FixNetSourceSinkDists(i: nat)
      requires repair.Valid() && clock.Valid() && Tree(clock.nets, clock.root) && i < |clock.subNets|
      modifies this`numViolatingSinks, clock, clock.subNets`instances, clock.subNets`index
      ensures clock.Valid() && Fixing(old(clock.nets), clock.nets, clock.root, i, |old(clock.nets)[i].sinks|)
      ensures old(clock.subNets) <= clock.subNets && forall k :: old(|clock.subNets|) <= k < |clock.subNets| ==> fresh(clock.subNets[k])
      ensures numViolatingSinks == old(numViolatingSinks) + repair.Outliers(old(clock.nets)[i].sinks)
      ensures LeafNet(old(clock.nets), i) ==>
        && Lowered(old(clock.nets), clock.nets, clock.root, i, |old(clock.nets)[i].sinks|, repair)
        && Elsewhere(old(clock.nets), clock.nets, clock.root, i)
    {
      hide Reach;
      ghost var was := clock.nets;
      assert clock.Holds(clock.subNets[i], was[i]);
      var driver := clock.subNets[i].instances[0];
      var inst := 1;
      while inst < |clock.subNets[i].instances|
        invariant 1 <= inst <= |was[i].sinks| + 1 && At(was, i, inst - 1) && old(clock.nextId) <= clock.nextId
        invariant old(clock.subNets) <= clock.subNets && forall k :: old(|clock.subNets|) <= k < |clock.subNets| ==> fresh(clock.subNets[k])
        invariant |clock.subNets[i].instances| == |was[i].sinks| + 1
        invariant numViolatingSinks == old(numViolatingSinks) + repair.Outliers(was[i].sinks[..inst - 1])
      {
        assert was[i].sinks[..inst][..inst - 1] == was[i].sinks[..inst - 1];
        FixSink(i, driver, inst, was);
        inst := inst + 1;
        assert clock.Holds(clock.subNets[i], clock.nets[i]);
      }
      assert was[i].sinks[..inst - 1] == was[i].sinks;
    }

    /** The nets that are leaves. */
    ghost function Leaves(): set<nat>
      reads clock, clock.subNets
    {
      set i: nat | i < |clock.subNets| && clock.subNets[i].leafLevel
    }

    /** All leaf nets there were at the start. If their sinks drive nothing, every sink ends deeper by its own
        buffers and every net at its own depth. */
    method FixSourceSinkDists()
      requires repair.Valid() && clock.Valid() && Tree(clock.nets, clock.root)
      modifies this`numViolatingSinks, clock, clock.subNets`instances, clock.subNets`index
      ensures clock.Valid() && Tree(clock.nets, clock.root) && KeepsSinks(old(clock.nets), clock.nets)
      ensures LeafNets(old(clock.nets), old(Leaves())) ==>
        Deepened(old(clock.nets), clock.nets, clock.root, old(Leaves()), repair, |old(clock.nets)|)
    {
      hide Deepened, LeafNets, Tree;
      var size := |clock.subNets|;
      ghost var was, leaf := clock.nets, Leaves();
      DeepenedStart(was, clock.root, leaf, repair);
      for idx := 0 to size
        invariant clock.Valid() && size == |was| <= |clock.subNets| && Tree(clock.nets, clock.root)
        invariant KeepsSinks(was, clock.nets)
        invariant old(clock.subNets) <= clock.subNets && forall k :: old(|clock.subNets|) <= k < |clock.subNets| ==> fresh(clock.subNets[k])
        invariant LeafNets(was, leaf) ==> Deepened(was, clock.nets, clock.root, leaf, repair, idx)
      {
        FixLeaf(idx, was, leaf);
      }
    }

    method FixLeaf(idx: nat, ghost was: Nets, ghost leaf: set<nat>)
      requires repair.Valid() && clock.Valid() && Tree(clock.nets, clock.root) && idx < |was| <= |clock.subNets|
      requires Tree(was, clock.root) && KeepsSinks(was, clock.nets) && (idx in leaf <==> clock.subNets[idx].leafLevel)
      requires LeafNets(was, leaf) ==> Deepened(was, clock.nets, clock.root, leaf, repair, idx)
      modifies this`numViolatingSinks, clock, clock.subNets`instances, clock.subNets`index
      ensures clock.Valid() && Tree(clock.nets, clock.root) && KeepsSinks(was, clock.nets)
      ensures old(clock.subNets) <= clock.subNets && forall k :: old(|clock.subNets|) <= k < |clock.subNets| ==> fresh(clock.subNets[k])
      ensures LeafNets(was, leaf) ==> Deepened(was, clock.nets, clock.root, leaf, repair, idx + 1)
    {
      hide Deepened, Lowered, Elsewhere, LeafNet, Fixing;
      ghost var mid := clock.nets;
      if LeafNets(was, leaf) && idx in leaf {
        LeafStays(was, mid, clock.root, leaf, repair, idx);
      }
      if clock.subNets[idx].leafLevel {
        FixNetSourceSinkDists(idx);
        FixingKeeps(mid, clock.nets, clock.root, idx, |mid[idx].sinks|);
      }
      if LeafNets(was, leaf) {
        DeepenedStep(was, mid, clock.nets, clock.root, leaf, repair, idx);
      }
      KeepsSinksTwice(was, mid, clock.nets);
    }

    lemma FixingKeeps(was: Nets, now: Nets, root: nat, i: nat, k: nat)
      requires Fixing(was, now, root, i, k)
      ensures Tree(now, root) && KeepsSinks(was, now)
    {
    }
  }
}
