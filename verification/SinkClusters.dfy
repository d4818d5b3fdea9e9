/** Clusters of clock sinks (SinkClustering.cpp): the sinks, ordered along a curve, are cut into clusters
    from every possible starting point, and the cheapest cutting wins. */
module SinkClusters {
  import opened RealMath
  import opened Netlist

  /** What a run of the clusterer is given: points and pin capacitances, and the limit that applies. */
  datatype Task = Task(points: seq<Point>, caps: seq<real>, useMaxCap: bool, maxCap: real, capPerUnit: real,
                       maxDiameter: real, groupSize: nat)
  {
    ghost predicate Valid() {
      && |points| == |caps| && groupSize >= 1 && maxDiameter >= 0.0 && capPerUnit >= 0.0
      && forall i :: 0 <= i < |caps| ==> caps[i] >= 0.0
    }

    predicate Indices(s: seq<nat>) {
      forall k :: 0 <= k < |s| ==> s[k] < |points| && s[k] < |caps|
    }

    function Dist(i: nat, j: nat): real
      requires i < |points| && j < |points|
    {
      Abs(points[i].x - points[j].x) + Abs(points[i].y - points[j].y)
    }

    // ----- what is promised of a cluster

    /** The largest distance of a point to points of a cluster. */
    function Reach(c: seq<nat>, i: nat): (r: real)
      requires Indices(c) && i < |points|
      ensures r >= 0.0 && forall k :: 0 <= k < |c| ==> Dist(i, c[k]) <= r
    {
      if c == [] then 0.0 else Max(Reach(c[..|c| - 1], i), Dist(i, c[|c| - 1]))
    }

    /** The largest distance between two points of a cluster. */
    ghost function Diameter(c: seq<nat>): (r: real)
      requires Indices(c)
      ensures r >= 0.0 && forall j, k :: 0 <= j < k < |c| ==> Dist(c[k], c[j]) <= r
    {
      if c == [] then 0.0
      else
        var n := |c| - 1;
        Max(Diameter(c[..n]), Reach(c[..n], c[n]))
    }

    ghost function PinCap(c: seq<nat>): real
      requires Indices(c)
    {
      if c == [] then 0.0 else PinCap(c[..|c| - 1]) + caps[c[|c| - 1]]
    }

    /** The limit the clusters keep. */
    ghost predicate Fits(c: seq<nat>)
      requires Indices(c)
    {
      if useMaxCap then |c| >= 2 ==> PinCap(c) <= maxCap
      else |c| <= groupSize && forall j, k :: 0 <= j < k < |c| ==> Dist(c[k], c[j]) <= maxDiameter
    }

    // ----- adding a point

    /** A pin at the end of a wire. */
    function Load(dist: real, q: nat): real
      requires q < |caps|
    {
      dist * capPerUnit + caps[q]
    }

    /** The capacitance estimate for a point joining a cluster: its own pin, and, when capacitance limits
        the clusters, the other pins and a wire to each. */
    function CapCost(c: seq<nat>, i: nat): real
      requires Indices(c) && i < |points| && i < |caps|
    {
      if c == [] || !useMaxCap then caps[i]
      else
        var n := |c| - 1;
        CapCost(c[..n], i) + Load(Dist(i, c[n]), c[n])
    }

    function IsLimitExceeded(size: nat, cost: real, capCost: real): bool {
      if useMaxCap then capCost > maxCap else size >= groupSize || cost > maxDiameter
    }

    // ----- which points cannot join

    /** What cluster c would load its buffer with if the point joined: all pins, and a wire from the point to each. */
    ghost function JoinedLoad(c: seq<nat>, i: nat): real
      requires Indices(c) && i < |points| && i < |caps|
    {
      caps[i] + Sum(seq(|c|, k requires 0 <= k < |c| => Wire(i, c[k]) + caps[c[k]]))
    }

    ghost function Wire(i: nat, j: nat): real
      requires i < |points| && j < |points|
    {
      (Abs(points[i].x - points[j].x) + Abs(points[i].y - points[j].y)) * capPerUnit
    }

    /** The point would break a limit of the cluster: its load, or else its size or the distance of two points. */
    ghost predicate Breaks(c: seq<nat>, i: nat)
      requires Indices(c) && i < |points| && i < |caps|
    {
      if useMaxCap then JoinedLoad(c, i) > maxCap
      else
        || |c| >= groupSize
        || exists k :: 0 <= k < |c| && Abs(points[i].x - points[c[k]].x) + Abs(points[i].y - points[c[k]].y) > maxDiameter
    }

    /** That is what is tested. */
    lemma {:induction false} LimitIsBroken(c: seq<nat>, i: nat)
      requires Valid() && Indices(c) && i < |points|
      ensures IsLimitExceeded(|c|, Reach(c, i), CapCost(c, i)) <==> Breaks(c, i)
    {
      if useMaxCap {
        CapCostIsLoad(c, i);
      } else {
        ReachReached(c, i);
      }
    }

    lemma {:induction false} CapCostIsLoad(c: seq<nat>, i: nat)
      requires Indices(c) && i < |points| && i < |caps| && useMaxCap
      ensures CapCost(c, i) == JoinedLoad(c, i)
    {
      var s := seq(|c|, k requires 0 <= k < |c| => Wire(i, c[k]) + caps[c[k]]);
      if c != [] {
        var n := |c| - 1;
        CapCostIsLoad(c[..n], i);
        assert s[..n] == seq(n, k requires 0 <= k < n => Wire(i, c[..n][k]) + caps[c[..n][k]]);
      }
    }

    lemma {:induction false} ReachReached(c: seq<nat>, i: nat)
      requires Indices(c) && i < |points|
      ensures Reach(c, i) > 0.0 ==> exists k :: 0 <= k < |c| && Dist(i, c[k]) == Reach(c, i)
    {
      if c != [] {
        var n := |c| - 1;
        ReachReached(c[..n], i);
        if Reach(c[..n], i) > 0.0 {
          var k :| 0 <= k < n && Dist(i, c[..n][k]) == Reach(c[..n], i);
          assert Dist(i, c[k]) == Reach(c[..n], i);
        }
      }
    }

    lemma {:induction false} CapCostCoversPins(c: seq<nat>, i: nat)
      requires Valid() && Indices(c) && i < |points| && useMaxCap
      ensures CapCost(c, i) >= PinCap(c) + caps[i]
    {
      if c != [] {
        var n := |c| - 1;
        CapCostCoversPins(c[..n], i);
        assert Dist(i, c[n]) * capPerUnit >= 0.0;
      }
    }

    lemma OneMore(c: seq<nat>, k: nat, i: nat)
      requires Indices(c) && k < |c| && i < |points| && i < |caps|
      ensures Reach(c[..k + 1], i) == Max(Reach(c[..k], i), Dist(i, c[k]))
      ensures CapCost(c[..k + 1], i) == if useMaxCap then CapCost(c[..k], i) + Load(Dist(i, c[k]), c[k])
                                        else CapCost(c[..k], i)
    {
      hide Dist, Load;
      assert c[..k + 1][..k] == c[..k];
    }

    /** A point that exceeds no limit can join. */
    lemma {:induction false} JoiningFits(c: seq<nat>, i: nat)
      requires Valid() && Indices(c) && Fits(c) && i < |points|
      requires !Breaks(c, i)
      ensures Fits(c + [i]) && Diameter(c + [i]) == Max(Diameter(c), Reach(c, i))
    {
      assert (c + [i])[..|c|] == c;
      LimitIsBroken(c, i);
      if useMaxCap {
        CapCostCoversPins(c, i);
      }
    }

    /** A point alone is a cluster of no diameter that always fits. */
    lemma Single(i: nat)
      requires Valid() && i < |points|
      ensures Indices([i]) && Fits([i]) && Diameter([i]) == 0.0
    {
      assert [i][..0] == [];
    }

    /** What a closed cluster adds to the cost of a solution. */
    ghost function ClosedCost(c: seq<nat>): real
      requires Indices(c)
    {
      if Diameter(c) == 0.0 then maxDiameter else Diameter(c)
    }
  }

  function Flatten(s: seq<seq<nat>>): seq<nat> {
    if s == [] then [] else Flatten(s[..|s| - 1]) + s[|s| - 1]
  }

  lemma {:induction false} FlattenSnoc(s: seq<seq<nat>>, c: seq<nat>)
    ensures Flatten(s + [c]) == Flatten(s) + c
  {
    assert (s + [c])[..|s|] == s;
  }

  /** One of the solutions being built: its clusters, the cost of the closed ones, and the diameter of the
      open one, which is number `count`. */
  datatype Solution = Solution(clusters: seq<seq<nat>>, count: nat, cost: real, previousCost: real)

  const NOTHING := Solution([], 0, 0.0, 0.0)

  /** The solution is a legal cutting of `points` (in this order), priced as it should be. */
  ghost predicate Cuts(t: Task, s: Solution, points: seq<nat>) {
    && t.Indices(points) && Flatten(s.clusters) == points
    && (|s.clusters| == s.count + 1 || (s == NOTHING && points == []))
    && (forall k {:trigger s.clusters[k]} :: 0 <= k < |s.clusters| ==> t.Indices(s.clusters[k]) && t.Fits(s.clusters[k]))
    && (|s.clusters| > 0 ==> s.previousCost == t.Diameter(s.clusters[s.count]))
    && s.cost == ClosedCosts(t, s.clusters, s.count)
  }

  ghost function ClosedCosts(t: Task, clusters: seq<seq<nat>>, n: nat): real {
    if n == 0 || n > |clusters| || !t.Indices(clusters[n - 1]) then 0.0
    else ClosedCosts(t, clusters, n - 1) + t.ClosedCost(clusters[n - 1])
  }

  lemma {:induction false} ClosedCostsLocal(t: Task, a: seq<seq<nat>>, b: seq<seq<nat>>, n: nat)
    requires n <= |a| && n <= |b| && forall k :: 0 <= k < n ==> a[k] == b[k]
    ensures ClosedCosts(t, a, n) == ClosedCosts(t, b, n)
  {
    if n > 0 {
      ClosedCostsLocal(t, a, b, n - 1);
    }
  }

  /** A new cluster is opened for a point only if the point breaks a limit of the one before, and no other point
      breaks one. */
  ghost predicate Greedy(t: Task, clusters: seq<seq<nat>>) {
    && |t.points| == |t.caps| && (forall k :: 0 <= k < |clusters| ==> t.Indices(clusters[k]))
    && (forall k, m :: 0 <= k < |clusters| && 1 <= m < |clusters[k]| ==> !t.Breaks(clusters[k][..m], clusters[k][m]))
    && (|clusters| > 0 && clusters[0] != [] ==> !t.Breaks([], clusters[0][0]))
    && (forall k :: 1 <= k < |clusters| ==> clusters[k] != [] && t.Breaks(clusters[k - 1], clusters[k][0]))
  }

  lemma {:induction false} GreedyJoin(t: Task, clusters: seq<seq<nat>>, i: nat)
    requires Greedy(t, clusters) && clusters != [] && i < |t.points| && !t.Breaks(clusters[|clusters| - 1], i)
    ensures var n := |clusters| - 1; Greedy(t, clusters[n := clusters[n] + [i]])
  {
    hide Task.Breaks;
    var n := |clusters| - 1;
    var c, next := clusters[n], clusters[n := clusters[n] + [i]];
    forall k, m | 0 <= k < |next| && 1 <= m < |next[k]|
      ensures t.Indices(next[k]) && !t.Breaks(next[k][..m], next[k][m])
    {
      if k == n {
        assert (c + [i])[..m] == if m == |c| then c else c[..m];
      }
    }
    if c == [] {
      assert n == 0;
    }
  }

  lemma OpenedWith(clusters: seq<seq<nat>>, i: nat)
    ensures var none: seq<nat> := []; (clusters + [none])[|clusters| := none + [i]] == clusters + [[i]]
  {
    var none: seq<nat> := [];
    assert none + [i] == [i];
  }

  lemma {:induction false} GreedyOpen(t: Task, clusters: seq<seq<nat>>, i: nat)
    requires Greedy(t, clusters) && clusters != [] && i < |t.points| && t.Breaks(clusters[|clusters| - 1], i)
    ensures Greedy(t, clusters + [[i]])
  {
    hide Task.Breaks;
  }

  // ----- the steps of the clusterer, on one solution

  /** Makes room for the open cluster when it has none yet. */
  function Allocated(s: Solution): (r: Solution)
    ensures |s.clusters| >= s.count ==> |r.clusters| > r.count
  {
    if |s.clusters| < s.count + 1 then s.(clusters := s.clusters + [[]]) else s
  }

  /** Closes the open cluster. */
  function Closed(t: Task, s: Solution): Solution {
    Allocated(Solution(s.clusters, s.count + 1,
                       s.cost + (if s.previousCost == 0.0 then t.maxDiameter else s.previousCost), 0.0))
  }

  function Appended(s: Solution, i: nat): Solution
    requires s.count < |s.clusters|
  {
    s.(clusters := s.clusters[s.count := s.clusters[s.count] + [i]])
  }

  lemma NothingCuts(t: Task)
    requires t.Valid()
    ensures Cuts(t, NOTHING, []) && Greedy(t, NOTHING.clusters)
  {
  }

  lemma {:induction false} AllocatedCuts(t: Task, s: Solution, points: seq<nat>)
    requires t.Valid() && Cuts(t, s, points)
    ensures Cuts(t, Allocated(s), points) && |Allocated(s).clusters| == Allocated(s).count + 1
  {
    if |s.clusters| != s.count + 1 {
      OneEmptyCluster(t);
      assert NOTHING.clusters + [[]] == [[]];
    }
  }

  lemma AllocatedGreedy(t: Task, s: Solution)
    requires Greedy(t, s.clusters) && (|s.clusters| == s.count + 1 || s == NOTHING)
    ensures Greedy(t, Allocated(s).clusters)
  {
  }

  lemma OneEmptyCluster(t: Task)
    requires t.Valid()
    ensures Cuts(t, Solution([[]], 0, 0.0, 0.0), [])
  {
    var none: seq<nat> := [];
    var one := [none];
    assert one[..0] == [] && Flatten(one) == Flatten([]) + none;
  }

  lemma {:induction false} ClosedCuts(t: Task, s: Solution, points: seq<nat>)
    requires t.Valid() && Cuts(t, s, points) && |s.clusters| == s.count + 1
    ensures Cuts(t, Closed(t, s), points) && Closed(t, s).clusters == s.clusters + [[]]
  {
    FlattenSnoc(s.clusters, []);
    var r := Closed(t, s);
    assert r.clusters == s.clusters + [[]];
    assert Flatten(s.clusters) + [] == Flatten(s.clusters);
    ClosedCostsLocal(t, s.clusters, r.clusters, s.count);
  }

  lemma {:induction false} AppendedCuts(t: Task, s: Solution, points: seq<nat>, i: nat)
    requires t.Valid() && Cuts(t, s, points) && |s.clusters| == s.count + 1 && i < |t.points|
    requires t.Fits(s.clusters[s.count] + [i])
    ensures Cuts(t, Appended(s, i).(previousCost := t.Diameter(s.clusters[s.count] + [i])), points + [i])
  {
    hide Flatten, Task.Diameter, Task.Fits;
    var r, c := Appended(s, i), s.clusters[s.count];
    var init := s.clusters[..s.count];
    assert s.clusters == init + [c] && r.clusters == init + [c + [i]];
    FlattenSnoc(init, c);
    FlattenSnoc(init, c + [i]);
    assert Flatten(init) + (c + [i]) == Flatten(init) + c + [i];
    ClosedCostsLocal(t, s.clusters, r.clusters, s.count);
  }

  // ----- the clusterer

  class SinkClustering {
    const task: Task
    var order: seq<nat>
    var bestSolution: seq<seq<nat>>

    constructor (task: Task, order: seq<nat>)
      ensures this.task == task && this.order == order && bestSolution == []
    {
      this.task, this.order, bestSolution := task, order, [];
    }

    /** Puts the next point of a solution into its open cluster, or, when that would exceed a limit, into
        a new one. */
    method Assign(s: Solution, i: nat, ghost points: seq<nat>) returns (r: Solution)
      requires task.Valid() && Cuts(task, s, points) && Greedy(task, s.clusters) && i < |task.points|
      ensures Cuts(task, r, points + [i]) && Greedy(task, r.clusters) && r != NOTHING
    {
      hide Flatten, ClosedCosts, Greedy, Task.PinCap, Task.Diameter, Task.Reach, Task.CapCost, Task.Breaks, Task.IsLimitExceeded, Task.Fits;
      r := Allocated(s);
      AllocatedCuts(task, s, points);
      AllocatedGreedy(task, s);
      task.LimitIsBroken(r.clusters[r.count], i);
      var distanceCost, capCost := Measure(r.clusters[r.count], i);
      if task.IsLimitExceeded(|r.clusters[r.count]|, distanceCost, capCost) {
        ClosedCuts(task, r, points);
        GreedyOpen(task, r.clusters, i);
        OpenedWith(r.clusters, i);
        r := Closed(task, r);
        task.Single(i);
        assert [] + [i] == [i];
        AppendedCuts(task, r, points, i);
      } else {
        task.JoiningFits(r.clusters[r.count], i);
        GreedyJoin(task, r.clusters, i);
        AppendedCuts(task, r, points, i);
        if distanceCost > r.previousCost {
          r := r.(previousCost := distanceCost);
        }
      }
      r := Appended(r, i);
    }

    /** The distance and capacitance costs of a point joining a cluster. */
    method Measure(c: seq<nat>, i: nat) returns (distanceCost: real, capCost: real)
      requires task.Valid() && task.Indices(c) && i < |task.points|
      ensures distanceCost == task.Reach(c, i) && capCost == task.CapCost(c, i)
    {
      distanceCost, capCost := 0.0, task.caps[i];
      assert task.Reach([], i) == 0.0 && task.CapCost([], i) == task.caps[i];
      hide Task.Dist, Task.Reach, Task.CapCost, Task.Load;
      for k := 0 to |c|
        invariant distanceCost == task.Reach(c[..k], i) && capCost == task.CapCost(c[..k], i)
      {
        var cost := task.Dist(i, c[k]);
        task.OneMore(c, k, i);
        if task.useMaxCap {
          capCost := capCost + task.Load(cost, c[k]);
        }
        if cost > distanceCost {
          distanceCost := cost;
        }
      }
      assert c[..|c|] == c;
    }

    /** Builds one solution for each of the first `groupSize` starting points, then picks the cheapest.
        Solution j goes round the whole order once, beginning with its j-th point. */
    method FindBestMatching() returns (best: nat, solutions: seq<Solution>)
      requires task.Valid() && task.groupSize <= |order| && task.Indices(order)
      modifies this`bestSolution
      ensures |solutions| == task.groupSize && best < task.groupSize && bestSolution == solutions[best].clusters
      ensures forall j :: 0 <= j < task.groupSize ==> Cuts(task, solutions[j], order[j..] + order[..j])
      ensures forall j :: 0 <= j < task.groupSize ==> Greedy(task, solutions[j].clusters)
      ensures forall j :: 0 <= j < task.groupSize ==> if j < best then solutions[best].cost < solutions[j].cost else solutions[best].cost <= solutions[j].cost
    {
      hide Cuts, Greedy;
      solutions := FirstRound();
      solutions := SecondRound(solutions);
      best := 0;
      var bestCost := solutions[0].cost;
      for j := 1 to task.groupSize
        invariant best < j && bestCost == solutions[best].cost
        invariant forall l :: 0 <= l < j ==> if l < best then bestCost < solutions[l].cost else bestCost <= solutions[l].cost
      {
        if solutions[j].cost < bestCost {
          best, bestCost := j, solutions[j].cost;
        }
      }
      bestSolution := solutions[best].clusters;
    }

    /** Each solution takes the points from its own first one to the end. */
    method FirstRound() returns (solutions: seq<Solution>)
      requires task.Valid() && task.groupSize <= |order| && task.Indices(order)
      ensures |solutions| == task.groupSize
      ensures forall j :: 0 <= j < task.groupSize ==> Cuts(task, solutions[j], order[j..]) && Greedy(task, solutions[j].clusters)
    {
      hide Cuts, Greedy;
      var groupSize, n := task.groupSize, |order|;
      solutions := seq(groupSize, _ => NOTHING);
      forall j | 0 <= j < groupSize
        ensures Cuts(task, solutions[j], order[j..Least(0 + j, n)]) && Greedy(task, solutions[j].clusters)
      {
        NothingCuts(task);
        assert order[j..j] == [];
      }
      for i := 0 to n
        invariant |solutions| == groupSize
        invariant forall j :: 0 <= j < groupSize ==> Cuts(task, solutions[j], order[j..Least(i + j, n)]) && Greedy(task, solutions[j].clusters)
      {
        for j := 0 to groupSize
          invariant |solutions| == groupSize && forall l :: 0 <= l < groupSize ==> Greedy(task, solutions[l].clusters)
          invariant forall l :: 0 <= l < j ==> Cuts(task, solutions[l], order[l..Least(i + 1 + l, n)])
          invariant forall l :: j <= l < groupSize ==> Cuts(task, solutions[l], order[l..Least(i + l, n)])
        {
          if !(i + j >= n) {
            var s := Assign(solutions[j], order[i + j], order[j..i + j]);
            assert order[j..i + j] + [order[i + j]] == order[j..i + j + 1];
            solutions := solutions[j := s];
          }
        }
      }
      assert forall j :: 0 <= j < groupSize ==> order[j..] == order[j..Least(n + j, n)];
    }

    /** Then the points before its first one. */
    method SecondRound(solutions0: seq<Solution>) returns (solutions: seq<Solution>)
      requires task.Valid() && task.groupSize <= |order| && task.Indices(order) && |solutions0| == task.groupSize
      requires forall j :: 0 <= j < task.groupSize ==> Cuts(task, solutions0[j], order[j..]) && Greedy(task, solutions0[j].clusters)
      ensures |solutions| == task.groupSize
      ensures forall j :: 0 <= j < task.groupSize ==> Cuts(task, solutions[j], order[j..] + order[..j]) && Greedy(task, solutions[j].clusters)
    {
      hide Cuts, Greedy;
      solutions := solutions0;
      assert forall j :: 0 <= j < task.groupSize ==> order[j..] == order[j..] + order[..Least(0, j)];
      for i := 0 to task.groupSize
        invariant |solutions| == task.groupSize && forall j :: 0 <= j < task.groupSize ==> Greedy(task, solutions[j].clusters)
        invariant forall j :: 0 <= j < task.groupSize ==> Cuts(task, solutions[j], order[j..] + order[..Least(i, j)])
      {
        for j := i + 1 to task.groupSize
          invariant |solutions| == task.groupSize && forall l :: 0 <= l < task.groupSize ==> Greedy(task, solutions[l].clusters)
          invariant forall l :: 0 <= l < j ==> Cuts(task, solutions[l], order[l..] + order[..Least(i + 1, l)])
          invariant forall l :: j <= l < task.groupSize ==> Cuts(task, solutions[l], order[l..] + order[..Least(i, l)])
        {
          var s := Assign(solutions[j], order[i], order[j..] + order[..i]);
          assert order[j..] + order[..i] + [order[i]] == order[j..] + order[..i + 1];
          solutions := solutions[j := s];
        }
      }
    }

    static function Least(a: int, b: int): int {
      if a <= b then a else b
    }
  }

  /** Going round once from anywhere cuts all points: every point is in exactly one cluster. */
  lemma {:induction false} RotationPartitions(t: Task, s: Solution, order: seq<nat>, j: nat)
    requires j <= |order| && Cuts(t, s, order[j..] + order[..j])
    ensures multiset(Flatten(s.clusters)) == multiset(order)
  {
    assert Flatten(s.clusters) == order[j..] + order[..j];
    hide Cuts, Flatten;
    assert order == order[..j] + order[j..];
  }
}
