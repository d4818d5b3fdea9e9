/** How far the level balancer has got with a builder, and that each of its steps gets further
    (LevelBalancer.cpp). */
module LevelProgress {
  import opened Permutations
  import opened ClockTree
  import opened ClockNet
  import opened ClockSplice
  import opened LevelSteps
  import opened LevelSpec
  import opened Options

  // ----- how far balancing a builder has got

  /** Not balanced yet: in `todo`, or in a net not looked at. */
  ghost predicate Pending(was: Nets, i: nat, todo: set<Inst>, x: Inst) {
    x in todo || exists j :: i <= j < |was| && x in was[j].sinks
  }

  ghost predicate GateOf(was: Nets, b: Builder, k: int, x: Inst) {
    0 <= k < |b.children| && HasPin(x) && Hangs(was, x) && x.cell == b.children[k].driver
  }

  ghost predicate SameOn(s0: State, s: State, cs: set<Clock>) {
    cs <= s0.Keys && cs <= s.Keys && forall c :: c in cs ==> s[c] == s0[c]
  }

  /** A child and its gate are as they should be. */
  ghost predicate KidAt(s0: State, s: State, b: Builder, max: int, i: nat, todo: set<Inst>, k: int, x: Inst)
    requires b.clock in s0 && 0 <= k < |b.children|
  {
    && (Pending(s0[b.clock], i, todo, x) ==> SameOn(s0, s, Clocks(b.children[k])))
    && (!Pending(s0[b.clock], i, todo, x) ==> Balanced(s, b.children[k], max - Depth(b.children[k]), max))
  }

  /** Children behind pending gates are untouched, the others are balanced. */
  ghost predicate Kids(s0: State, s: State, b: Builder, max: int, i: nat, todo: set<Inst>)
    requires b.clock in s0
  {
    forall k, x {:trigger GateOf(s0[b.clock], b, k, x)} :: 0 <= k < |b.children| && GateOf(s0[b.clock], b, k, x) ==>
      KidAt(s0, s, b, max, i, todo, k, x)
  }

  /** Clocks that are not the builder's keep their nets, the others their pins. */
  ghost predicate Kept(s0: State, s: State, b: Builder) {
    && s0.Keys == s.Keys && Clocks(b) <= s.Keys
    && (forall c :: c in s && c !in Clocks(b) ==> s[c] == s0[c])
    && (forall c :: c in Clocks(b) && c != b.clock ==> SamePins(s0[c], s[c]))
  }

  /** What stays fixed while a builder is balanced. */
  ghost predicate Setup(s0: State, b: Builder, m: LevelMap, above: nat, max: nat) {
    && Separate(b) && Clocks(b) <= s0.Keys && Input(s0, b, m.Keys) && Mapped(m, b)
    && above + Depth(b) <= max
  }

  lemma ClocksOf(b: Builder, k: nat)
    requires k < |b.children|
    ensures Clocks(b.children[k]) <= Clocks(b)
  {
  }

  lemma {:induction false} KidFrame(s0: State, s: State, s': State, b: Builder, max: int, i: nat, todo: set<Inst>, k: nat, x: Inst)
    requires b.clock in s0 && k < |b.children| && SameOn(s, s', Clocks(b.children[k]))
    requires KidAt(s0, s, b, max, i, todo, k, x)
    ensures KidAt(s0, s', b, max, i, todo, k, x)
  {
    if !Pending(s0[b.clock], i, todo, x) {
      BalancedFrame(s, s', b.children[k], max - Depth(b.children[k]), max);
    }
  }

  /** Changing the builder's own clock does not concern its children. */
  lemma {:induction false} OwnClock(s0: State, s: State, b: Builder, max: int, i: nat, todo: set<Inst>, nets: Nets)
    requires b.clock in s0 && Separate(b) && Kids(s0, s, b, max, i, todo) && Kept(s0, s, b)
    ensures Kids(s0, s[b.clock := nets], b, max, i, todo) && Kept(s0, s[b.clock := nets], b)
  {
    forall k, x | 0 <= k < |b.children| && GateOf(s0[b.clock], b, k, x)
      ensures KidAt(s0, s[b.clock := nets], b, max, i, todo, k, x)
    {
      ClocksOf(b, k);
      KidFrame(s0, s, s[b.clock := nets], b, max, i, todo, k, x);
    }
  }

  /** Balancing one child leaves the clocks of the others alone. */
  lemma {:induction false} Untouched(s: State, s': State, b: Builder, k: nat, l: nat)
    requires Separate(b) && k < |b.children| && l < |b.children| && l != k
    requires Clocks(b) <= s.Keys && Kept(s, s', b.children[k])
    ensures SameOn(s, s', Clocks(b.children[l]))
  {
    ClocksOf(b, l);
    if k < l {
      assert Clocks(b.children[k]) !! Clocks(b.children[l]);
    } else {
      assert Clocks(b.children[l]) !! Clocks(b.children[k]);
    }
  }

  lemma OtherDrivers(b: Builder, k: nat, l: nat)
    requires Separate(b) && k < |b.children| && l < |b.children| && l != k && b.children[k].driver >= 0
    ensures b.children[k].driver != b.children[l].driver
  {
    var p, q := if k < l then k else l, if k < l then l else k;
    assert GatesAt(b.children[p]) !! GatesAt(b.children[q]);
    assert b.children[l].driver >= 0 ==> b.children[p].driver in GatesAt(b.children[p]) && b.children[q].driver in GatesAt(b.children[q]);
  }

  lemma {:induction false} KeptBelow(s0: State, s: State, s': State, b: Builder, k: nat)
    requires Separate(b) && k < |b.children| && Kept(s0, s, b) && Kept(s, s', b.children[k])
    requires SamePins(s[b.children[k].clock], s'[b.children[k].clock])
    ensures Kept(s0, s', b) && s'[b.clock] == s[b.clock]
  {
    ClocksOf(b, k);
    forall c | c in Clocks(b) && c != b.clock
      ensures SamePins(s0[c], s'[c])
    {
      assert SamePins(s0[c], s[c]) && SamePins(s[c], s'[c]);
    }
  }

  lemma {:induction false} OtherKid(s0: State, s: State, s': State, b: Builder, max: nat, i: nat, todo: set<Inst>, k: nat, g: Inst, l: nat, x: Inst)
    requires b.clock in s0 && Separate(b) && Clocks(b) <= s.Keys
    requires k < |b.children| && l < |b.children| && l != k && Kept(s, s', b.children[k]) && x != g
    requires KidAt(s0, s, b, max, i, todo, l, x)
    ensures KidAt(s0, s', b, max, i, todo - {g}, l, x)
  {
    Untouched(s, s', b, k, l);
    KidFrame(s0, s, s', b, max, i, todo, l, x);
  }

  /** Balancing the child behind a gate takes the gate off the list. */
  lemma {:induction false} ChildDone(s0: State, s: State, s': State, b: Builder, m: LevelMap, above: nat, max: nat, i: nat, todo: set<Inst>, k: nat, g: Inst)
    requires Setup(s0, b, m, above, max) && Kids(s0, s, b, max, i, todo) && Clocks(b) <= s.Keys
    requires k < |b.children| && GateOf(s0[b.clock], b, k, g) && !Pending(s0[b.clock], i, todo - {g}, g)
    requires Kept(s, s', b.children[k]) && Balanced(s', b.children[k], max - Depth(b.children[k]), max)
    ensures Kids(s0, s', b, max, i, todo - {g})
  {
    hide Balanced, SameOn, Kept, Clocks;
    forall l, x | 0 <= l < |b.children| && GateOf(s0[b.clock], b, l, x)
      ensures KidAt(s0, s', b, max, i, todo - {g}, l, x)
    {
      if l == k {
        OneGate(s0, b, m, k, g, x);
      } else {
        OtherDrivers(b, k, l);
        OtherKid(s0, s, s', b, max, i, todo, k, g, l, x);
      }
    }
  }

  /** A child has only one gate. */
  lemma OneGate(s0: State, b: Builder, m: LevelMap, k: nat, g: Inst, x: Inst)
    requires b.clock in s0 && Wired(s0[b.clock], b, m.Keys) && Mapped(m, b) && k < |b.children|
    requires GateOf(s0[b.clock], b, k, g) && GateOf(s0[b.clock], b, k, x)
    ensures x == g
  {
    assert Entered(m, b.children[k]);
  }

  /** When no gate is pending and all pins are on target, the builder is balanced. */
  lemma {:induction false} AllDone(s0: State, s: State, b: Builder, m: LevelMap, above: nat, max: nat)
    requires Setup(s0, b, m, above, max) && b.clock in s && Kids(s0, s, b, max, |s0[b.clock]|, {})
    requires Partly(s0[b.clock], s[b.clock], b.clock.root, |s0[b.clock]|, {}, Target(m, above, max))
    ensures Balanced(s, b, above, max)
  {
    hide Tree;
    var was, now := s0[b.clock], s[b.clock];
    forall x, d: nat | Pin(now, b.clock.root, x, d)
      ensures d == Target(m, above, max)(x) && Hangs(was, x)
    {
      var j :| 0 <= j < |now| && x in now[j].sinks && Reach(now, b.clock.root, j, d);
      assert OnTarget(now, b.clock.root, j, Target(m, above, max));
      assert Hangs(now, x);
    }
    forall k, x, d: nat | 0 <= k < |b.children| && Gate(now, b, k, x, d)
      ensures Balanced(s, b.children[k], above + d + 2, max)
    {
      assert GateOf(was, b, k, x) && !Pending(was, |was|, {}, x) && Entered(m, b.children[k]);
      assert above + d + 2 == max - Depth(b.children[k]);
    }
  }

  /** A builder whose sinks are at the maximum already has no gates. */
  lemma {:induction false} NothingToDo(s: State, b: Builder, m: LevelMap, above: nat, max: nat)
    requires Setup(s, b, m, above, max) && above + b.levels >= max
    ensures Balanced(s, b, above, max)
  {
    if |b.children| > 0 {
      DeeperThanChildren(b, |b.children|, 0);
    }
  }

  /** How deep a pin's net is, and where its cluster of sinks belongs. */
  lemma {:induction false} ClusterTarget(s0: State, b: Builder, m: LevelMap, above: nat, max: nat, i: nat, x: Inst, d: nat)
    requires Setup(s0, b, m, above, max) && i < |s0[b.clock]| && x in s0[b.clock][i].sinks && HasPin(x)
    requires Reach(s0[b.clock], b.clock.root, i, d)
    ensures above + b.levels + LevelsBelow(m, x) <= max
    ensures Target(m, above, max)(x) == d + (max - (above + b.levels + LevelsBelow(m, x)))
    ensures x.cell in m ==> exists k :: 0 <= k < |b.children| && GateOf(s0[b.clock], b, k, x) && m[x.cell] == (Depth(b.children[k]) + 1, b.children[k])
  {
    assert Hangs(s0[b.clock], x) && Pin(s0[b.clock], b.clock.root, x, d);
    if x.cell in m {
      var k :| 0 <= k < |b.children| && b.children[k].driver == x.cell;
      assert GateOf(s0[b.clock], b, k, x) && Entered(m, b.children[k]);
      DeeperThanChildren(b, |b.children|, k);
    }
  }

  // ----- the steps of balancing one builder

  /** The first i nets are done but for `todo`; gates still in `pending` have unbalanced children. */
  ghost predicate Going(s0: State, s: State, b: Builder, m: LevelMap, above: nat, max: nat, i: nat, todo: set<Inst>, pending: set<Inst>) {
    && Setup(s0, b, m, above, max) && Kept(s0, s, b)
    && Partly(s0[b.clock], s[b.clock], b.clock.root, i, todo, Target(m, above, max))
    && Kids(s0, s, b, max, i, pending)
  }

  lemma NetsLeft(s0: State, s: State, b: Builder, m: LevelMap, above: nat, max: nat, i: nat, todo: set<Inst>, pending: set<Inst>)
    requires Going(s0, s, b, m, above, max, i, todo, pending)
    ensures b.clock in s0 && b.clock in s && |s0[b.clock]| <= |s[b.clock]| && s.Keys == s0.Keys
    ensures forall j {:trigger s[b.clock][j]} :: i <= j < |s0[b.clock]| ==> s[b.clock][j] == s0[b.clock][j]
    ensures Setup(s0, b, m, above, max)
  {
  }

  lemma {:induction false} Start(s0: State, b: Builder, m: LevelMap, above: nat, max: nat)
    requires Setup(s0, b, m, above, max)
    ensures Going(s0, s0, b, m, above, max, 0, {}, {})
  {
    forall k, x | 0 <= k < |b.children| && GateOf(s0[b.clock], b, k, x)
      ensures KidAt(s0, s0, b, max, 0, {}, k, x)
    {
      ClocksOf(b, k);
    }
  }

  /** Pins taken off a net become the ones to do. */
  lemma {:induction false} KidsMove(s0: State, s: State, b: Builder, max: int, i: nat, gone: set<Inst>)
    requires b.clock in s0 && i < |s0[b.clock]| && Kids(s0, s, b, max, i, {})
    requires forall x :: x in gone <==> x in s0[b.clock][i].sinks && HasPin(x)
    ensures Kids(s0, s, b, max, i + 1, gone)
  {
    forall k, x | 0 <= k < |b.children| && GateOf(s0[b.clock], b, k, x)
      ensures KidAt(s0, s, b, max, i + 1, gone, k, x)
    {
      assert Pending(s0[b.clock], i + 1, gone, x) <==> Pending(s0[b.clock], i, {}, x);
      assert KidAt(s0, s, b, max, i, {}, k, x);
    }
  }

  lemma {:induction false} TakeOffStep(s0: State, s: State, b: Builder, m: LevelMap, above: nat, max: nat, i: nat, gone: set<Inst>)
    requires Going(s0, s, b, m, above, max, i, {}, {}) && i < |s0[b.clock]|
    requires forall x :: x in gone <==> x in s0[b.clock][i].sinks && HasPin(x)
    ensures i < |s[b.clock]|
    ensures Going(s0, s[b.clock := RemoveSinks(s[b.clock], i, gone)], b, m, above, max, i + 1, gone, gone)
  {
    TakeOff(s0[b.clock], s[b.clock], b.clock.root, i, gone, Target(m, above, max));
    KidsMove(s0, s, b, max, i, gone);
    OwnClock(s0, s, b, max, i + 1, gone, RemoveSinks(s[b.clock], i, gone));
  }

  lemma {:induction false} WithoutNone(s: seq<Inst>)
    ensures Without(s, {}) == s
  {
    if s != [] {
      WithoutNone(s[1..]);
    }
  }

  /** A net without pins needs nothing. */
  lemma {:induction false} SkipStep(s0: State, s: State, b: Builder, m: LevelMap, above: nat, max: nat, i: nat)
    requires Going(s0, s, b, m, above, max, i, {}, {}) && i < |s0[b.clock]|
    requires forall x :: x in s0[b.clock][i].sinks ==> !HasPin(x)
    ensures Going(s0, s, b, m, above, max, i + 1, {}, {})
  {
    TakeOffStep(s0, s, b, m, above, max, i, {});
    WithoutNone(s[b.clock][i].sinks);
    assert RemoveSinks(s[b.clock], i, {}) == s[b.clock];
    assert s[b.clock := s[b.clock]] == s;
  }

  /** One cluster is hung below net i - 1, at the end of its chain. */
  function Hung(nets: Nets, i: nat, id: nat, n: nat, cluster: seq<Inst>): Nets
    requires i < |nets|
  {
    AddSinks(Chain(nets, i, None, id, n), ChainEnd(nets, i, n), cluster)
  }

  lemma {:induction false} HangPartly(was: Nets, now: Nets, root: nat, i: nat, todo: set<Inst>, target: Inst -> int,
                                      id: nat, n: nat, cluster: seq<Inst>, d: nat)
    requires Partly(was, now, root, i + 1, todo, target) && i < |was| && Below(now, id) && Distinct(cluster)
    requires Reach(was, root, i, d) && forall x :: x in cluster ==> x in todo && target(x) == d + n
    ensures Partly(was, Hung(now, i, id, n, cluster), root, i + 1, todo - (set x | x in cluster), target)
  {
    hide Chain, Connected, Reach;
    ChainPartly(was, now, root, i + 1, todo, target, i, id, n);
    ChainDepth(now, root, i, None, id, n, d);
    PutBack(was, Chain(now, i, None, id, n), root, i + 1, todo, target, ChainEnd(now, i, n), cluster, d + n);
  }

  lemma {:induction false} HangStep(s0: State, s: State, b: Builder, m: LevelMap, above: nat, max: nat, i: nat, todo: set<Inst>,
                                    id: nat, level: nat, cluster: seq<Inst>)
    requires Going(s0, s, b, m, above, max, i + 1, todo, todo) && i < |s0[b.clock]| && Below(s[b.clock], id)
    requires Distinct(cluster) && level <= max
    requires forall x :: x in cluster ==> x in todo && x in s0[b.clock][i].sinks && HasPin(x) && above + b.levels + LevelsBelow(m, x) == level
    ensures i < |s[b.clock]|
    ensures Going(s0, s[b.clock := Hung(s[b.clock], i, id, max - level, cluster)], b, m, above, max, i + 1,
                  todo - (set x | x in cluster), todo)
  {
    hide Kids, Reach, Partly, Chain;
    NetsLeft(s0, s, b, m, above, max, i + 1, todo, todo);
    var was := s0[b.clock];
    assert Connected(was, b.clock.root, i);
    var d: nat :| Reach(was, b.clock.root, i, d);
    forall x | x in cluster
      ensures Target(m, above, max)(x) == d + (max - level)
    {
      ClusterTarget(s0, b, m, above, max, i, x, d);
    }
    HangPartly(was, s[b.clock], b.clock.root, i, todo, Target(m, above, max), id, max - level, cluster, d);
    OwnClock(s0, s, b, max, i + 1, todo, Hung(s[b.clock], i, id, max - level, cluster));
  }

  /** Sinks that are no gates have no children to wait for. */
  lemma {:induction false} KidsDrop(s0: State, s: State, b: Builder, m: LevelMap, max: int, i: nat, todo: set<Inst>, plain: set<Inst>)
    requires b.clock in s0 && Mapped(m, b) && Kids(s0, s, b, max, i, todo) && forall x :: x in plain ==> x.cell !in m
    ensures Kids(s0, s, b, max, i, todo - plain)
  {
    forall k, x | 0 <= k < |b.children| && GateOf(s0[b.clock], b, k, x)
      ensures KidAt(s0, s, b, max, i, todo - plain, k, x)
    {
      assert Entered(m, b.children[k]);
      assert KidAt(s0, s, b, max, i, todo, k, x);
    }
  }

  lemma {:induction false} DropStep(s0: State, s: State, b: Builder, m: LevelMap, above: nat, max: nat, i: nat,
                                    todo: set<Inst>, pending: set<Inst>, plain: set<Inst>)
    requires Going(s0, s, b, m, above, max, i, todo, pending) && forall x :: x in plain ==> x.cell !in m
    ensures Going(s0, s, b, m, above, max, i, todo, pending - plain)
  {
    KidsDrop(s0, s, b, m, max, i, pending, plain);
  }

  /** The child behind a pending gate is still as its builder left it. */
  lemma {:induction false} ChildReady(s0: State, s: State, b: Builder, m: LevelMap, above: nat, max: nat, i: nat,
                                      todo: set<Inst>, pending: set<Inst>, k: nat, g: Inst)
    requires Going(s0, s, b, m, above, max, i, todo, pending)
    requires k < |b.children| && GateOf(s0[b.clock], b, k, g) && g in pending
    ensures Depth(b.children[k]) <= max && Setup(s, b.children[k], m, max - Depth(b.children[k]), max)
  {
    ClocksOf(b, k);
    DeeperThanChildren(b, |b.children|, k);
    assert Entered(m, b.children[k]) && KidAt(s0, s, b, max, i, pending, k, g);
    InputFrame(s0, s, b.children[k], m.Keys);
  }

  /** A sink of net i is in no other net. */
  lemma OnlyThere(was: Nets, root: nat, i: nat, x: Inst, pending: set<Inst>)
    requires Once(was, root) && i < |was| && x in was[i].sinks
    ensures !Pending(was, i + 1, pending - {x}, x)
  {
  }

  /** The gate's child is balanced: one step further. */
  lemma {:induction false} GateStep(s0: State, s: State, s': State, b: Builder, m: LevelMap, above: nat, max: nat, i: nat,
                                    todo: set<Inst>, pending: set<Inst>, k: nat, g: Inst)
    requires Going(s0, s, b, m, above, max, i + 1, todo, pending) && i < |s0[b.clock]| && g in s0[b.clock][i].sinks
    requires k < |b.children| && GateOf(s0[b.clock], b, k, g)
    requires Kept(s, s', b.children[k]) && SamePins(s[b.children[k].clock], s'[b.children[k].clock])
    requires Balanced(s', b.children[k], max - Depth(b.children[k]), max)
    ensures Going(s0, s', b, m, above, max, i + 1, todo, pending - {g})
  {
    OnlyThere(s0[b.clock], b.clock.root, i, g, pending);
    hide Partly, Kids, Balanced, Kept;
    ChildDone(s0, s, s', b, m, above, max, i + 1, pending, k, g);
    KeptBelow(s0, s, s', b, k);
  }

  /** A cluster on the builder's own level has no gates; one below it has nothing else. */
  lemma {:induction false} ClusterKind(s0: State, b: Builder, m: LevelMap, above: nat, max: nat, i: nat, x: Inst)
    requires Setup(s0, b, m, above, max) && i < |s0[b.clock]| && x in s0[b.clock][i].sinks && HasPin(x)
    ensures LevelsBelow(m, x) == 0 <==> x.cell !in m
    ensures above + b.levels + LevelsBelow(m, x) <= max
    ensures x.cell in m ==> exists k :: 0 <= k < |b.children| && GateOf(s0[b.clock], b, k, x) && m[x.cell] == (Depth(b.children[k]) + 1, b.children[k])
  {
    assert Connected(s0[b.clock], b.clock.root, i);
    var d: nat :| Reach(s0[b.clock], b.clock.root, i, d);
    ClusterTarget(s0, b, m, above, max, i, x, d);
  }
}
