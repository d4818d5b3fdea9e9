/** Nested tree builders (TreeBuilder.h): how deep they are, and what it means that all their sinks are
    equally deep. Clock gates are sinks of a builder whose cell drives a child builder. */
module LevelSpec {
  import opened ClockTree
  import opened ClockNet
  import opened LevelSteps

  /** `driver` is the cell that drives the builder's clock, NO_PIN for a clock driven by a port. */
  datatype Builder = Builder(clock: Clock, levels: nat, driver: int, children: seq<Builder>)

  type State = map<Clock, Nets>

  ghost function Clocks(b: Builder): set<Clock> {
    {b.clock} + set k, c | 0 <= k < |b.children| && c in Clocks(b.children[k]) :: c
  }

  /** The cells that drive the builders below. */
  ghost function Gates(b: Builder): set<int>
    decreases b, |b.children| + 1
  {
    GatesBelow(b, |b.children|)
  }

  ghost function GatesBelow(b: Builder, n: nat): set<int>
    requires n <= |b.children|
    decreases b, n
  {
    if n == 0 then {} else GatesBelow(b, n - 1) + GatesAt(b.children[n - 1])
  }

  /** The cell that drives the builder, if any does, and those of the builders below it. */
  ghost function GatesAt(child: Builder): set<int>
    decreases child, |child.children| + 2
  {
    (if child.driver >= 0 then {child.driver} else {}) + Gates(child)
  }

  /** Buffers and gates on the deepest way down. */
  function Depth(b: Builder): nat
    decreases b, |b.children| + 1
  {
    b.levels + DepthBelow(b, |b.children|)
  }

  function DepthBelow(b: Builder, n: nat): nat
    requires n <= |b.children|
    decreases b, n
  {
    if n == 0 then 0
    else
      var rest, here := DepthBelow(b, n - 1), Depth(b.children[n - 1]) + 1;
      if here > rest then here else rest
  }

  lemma {:induction false} DeeperThanChildren(b: Builder, n: nat, k: nat)
    requires k < n <= |b.children|
    ensures DepthBelow(b, n) >= Depth(b.children[k]) + 1
  {
    if k < n - 1 {
      DeeperThanChildren(b, n - 1, k);
    }
  }

  /** Different builders have different clocks and are driven by different cells. */
  ghost predicate Separate(b: Builder) {
    && (forall k :: 0 <= k < |b.children| ==>
          && Separate(b.children[k]) && b.clock !in Clocks(b.children[k])
          && b.children[k].driver !in Gates(b.children[k]))
    && (forall k, l {:trigger b.children[k], b.children[l]} :: 0 <= k < l < |b.children| ==>
          && Clocks(b.children[k]) !! Clocks(b.children[l])
          && GatesAt(b.children[k]) !! GatesAt(b.children[l]))
  }

  /** x is a pinned sink of the builder's own clock, under d buffers besides the root buffer. */
  ghost predicate Pin(nets: Nets, root: nat, x: Inst, d: nat) {
    HasPin(x) && Placed(nets, root, x, d)
  }

  /** One clock as its builder leaves it: a tree whose pins are all under as many buffers as recorded. */
  ghost predicate Recorded(nets: Nets, root: nat, levels: nat) {
    && Tree(nets, root) && Buffered(nets)
    && forall x, d: nat :: Pin(nets, root, x, d) ==> d + 1 == levels
  }

  /** The gates among a clock's pins: every child that has one hangs at it, and only children do. */
  ghost predicate Wired(nets: Nets, b: Builder, gates: set<int>) {
    && (forall x :: HasPin(x) && Hangs(nets, x) && x.cell in gates ==> exists k :: 0 <= k < |b.children| && b.children[k].driver == x.cell)
    && (forall x, y :: HasPin(x) && Hangs(nets, x) && Hangs(nets, y) && x.cell == y.cell && x.cell in gates ==> x == y)
    && (forall k :: 0 <= k < |b.children| && b.children[k].driver >= 0 ==> exists x :: Hangs(nets, x) && x.cell == b.children[k].driver)
  }

  /** What the builders leave for balancing. */
  ghost predicate Input(s: State, b: Builder, gates: set<int>) {
    && b.clock in s && Recorded(s[b.clock], b.clock.root, b.levels) && Wired(s[b.clock], b, gates)
    && forall k :: 0 <= k < |b.children| && b.children[k].driver >= 0 ==> Input(s, b.children[k], gates)
  }

  /** Every pin that is no gate is at depth `max`, counting `above` buffers and gates on the way to the
      builder; and the same of the builders behind its gates. */
  ghost predicate Balanced(s: State, b: Builder, above: int, max: int) {
    && b.clock in s && Tree(s[b.clock], b.clock.root)
    && (forall x, d: nat :: Pin(s[b.clock], b.clock.root, x, d) && Plain(b, x) ==> above + d + 1 == max)
    && (forall k, x, d: nat {:trigger Gate(s[b.clock], b, k, x, d)} :: 0 <= k < |b.children| && Gate(s[b.clock], b, k, x, d) ==>
          Balanced(s, b.children[k], above + d + 2, max))
  }

  /** x is no gate. */
  ghost predicate Plain(b: Builder, x: Inst) {
    forall k :: 0 <= k < |b.children| ==> b.children[k].driver != x.cell
  }

  /** x is the gate of child k, under d buffers. */
  ghost predicate Gate(nets: Nets, b: Builder, k: int, x: Inst, d: nat) {
    0 <= k < |b.children| && Pin(nets, b.clock.root, x, d) && x.cell == b.children[k].driver
  }

  /** Somewhere in the nested builders, a pin that is no gate has exactly `depth` buffers and gates above it. */
  ghost predicate Sits(s: State, b: Builder, above: int, x: Inst, depth: int) {
    && b.clock in s
    && (|| (exists d: nat :: Pin(s[b.clock], b.clock.root, x, d) && depth == above + d + 1 && Plain(b, x))
        || (exists k, g, d: nat {:trigger Gate(s[b.clock], b, k, g, d)} :: 0 <= k < |b.children| && Gate(s[b.clock], b, k, g, d)
             && Sits(s, b.children[k], above + d + 2, x, depth)))
  }

  /** In balanced builders every sink, however deeply nested, is exactly `max` deep. */
  lemma {:induction false} AllAtMax(s: State, b: Builder, above: int, max: int, x: Inst, depth: int)
    requires Balanced(s, b, above, max) && Sits(s, b, above, x, depth)
    ensures depth == max
  {
    hide Tree, Pin;
    if !(exists d: nat :: Pin(s[b.clock], b.clock.root, x, d) && depth == above + d + 1 && Plain(b, x)) {
      var k, g, d: nat :| 0 <= k < |b.children| && Gate(s[b.clock], b, k, g, d) && Sits(s, b.children[k], above + d + 2, x, depth);
      AllAtMax(s, b.children[k], above + d + 2, max, x, depth);
    }
  }

  /** Balance is a matter of the builder's own clocks. */
  lemma {:induction false} BalancedFrame(s: State, s': State, b: Builder, above: int, max: int)
    requires Balanced(s, b, above, max) && Clocks(b) <= s'.Keys && forall c :: c in Clocks(b) && c in s ==> s'[c] == s[c]
    ensures Balanced(s', b, above, max)
  {
    forall k, x, d: nat | 0 <= k < |b.children| && Gate(s[b.clock], b, k, x, d)
      ensures Balanced(s', b.children[k], above + d + 2, max)
    {
      BalancedFrame(s, s', b.children[k], above + d + 2, max);
    }
  }

  lemma {:induction false} InputFrame(s: State, s': State, b: Builder, gates: set<int>)
    requires Input(s, b, gates) && Clocks(b) <= s'.Keys && forall c :: c in Clocks(b) && c in s ==> s'[c] == s[c]
    ensures Input(s', b, gates)
  {
    forall k | 0 <= k < |b.children| && b.children[k].driver >= 0
      ensures Input(s', b.children[k], gates)
    {
      InputFrame(s, s', b.children[k], gates);
    }
  }

  // ----- the map from gates to what they drive

  type LevelMap = map<int, (nat, Builder)>

  ghost predicate Mapped(m: LevelMap, b: Builder)
    decreases b, 0
  {
    forall k :: 0 <= k < |b.children| ==> Entered(m, b.children[k])
  }

  ghost predicate Entered(m: LevelMap, child: Builder)
    decreases child, 1
  {
    (child.driver >= 0 ==> child.driver in m && m[child.driver] == (Depth(child) + 1, child)) && Mapped(m, child)
  }

  lemma {:induction false} GatesOf(b: Builder, n: nat, k: nat)
    requires k < n <= |b.children|
    ensures GatesAt(b.children[k]) <= GatesBelow(b, n)
  {
    if k < n - 1 {
      GatesOf(b, n - 1, k);
    }
  }

  lemma {:induction false} EnteredFrame(m: LevelMap, m': LevelMap, child: Builder)
    requires Entered(m, child) && forall g :: g in GatesAt(child) && g in m ==> g in m' && m'[g] == m[g]
    ensures Entered(m', child)
  {
    forall k | 0 <= k < |child.children|
      ensures Entered(m', child.children[k])
    {
      GatesOf(child, |child.children|, k);
      assert Entered(m, child.children[k]) && Gates(child) <= GatesAt(child);
      EnteredFrame(m, m', child.children[k]);
    }
  }

  /** The levels below a sink: none unless it is a gate. */
  function LevelsBelow(m: LevelMap, x: Inst): nat {
    if x.cell in m then m[x.cell].0 else 0
  }

  /** The depth within its clock that makes a sink end up at `max`. */
  function Target(m: LevelMap, above: int, max: int): Inst -> int {
    x => max - above - 1 - LevelsBelow(m, x)
  }
}
