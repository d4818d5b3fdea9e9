/** A clock's nets as values (Clock.h): what makes them a tree, how deep a net hangs, and what the
    elementary edits of the clock tree do to both. */
module ClockTree {
  import opened Permutations

  /** An instance of the clock. `cell` is the design cell whose input pin a sink stands for, or NO_PIN. */
  datatype Inst = Inst(id: nat, cell: int)

  const NO_PIN: int := -1

  predicate HasPin(x: Inst) {
    x.cell >= 0
  }

  datatype Net = Net(driver: Inst, sinks: seq<Inst>) {
    predicate Has(x: Inst) {
      x == driver || x in sinks
    }
  }

  type Nets = seq<Net>

  /** Net i drives net j. */
  ghost predicate Feeds(nets: Nets, i: int, j: int) {
    0 <= i < |nets| && 0 <= j < |nets| && nets[j].driver in nets[i].sinks
  }

  /** Net j is d buffers below the root net. */
  ghost predicate Reach(nets: Nets, root: nat, j: int, d: nat)
    decreases d
  {
    && 0 <= j < |nets|
    && if d == 0 then j == root
       else exists i {:trigger Feeds(nets, i, j)} :: 0 <= i < |nets| && Feeds(nets, i, j) && Reach(nets, root, i, d - 1)
  }

  ghost predicate Connected(nets: Nets, root: nat, j: int) {
    exists d: nat :: Reach(nets, root, j, d)
  }

  /** No instance is a sink twice, no two nets share a driver, and nothing drives the root. */
  ghost predicate Once(nets: Nets, root: nat) {
    && root < |nets|
    && (forall i :: 0 <= i < |nets| ==> Distinct(nets[i].sinks))
    && (forall i, j, x: Inst {:trigger x in nets[i].sinks, x in nets[j].sinks} ::
          0 <= i < |nets| && 0 <= j < |nets| && x in nets[i].sinks && x in nets[j].sinks ==> i == j)
    && (forall i, j {:trigger nets[i], nets[j]} :: 0 <= i < j < |nets| ==> nets[i].driver != nets[j].driver)
    && (forall i :: 0 <= i < |nets| ==> nets[root].driver !in nets[i].sinks)
  }

  ghost predicate Tree(nets: Nets, root: nat) {
    Once(nets, root) && forall j :: 0 <= j < |nets| ==> Connected(nets, root, j)
  }

  /** x is a sink of some net. */
  ghost predicate Hangs(nets: Nets, x: Inst) {
    exists i :: 0 <= i < |nets| && x in nets[i].sinks
  }

  /** x is a sink, d buffers below the root net. */
  ghost predicate Placed(nets: Nets, root: nat, x: Inst, d: nat) {
    exists i :: 0 <= i < |nets| && x in nets[i].sinks && Reach(nets, root, i, d)
  }

  /** b occurs nowhere. */
  ghost predicate Unused(nets: Nets, b: Inst) {
    forall i :: 0 <= i < |nets| ==> !nets[i].Has(b)
  }

  /** No instance has this number or a higher one. */
  ghost predicate Below(nets: Nets, id: nat) {
    forall i, x: Inst {:trigger nets[i].Has(x)} :: 0 <= i < |nets| && nets[i].Has(x) ==> x.id < id
  }

  /** In a tree the depth of a net is unique: all paths from the root are equally long. */
  lemma {:induction false} DepthUnique(nets: Nets, root: nat, j: int, d: nat, e: nat)
    requires Once(nets, root) && Reach(nets, root, j, d) && Reach(nets, root, j, e)
    ensures d == e
    decreases d
  {
    if d > 0 && e > 0 {
      var i :| 0 <= i < |nets| && Feeds(nets, i, j) && Reach(nets, root, i, d - 1);
      var k :| 0 <= k < |nets| && Feeds(nets, k, j) && Reach(nets, root, k, e - 1);
      DepthUnique(nets, root, i, d - 1, e - 1);
    }
  }

  /** Nets of `nets` feed each other in `nets'` too. */
  ghost predicate Embeds(nets: Nets, nets': Nets) {
    |nets| <= |nets'| && forall i, j :: Feeds(nets, i, j) ==> Feeds(nets', i, j)
  }

  lemma {:induction false} ReachEmbeds(nets: Nets, nets': Nets, root: nat, j: int, d: nat)
    requires Embeds(nets, nets') && Reach(nets, root, j, d)
    ensures Reach(nets', root, j, d)
    decreases d
  {
    if d > 0 {
      var i :| 0 <= i < |nets| && Feeds(nets, i, j) && Reach(nets, root, i, d - 1);
      ReachEmbeds(nets, nets', root, i, d - 1);
      assert Feeds(nets', i, j);
    }
  }

  /** All nets keep their depths. */
  ghost predicate DepthsKept(nets: Nets, nets': Nets, root: nat) {
    forall j, d: nat {:trigger Reach(nets, root, j, d)} :: Reach(nets, root, j, d) ==> Reach(nets', root, j, d)
  }

  lemma EmbeddingKeepsDepths(nets: Nets, nets': Nets, root: nat)
    requires Embeds(nets, nets')
    ensures DepthsKept(nets, nets', root)
    ensures forall j :: Connected(nets, root, j) ==> Connected(nets', root, j)
  {
    forall j, d: nat | Reach(nets, root, j, d)
      ensures Reach(nets', root, j, d)
    {
      ReachEmbeds(nets, nets', root, j, d);
    }
  }

  lemma DepthsKeptTwice(a: Nets, b: Nets, c: Nets, root: nat)
    requires DepthsKept(a, b, root) && DepthsKept(b, c, root)
    ensures DepthsKept(a, c, root)
  {
  }

  // ----- a new buffer below a net, with a net of its own

  function Grow(nets: Nets, i: nat, b: Inst): Nets
    requires i < |nets|
  {
    nets[i := nets[i].(sinks := nets[i].sinks + [b])] + [Net(b, [])]
  }

  lemma {:induction false} GrowOnce(nets: Nets, root: nat, i: nat, b: Inst)
    requires Once(nets, root) && i < |nets| && Unused(nets, b)
    ensures Once(Grow(nets, i, b), root) && Embeds(nets, Grow(nets, i, b))
  {
    assert forall j :: 0 <= j < |nets| ==> nets[j].Has(nets[j].driver);
  }

  lemma {:induction false} GrowTree(nets: Nets, root: nat, i: nat, b: Inst)
    requires Tree(nets, root) && i < |nets| && Unused(nets, b)
    ensures Tree(Grow(nets, i, b), root) && DepthsKept(nets, Grow(nets, i, b), root)
    ensures forall d: nat :: Reach(nets, root, i, d) ==> Reach(Grow(nets, i, b), root, |nets|, d + 1)
  {
    var nets' := Grow(nets, i, b);
    GrowOnce(nets, root, i, b);
    EmbeddingKeepsDepths(nets, nets', root);
    assert Feeds(nets', i, |nets|);
    forall d: nat | Reach(nets, root, i, d)
      ensures Reach(nets', root, |nets|, d + 1)
    {
      assert Reach(nets', root, i, d);
    }
    assert Connected(nets, root, i);
    var d: nat :| Reach(nets, root, i, d);
    assert Reach(nets', root, |nets|, d + 1);
  }

  // ----- more sinks for a net

  function AddSinks(nets: Nets, i: nat, xs: seq<Inst>): Nets
    requires i < |nets|
  {
    nets[i := nets[i].(sinks := nets[i].sinks + xs)]
  }

  lemma AddToLast(nets: Nets, b: Inst, x: Inst)
    ensures AddSinks(nets + [Net(b, [])], |nets|, [x]) == nets + [Net(b, [x])]
  {
    assert [] + [x] == [x];
  }

  lemma {:induction false} AddTree(nets: Nets, root: nat, i: nat, xs: seq<Inst>)
    requires Tree(nets, root) && i < |nets| && Distinct(xs)
    requires forall x :: x in xs ==> !Hangs(nets, x) && x != nets[root].driver
    ensures Tree(AddSinks(nets, i, xs), root) && DepthsKept(nets, AddSinks(nets, i, xs), root)
  {
    var nets', old_ := AddSinks(nets, i, xs), nets[i].sinks;
    forall p, q | 0 <= p < q < |nets'[i].sinks|
      ensures nets'[i].sinks[p] != nets'[i].sinks[q]
    {
      if p < |old_| <= q {
        assert !Hangs(nets, xs[q - |old_|]) && old_[p] in old_;
      }
    }
    EmbeddingKeepsDepths(nets, nets', root);
  }

  // ----- taking sinks away

  function Without(s: seq<Inst>, gone: set<Inst>): (r: seq<Inst>)
    ensures forall x :: x in r <==> x in s && x !in gone
  {
    if s == [] then [] else
    if s[0] in gone then Without(s[1..], gone)
    else [s[0]] + Without(s[1..], gone)
  }

  lemma {:induction false} WithoutDistinct(s: seq<Inst>, gone: set<Inst>)
    requires Distinct(s)
    ensures Distinct(Without(s, gone))
  {
    if s != [] {
      WithoutDistinct(s[1..], gone);
    }
  }

  lemma {:induction false} WithoutSnoc(s: seq<Inst>, x: Inst, gone: set<Inst>)
    ensures Without(s + [x], gone) == Without(s, gone) + if x in gone then [] else [x]
  {
    if s == [] {
      assert s + [x] == [x];
    } else {
      assert (s + [x])[1..] == s[1..] + [x];
      WithoutSnoc(s[1..], x, gone);
    }
  }

  function RemoveSinks(nets: Nets, i: nat, gone: set<Inst>): Nets
    requires i < |nets|
  {
    nets[i := nets[i].(sinks := Without(nets[i].sinks, gone))]
  }

  lemma {:induction false} RemoveTree(nets: Nets, root: nat, i: nat, gone: set<Inst>)
    requires Tree(nets, root) && i < |nets|
    requires forall x, j :: x in gone && 0 <= j < |nets| ==> nets[j].driver != x
    ensures Tree(RemoveSinks(nets, i, gone), root) && DepthsKept(nets, RemoveSinks(nets, i, gone), root)
  {
    var nets' := RemoveSinks(nets, i, gone);
    WithoutDistinct(nets[i].sinks, gone);
    EmbeddingKeepsDepths(nets, nets', root);
  }

  // ----- a buffer spliced in between a net and one of its sinks

  function Splice(nets: Nets, i: nat, k: nat, b: Inst): Nets
    requires i < |nets| && k < |nets[i].sinks|
  {
    nets[i := nets[i].(sinks := nets[i].sinks[k := b])] + [Net(b, [nets[i].sinks[k]])]
  }

  lemma {:induction false} UpdateMembers(s: seq<Inst>, k: nat, b: Inst)
    requires k < |s| && Distinct(s) && b !in s
    ensures Distinct(s[k := b]) && b in s[k := b]
    ensures forall y :: y in s[k := b] <==> y == b || (y in s && y != s[k])
  {
    var t := s[k := b];
    forall y | y in s && y != s[k]
      ensures y in t
    {
      var p :| 0 <= p < |s| && s[p] == y;
      assert t[p] == y;
    }
    assert t[k] == b;
  }

  /** Old nets stay reachable, one buffer further down if they hang below the spliced sink. */
  lemma {:induction false} SpliceReach(nets: Nets, root: nat, i: nat, k: nat, b: Inst, j: int, d: nat)
    requires Once(nets, root) && i < |nets| && k < |nets[i].sinks| && Unused(nets, b) && Reach(nets, root, j, d)
    ensures Connected(Splice(nets, i, k, b), root, j)
    decreases d
  {
    var nets', n := Splice(nets, i, k, b), |nets|;
    UpdateMembers(nets[i].sinks, k, b);
    if d == 0 {
      assert Reach(nets', root, j, 0);
    } else {
      var p :| 0 <= p < |nets| && Feeds(nets, p, j) && Reach(nets, root, p, d - 1);
      SpliceReach(nets, root, i, k, b, p, d - 1);
      var e: nat :| Reach(nets', root, p, e);
      if p == i && nets[j].driver == nets[i].sinks[k] {
        assert Feeds(nets', i, n) && Reach(nets', root, n, e + 1);
        assert Feeds(nets', n, j) && Reach(nets', root, j, e + 2);
      } else {
        assert Feeds(nets', p, j) && Reach(nets', root, j, e + 1);
      }
    }
  }

  /** The net the buffer went into keeps its depth: it does not hang below its own sink. */
  lemma {:induction false} SpliceDepth(nets: Nets, root: nat, i: nat, k: nat, b: Inst, j: int, d: nat)
    requires Once(nets, root) && i < |nets| && k < |nets[i].sinks| && Unused(nets, b) && Reach(nets, root, j, d)
    requires forall e: nat :: Reach(nets, root, i, e) ==> d <= e
    ensures Reach(Splice(nets, i, k, b), root, j, d)
    decreases d
  {
    if d > 0 {
      UpdateMembers(nets[i].sinks, k, b);
      var p :| 0 <= p < |nets| && Feeds(nets, p, j) && Reach(nets, root, p, d - 1);
      SpliceDepth(nets, root, i, k, b, p, d - 1);
      assert p != i;
      assert Feeds(Splice(nets, i, k, b), p, j);
    }
  }

  /** Who is a sink of which net after splicing. */
  lemma {:induction false} SpliceOnce(nets: Nets, root: nat, i: nat, k: nat, b: Inst)
    requires Once(nets, root) && i < |nets| && k < |nets[i].sinks| && Unused(nets, b)
    ensures Once(Splice(nets, i, k, b), root)
  {
    var nets', n, s := Splice(nets, i, k, b), |nets|, nets[i].sinks[k];
    UpdateMembers(nets[i].sinks, k, b);
    assert s in nets[i].sinks;
    forall p, y | 0 <= p <= n && y in nets'[p].sinks
      ensures if y == b then p == i else if y == s then p == n else p < n && y in nets[p].sinks
    {
      if p != i && p != n {
        assert nets'[p] == nets[p] && nets[p].Has(y);
      }
    }
    forall p | 0 <= p < n
      ensures nets'[p].driver == nets[p].driver && nets[p].Has(nets[p].driver)
    {
    }
  }

  lemma {:induction false} SpliceTree(nets: Nets, root: nat, i: nat, k: nat, b: Inst)
    requires Tree(nets, root) && i < |nets| && k < |nets[i].sinks| && Unused(nets, b)
    ensures Tree(Splice(nets, i, k, b), root)
    ensures forall d: nat :: Reach(nets, root, i, d) ==>
      Reach(Splice(nets, i, k, b), root, i, d) && Reach(Splice(nets, i, k, b), root, |nets|, d + 1)
  {
    var nets', n := Splice(nets, i, k, b), |nets|;
    UpdateMembers(nets[i].sinks, k, b);
    SpliceOnce(nets, root, i, k, b);
    forall d: nat | Reach(nets, root, i, d)
      ensures Reach(nets', root, i, d) && Reach(nets', root, n, d + 1)
    {
      forall e: nat | Reach(nets, root, i, e)
        ensures d <= e
      {
        DepthUnique(nets, root, i, d, e);
      }
      SpliceDepth(nets, root, i, k, b, i, d);
      assert Feeds(nets', i, n);
    }
    assert Connected(nets, root, i);
    forall j | 0 <= j < |nets'|
      ensures Connected(nets', root, j)
    {
      if j < n {
        assert Connected(nets, root, j);
        var d: nat :| Reach(nets, root, j, d);
        SpliceReach(nets, root, i, k, b, j, d);
      } else {
        var d: nat :| Reach(nets, root, i, d);
        assert Reach(nets', root, n, d + 1);
      }
    }
  }
}
