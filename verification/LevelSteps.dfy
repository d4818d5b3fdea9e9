/** What balancing does to one clock (LevelBalancer.cpp): the pinned sinks of one net after another are
    taken off and hung back at the ends of buffer chains, each at the depth it is meant to have. */
module LevelSteps {
  import opened Permutations
  import opened ClockTree
  import opened ClockSplice
  import opened Options

  /** The pins reached are the same ones. */
  ghost predicate SamePins(was: Nets, now: Nets) {
    forall x :: HasPin(x) ==> (Hangs(was, x) <==> Hangs(now, x))
  }

  /** Buffers drive the nets, not pins. */
  ghost predicate Buffered(nets: Nets) {
    forall j :: 0 <= j < |nets| ==> !HasPin(nets[j].driver)
  }

  /** Pinned sinks of net j are exactly where `target` wants them. */
  ghost predicate OnTarget(nets: Nets, root: nat, j: int, target: Inst -> int)
    requires 0 <= j < |nets|
  {
    forall x, d: nat {:trigger x in nets[j].sinks, Reach(nets, root, j, d)} ::
      x in nets[j].sinks && HasPin(x) && Reach(nets, root, j, d) ==> d == target(x)
  }

  /** Nets before i, and new ones, are on target; later ones are untouched; pins in `todo` hang nowhere. */
  ghost predicate Partly(was: Nets, now: Nets, root: nat, i: nat, todo: set<Inst>, target: Inst -> int) {
    && i <= |was| <= |now| && Tree(now, root) && Buffered(now) && DepthsKept(was, now, root)
    && (forall j {:trigger now[j]} :: i <= j < |was| ==> now[j] == was[j])
    && (forall j {:trigger OnTarget(now, root, j, target)} :: 0 <= j < |now| && (j < i || j >= |was|) ==> OnTarget(now, root, j, target))
    && (forall x :: HasPin(x) ==> (Hangs(was, x) <==> Hangs(now, x) || x in todo))
    && (forall x :: x in todo ==> HasPin(x) && !Hangs(now, x))
  }

  /** Taking all pins of the next net off. */
  lemma {:induction false} TakeOff(was: Nets, now: Nets, root: nat, i: nat, gone: set<Inst>, target: Inst -> int)
    requires Partly(was, now, root, i, {}, target) && i < |was|
    requires forall x :: x in gone <==> x in was[i].sinks && HasPin(x)
    ensures Partly(was, RemoveSinks(now, i, gone), root, i + 1, gone, target)
  {
    var now' := RemoveSinks(now, i, gone);
    RemoveTree(now, root, i, gone);
    DepthsKeptTwice(was, now, now', root);
    forall j | 0 <= j < |now'| && (j < i + 1 || j >= |was|)
      ensures OnTarget(now', root, j, target)
    {
      if j == i {
        assert forall x :: x in now'[i].sinks ==> !HasPin(x);
      } else {
        SameDepth(now, now', root, j);
        assert OnTarget(now, root, j, target) && now'[j] == now[j];
      }
    }
    forall x | HasPin(x)
      ensures Hangs(now, x) <==> Hangs(now', x) || x in gone
      ensures x in gone ==> !Hangs(now', x)
    {
      if Hangs(now, x) {
        var j :| 0 <= j < |now| && x in now[j].sinks;
        if j != i {
          assert x in now'[j].sinks;
        }
      }
      if x in gone {
        assert x in now[i].sinks;
      }
    }
  }

  /** Depths kept means depths equal: a net of a tree has only one. */
  lemma {:induction false} SameDepth(was: Nets, now: Nets, root: nat, j: int)
    requires Tree(was, root) && Once(now, root) && DepthsKept(was, now, root) && 0 <= j < |was|
    ensures forall d: nat :: Reach(now, root, j, d) <==> Reach(was, root, j, d)
  {
    assert Connected(was, root, j);
    var e: nat :| Reach(was, root, j, e);
    assert Reach(now, root, j, e);
    forall d: nat | Reach(now, root, j, d)
      ensures d == e
    {
      DepthUnique(now, root, j, d, e);
    }
  }

  /** Adding a chain of buffers below a net changes no pin and nobody's depth. */
  lemma {:induction false} ChainPartly(was: Nets, now: Nets, root: nat, i: nat, todo: set<Inst>, target: Inst -> int, k: nat, id: nat, n: nat)
    requires Partly(was, now, root, i, todo, target) && k < i && Below(now, id)
    ensures Partly(was, Chain(now, k, None, id, n), root, i, todo, target) && Below(Chain(now, k, None, id, n), id + n)
    decreases n
  {
    if n > 0 {
      ChainPartly(was, now, root, i, todo, target, k, id, n - 1);
      var mid, e, b := Chain(now, k, None, id, n - 1), ChainEnd(now, k, n - 1), Inst(id + n - 1, NO_PIN);
      OneBufferBelow(mid, e, None, id + n - 1);
      GrowPartly(was, mid, root, i, todo, target, e, b);
    }
  }

  lemma {:induction false} GrowPartly(was: Nets, now: Nets, root: nat, i: nat, todo: set<Inst>, target: Inst -> int, k: nat, b: Inst)
    requires Partly(was, now, root, i, todo, target) && k < |now| && (k < i || k >= |was|) && Unused(now, b) && !HasPin(b)
    ensures Partly(was, Grow(now, k, b), root, i, todo, target)
  {
    var now' := Grow(now, k, b);
    GrowTree(now, root, k, b);
    DepthsKeptTwice(was, now, now', root);
    forall j | 0 <= j < |now'| && (j < i || j >= |was|)
      ensures OnTarget(now', root, j, target)
    {
      if j < |now| {
        SameDepth(now, now', root, j);
        assert OnTarget(now, root, j, target);
      }
    }
    GrowPins(now, k, b);
  }

  lemma {:induction false} GrowPins(now: Nets, k: nat, b: Inst)
    requires k < |now| && !HasPin(b)
    ensures SamePins(now, Grow(now, k, b))
  {
    GrowKeepsSinks(now, k, b);
  }

  /** Hanging the next pins back where they should be. */
  lemma {:induction false} PutBack(was: Nets, now: Nets, root: nat, i: nat, todo: set<Inst>, target: Inst -> int, k: nat, xs: seq<Inst>, d: nat)
    requires Partly(was, now, root, i, todo, target) && k < |now| && (k < i || k >= |was|) && Distinct(xs)
    requires Reach(now, root, k, d) && forall x :: x in xs ==> x in todo && target(x) == d
    ensures Partly(was, AddSinks(now, k, xs), root, i, todo - (set x | x in xs), target)
  {
    var now' := AddSinks(now, k, xs);
    AddTree(now, root, k, xs);
    DepthsKeptTwice(was, now, now', root);
    SameDepth(now, now', root, k);
    forall j | 0 <= j < |now'| && (j < i || j >= |was|)
      ensures OnTarget(now', root, j, target)
    {
      SameDepth(now, now', root, j);
      assert OnTarget(now, root, j, target);
      if j == k {
        forall x, e: nat | x in xs && Reach(now', root, j, e)
          ensures e == target(x)
        {
          DepthUnique(now, root, k, d, e);
        }
      }
    }
    AddPins(now, k, xs);
  }

  lemma {:induction false} AddPins(now: Nets, k: nat, xs: seq<Inst>)
    requires k < |now|
    ensures forall x :: Hangs(AddSinks(now, k, xs), x) <==> Hangs(now, x) || x in xs
  {
    var now' := AddSinks(now, k, xs);
    forall x | Hangs(now, x) || x in xs
      ensures Hangs(now', x)
    {
      if x in xs {
        assert x in now'[k].sinks;
      } else {
        var j :| 0 <= j < |now| && x in now[j].sinks;
        assert x in now'[j].sinks;
      }
    }
  }
}
