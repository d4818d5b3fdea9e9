/** What the level balancer does to the marks of leaf nets, and to the number of nets (LevelBalancer.cpp). */
module LevelLeaves {
  import opened ClockTree
  import ClockNet
  import opened ClockSplice
  import opened LevelSpec
  import opened LevelProgress
  import opened Options

  // ----- how many nets there are

  ghost function NetCount(s: State): nat {
    if s.Keys == {} then 0 else
      var c :| c in s.Keys;
      |s[c]| + NetCount(s - {c})
  }

  lemma {:induction false} NetCountSplit(s: State, c: ClockNet.Clock)
    requires c in s
    ensures NetCount(s) == |s[c]| + NetCount(s - {c})
  {
    var d :| d in s.Keys && NetCount(s) == |s[d]| + NetCount(s - {d});
    if d != c {
      NetCountSplit(s - {d}, c);
      NetCountSplit(s - {c}, d);
      assert s - {d} - {c} == s - {c} - {d};
    }
  }

  lemma NetCountUpdate(s: State, c: ClockNet.Clock, nets: Nets)
    requires c in s
    ensures NetCount(s[c := nets]) == NetCount(s) - |s[c]| + |nets|
  {
    NetCountSplit(s, c);
    NetCountSplit(s[c := nets], c);
    assert s[c := nets] - {c} == s - {c};
  }

  // ----- which nets are leaves

  /** The net has a sink with a pin. */
  ghost predicate Pins(nets: Nets, k: nat) {
    k < |nets| && exists x :: x in nets[k].sinks && HasPin(x)
  }

  /** Marked are exactly the nets that have sinks with pins. */
  ghost predicate MarksPins(nets: Nets, marks: seq<bool>) {
    |marks| == |nets| && forall k :: 0 <= k < |marks| ==> (marks[k] <==> Pins(nets, k))
  }

  lemma {:induction false} ChainPins(nets: Nets, i: nat, id: nat, n: nat, k: nat)
    requires i < |nets|
    ensures Pins(Chain(nets, i, None, id, n), k) <==> Pins(nets, k)
  {
    if n > 0 {
      ChainPins(nets, i, id, n - 1, k);
      GrowPins(Chain(nets, i, None, id, n - 1), ChainEnd(nets, i, n - 1), Inst(id + n - 1, NO_PIN), k);
    }
  }

  lemma GrowPins(nets: Nets, i: nat, b: Inst, k: nat)
    requires i < |nets| && !HasPin(b)
    ensures Pins(Grow(nets, i, b), k) <==> Pins(nets, k)
  {
    var r := Grow(nets, i, b);
    if Pins(nets, k) {
      var x :| x in nets[k].sinks && HasPin(x);
      assert x in r[k].sinks;
    }
  }

  /** The marks after a chain was built below net i: its end is marked, and net i only if it is the end. */
  ghost predicate Remarked(marks: seq<bool>, marks': seq<bool>, i: nat, n: nat) {
    && |marks'| == |marks| + n && i < |marks|
    && forall k :: 0 <= k < |marks'| ==> marks'[k] == (k == (if n == 0 then i else |marks| + n - 1) || (k < |marks| && k != i && marks[k]))
  }

  /** Hanging pins below a net without pins, or onto a net, leaves the right nets marked. */
  lemma {:induction false} HungMarks(nets: Nets, marks: seq<bool>, marks': seq<bool>, i: nat, id: nat, n: nat, cluster: seq<Inst>)
    requires MarksPins(nets, marks) && Remarked(marks, marks', i, n) && (n > 0 ==> !Pins(nets, i))
    requires cluster != [] && forall x :: x in cluster ==> HasPin(x)
    ensures MarksPins(Hung(nets, i, id, n, cluster), marks')
  {
    var chain, end := Chain(nets, i, None, id, n), ChainEnd(nets, i, n);
    forall k: nat | k < |marks'|
      ensures Pins(AddSinks(chain, end, cluster), k) <==> k == end || Pins(nets, k)
    {
      ChainPins(nets, i, id, n, k);
      AddedPins(chain, end, cluster, k);
    }
  }

  lemma HungPins(nets: Nets, i: nat, id: nat, n: nat, cluster: seq<Inst>)
    requires i < |nets| && n > 0 && !Pins(nets, i) && cluster != [] && forall x :: x in cluster ==> HasPin(x)
    ensures !Pins(Hung(nets, i, id, n, cluster), i)
  {
    ChainPins(nets, i, id, n, i);
    AddedPins(Chain(nets, i, None, id, n), ChainEnd(nets, i, n), cluster, i);
  }

  lemma AddedPins(nets: Nets, i: nat, cluster: seq<Inst>, k: nat)
    requires i < |nets| && cluster != [] && forall x :: x in cluster ==> HasPin(x)
    ensures Pins(AddSinks(nets, i, cluster), k) <==> k == i || Pins(nets, k)
  {
    var r := AddSinks(nets, i, cluster);
    if k == i {
      assert cluster[0] in cluster && cluster[0] in r[i].sinks;
    } else if Pins(nets, k) {
      assert r[k] == nets[k];
    }
  }

  /** Taking all pins off a net and its mark away leaves the right nets marked. */
  lemma TakenMarks(nets: Nets, marks: seq<bool>, i: nat, gone: set<Inst>)
    requires i < |nets| && MarksPins(nets, marks) && forall x :: x in nets[i].sinks && HasPin(x) ==> x in gone
    ensures MarksPins(RemoveSinks(nets, i, gone), marks[i := false]) && !Pins(RemoveSinks(nets, i, gone), i)
  {
    var r := RemoveSinks(nets, i, gone);
    forall k: nat | k < |nets| && k != i
      ensures Pins(r, k) <==> Pins(nets, k)
    {
      assert r[k] == nets[k];
    }
  }

  lemma HasLeast(levels: set<nat>) returns (l: nat)
    requires levels != {}
    ensures l in levels && forall k :: k in levels ==> l <= k
  {
    l :| l in levels;
    var rest := levels - {l};
    assert forall k :: k in levels ==> k == l || k in rest;
    if rest != {} {
      var m := HasLeast(rest);
      if m < l {
        l := m;
      }
    }
  }
}
