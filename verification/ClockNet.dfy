/** Subnets with their index, and clocks made of subnets (Clock.h), with the two edits every tree
    builder makes: a buffer under a net, and a buffer in front of a sink. */
module ClockNet {
  import opened Permutations
  import opened ClockTree

  class SubNet {
    var instances: seq<Inst>
    var index: map<Inst, nat>
    var leafLevel: bool

    /** The index is the exact inverse of the instance list. */
    ghost predicate Valid()
      reads this
    {
      && (forall i :: 0 <= i < |instances| ==> instances[i] in index && index[instances[i]] == i)
      && (forall x :: x in index ==> index[x] < |instances| && instances[index[x]] == x)
    }

    constructor ()
      ensures Valid() && instances == [] && !leafLevel
    {
      instances, index, leafLevel := [], map[], false;
    }

    /** Appends an instance; of one that is listed already the index then knows the new place only. */
    method AddInst(x: Inst)
      requires Valid()
      modifies this`instances, this`index
      ensures instances == old(instances) + [x] && index == old(index)[x := old(|instances|)]
      ensures Valid() <==> x !in old(instances)
    {
      assert x in instances <==> x in index;
      instances := instances + [x];
      assert x in index ==> instances[index[x]] == x;
      index := index[x := |instances| - 1];
    }

    function FindIndex(x: Inst): (i: nat)
      requires Valid() && x in instances
      reads this
      ensures i < |instances| && instances[i] == x
    {
      index[x]
    }

    /** Writes another instance over a listed one; the index stays exact unless the other was listed, too. */
    method ReplaceSink(cur: Inst, new_: Inst)
      requires Valid() && cur in instances
      modifies this`instances, this`index
      ensures instances == old(instances)[old(FindIndex(cur)) := new_]
      ensures index == (old(index) - {cur})[new_ := old(FindIndex(cur))]
      ensures Valid() <==> new_ == cur || new_ !in old(instances)
    {
      var idx := FindIndex(cur);
      assert forall x :: x in index <==> x in instances;
      assert new_ != cur && new_ in index ==> index[new_] != idx && instances[idx := new_][index[new_]] == new_;
      instances := instances[idx := new_];
      index := index - {cur};
      index := index[new_ := idx];
    }

    /** Drops sinks; the driver stays even when listed. */
    method RemoveSinks(gone: set<Inst>)
      requires Valid() && |instances| > 0
      modifies this`instances, this`index
      ensures Valid() && instances == [old(instances[0])] + Without(old(instances[1..]), gone)
    {
      DistinctInstances();
      WithoutDistinct(instances[1..], gone);
      var driver := instances[0];
      var preserve := Preserved(gone);
      Refill(driver, preserve);
    }

    method Refill(driver: Inst, sinks: seq<Inst>)
      requires Distinct(sinks) && driver !in sinks
      modifies this`instances, this`index
      ensures Valid() && instances == [driver] + sinks
    {
      instances, index := [], map[];
      AddInst(driver);
      for i := 0 to |sinks|
        invariant Valid() && instances == [driver] + sinks[..i]
      {
        assert sinks[i] !in sinks[..i] && sinks[i] in sinks;
        AddInst(sinks[i]);
      }
    }

    method Preserved(gone: set<Inst>) returns (preserve: seq<Inst>)
      requires |instances| > 0
      ensures preserve == Without(instances[1..], gone)
    {
      preserve := [];
      var sinks := instances[1..];
      for i := 0 to |sinks|
        invariant preserve == Without(sinks[..i], gone)
      {
        assert sinks[..i + 1] == sinks[..i] + [sinks[i]];
        WithoutSnoc(sinks[..i], sinks[i], gone);
        if sinks[i] !in gone {
          preserve := preserve + [sinks[i]];
        }
      }
      assert sinks[..|sinks|] == sinks;
    }

    lemma DistinctInstances()
      requires Valid()
      ensures Distinct(instances)
      ensures |instances| > 0 ==> Distinct(instances[1..]) && instances[0] !in instances[1..]
    {
      if |instances| > 0 {
        forall i | 0 <= i < |instances[1..]|
          ensures instances[1..][i] == instances[i + 1] && index[instances[i + 1]] == i + 1
        {
        }
      }
    }
  }

  class Clock {
    var subNets: seq<SubNet>
    var nextId: nat
    const root: nat
    ghost var nets: Nets

    /** Subnets are different objects, each with a driver, on instances made so far; `nets` is what they hold. */
    ghost predicate Valid()
      reads this, subNets
    {
      && root < |subNets| == |nets|
      && (forall i, j :: 0 <= i < j < |subNets| ==> subNets[i] != subNets[j])
      && (forall i :: 0 <= i < |subNets| ==> Holds(subNets[i], nets[i]))
      && Below(nets, nextId)
    }

    ghost predicate Holds(s: SubNet, net: Net)
      reads s
    {
      s.Valid() && s.instances == [net.driver] + net.sinks
    }

    /** A new buffer; it is in no net yet. */
    method AddClockBuffer() returns (b: Inst)
      requires Valid()
      modifies this`nextId
      ensures Valid() && nextId == old(nextId) + 1
      ensures b == Inst(old(nextId), NO_PIN) && Unused(nets, b)
    {
      b := Inst(nextId, NO_PIN);
      nextId := nextId + 1;
    }

    method AddSubNet(driver: Inst)
      requires Valid() && driver.id < nextId
      modifies this`subNets, this`nets
      ensures Valid() && old(subNets) < subNets && |subNets| == old(|subNets|) + 1
      ensures fresh(subNets[old(|subNets|)]) && !subNets[old(|subNets|)].leafLevel && nets == old(nets) + [Net(driver, [])]
    {
      var net := new SubNet();
      net.AddInst(driver);
      assert Holds(net, Net(driver, []));
      subNets := subNets + [net];
      nets := nets + [Net(driver, [])];
    }

    method AddInst(i: nat, x: Inst)
      requires Valid() && i < |subNets| && !nets[i].Has(x) && x.id < nextId
      modifies {subNets[i]}`instances, {subNets[i]}`index, this`nets
      ensures Valid() && nets == AddSinks(old(nets), i, [x])
    {
      assert x !in subNets[i].instances;
      subNets[i].AddInst(x);
      nets := AddSinks(nets, i, [x]);
      assert [nets[i].driver] + nets[i].sinks == subNets[i].instances;
      assert forall y :: nets[i].Has(y) ==> y == x || old(nets)[i].Has(y);
    }

    method SetLeafLevel(i: nat, isLeaf: bool)
      requires Valid() && i < |subNets|
      modifies {subNets[i]}`leafLevel
      ensures Valid() && subNets[i].leafLevel == isLeaf
    {
      subNets[i].leafLevel := isLeaf;
      assert Holds(subNets[i], nets[i]);
    }

    method RemoveSinks(i: nat, gone: set<Inst>)
      requires Valid() && i < |subNets|
      modifies {subNets[i]}`instances, {subNets[i]}`index, this`nets
      ensures Valid() && nets == ClockTree.RemoveSinks(old(nets), i, gone)
    {
      assert subNets[i].instances[1..] == nets[i].sinks;
      subNets[i].RemoveSinks(gone);
      nets := ClockTree.RemoveSinks(nets, i, gone);
      assert forall y :: nets[i].Has(y) ==> old(nets)[i].Has(y);
    }

    method ReplaceSink(i: nat, cur: Inst, b: Inst, ghost k: nat)
      requires Valid() && i < |subNets| && k < |nets[i].sinks| && nets[i].sinks[k] == cur
      requires !nets[i].Has(b) && b.id < nextId
      modifies {subNets[i]}`instances, {subNets[i]}`index, this`nets
      ensures Valid() && nets == old(nets)[i := old(nets)[i].(sinks := old(nets)[i].sinks[k := b])]
    {
      assert subNets[i].instances[k + 1] == cur && b !in subNets[i].instances;
      assert subNets[i].FindIndex(cur) == k + 1;
      subNets[i].ReplaceSink(cur, b);
      nets := nets[i := nets[i].(sinks := nets[i].sinks[k := b])];
      assert [nets[i].driver] + nets[i].sinks == subNets[i].instances;
      assert forall x :: nets[i].Has(x) ==> x == b || old(nets)[i].Has(x);
    }

    /** A new buffer under net i, driving a new net. */
    method GrowNet(i: nat) returns (b: Inst)
      requires Valid() && i < |subNets|
      modifies this, {subNets[i]}`instances, {subNets[i]}`index
      ensures Valid() && old(subNets) < subNets && |subNets| == old(|subNets|) + 1
      ensures fresh(subNets[old(|subNets|)]) && !subNets[old(|subNets|)].leafLevel && nextId == old(nextId) + 1
      ensures b == Inst(old(nextId), NO_PIN) && nets == Grow(old(nets), i, b)
    {
      b := AddClockBuffer();
      AddInst(i, b);
      AddSubNet(b);
    }

    /** A new buffer in front of sink k of net i, driving it through a new net. */
    method SpliceNet(i: nat, sink: Inst, ghost k: nat) returns (b: Inst)
      requires Valid() && i < |subNets| && k < |nets[i].sinks| && nets[i].sinks[k] == sink
      modifies this, {subNets[i]}`instances, {subNets[i]}`index
      ensures Valid() && old(subNets) < subNets && |subNets| == old(|subNets|) + 1
      ensures fresh(subNets[old(|subNets|)]) && nextId == old(nextId) + 1
      ensures b == Inst(old(nextId), NO_PIN) && nets == Splice(old(nets), i, k, b)
    {
      b := AddClockBuffer();
      assert nets[i].Has(sink);
      ReplaceSink(i, sink, b, k);
      AddToLast(nets, b, sink);
      AddSubNet(b);
      AddInst(|subNets| - 1, sink);
    }
  }
}
