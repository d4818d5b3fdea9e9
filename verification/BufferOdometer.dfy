/** Trying every combination of buffer sizes (TechChar.cpp): a counter with carry over the buffers of a
    topology, kept in step with the topology's description. Masters are numbered in the order of their
    names; characterisation begins with the first one listed, `first`, which need not be number 0. */
module BufferOdometer {
  import IntMath

  /** An entry of a topology's description: a wire of some length or a master's name. */
  datatype Item = Wire(length: real) | Master(index: nat)

  /** The masters of the buffer instances, and the description. */
  datatype Solution = Solution(inst: seq<nat>, topology: seq<Item>)

  /** The masters named in a description, in order. */
  function Names(t: seq<Item>): seq<nat> {
    if t == [] then []
    else Names(t[..|t| - 1]) + if t[|t| - 1].Master? then [t[|t| - 1].index] else []
  }

  /** The description names as many masters as there are instances. */
  ghost predicate Valid(s: Solution, m: nat, first: nat) {
    && first < m && s.inst != [] && Digits(s.inst, m, first) && |Names(s.topology)| == |s.inst|
  }

  /** All are masters, none before `first`. */
  ghost predicate Digits(d: seq<nat>, m: nat, first: nat) {
    forall i :: 0 <= i < |d| ==> first <= d[i] < m
  }

  // ----- the counter

  /** The next combination: masters that are last go back to `first`, and the first that is not goes up. */
  function Next(d: seq<nat>, m: nat, first: nat): (n: seq<nat>)
    ensures |n| == |d|
  {
    if d == [] then []
    else if d[0] + 1 == m then [first] + Next(d[1..], m, first)
    else [d[0] + 1] + d[1..]
  }

  /** What the description says then: masters that were last are named 0. */
  function NextNames(d: seq<nat>, names: seq<nat>, m: nat): (n: seq<nat>)
    requires |names| == |d|
    ensures |n| == |d|
  {
    if d == [] then []
    else if d[0] + 1 == m then [0] + NextNames(d[1..], names[1..], m)
    else [d[0] + 1] + names[1..]
  }

  function Power(m: nat, k: nat): (p: nat)
    ensures m >= 1 ==> p >= 1
  {
    if k == 0 then 1 else Times(m, Power(m, k - 1))
  }

  /** Multiplication, kept apart from linear reasoning. */
  function Times(a: nat, b: nat): (p: nat)
    ensures a >= 1 && b >= 1 ==> p >= 1
  {
    a * b
  }

  /** A combination as a number to the base of the masters from `first` on, least significant first. */
  function Value(d: seq<nat>, m: nat, first: nat): nat
    requires first < m && Digits(d, m, first)
  {
    if d == [] then 0 else d[0] - first + Times(m - first, Value(d[1..], m, first))
  }

  lemma {:induction false} ValueBound(d: seq<nat>, m: nat, first: nat)
    requires first < m && Digits(d, m, first)
    ensures Value(d, m, first) < Power(m - first, |d|)
  {
    hide Times;
    if d != [] {
      ValueBound(d[1..], m, first);
      DigitArithmetic(d[0] - first, Value(d[1..], m, first), Power(m - first, |d| - 1), m - first);
    }
  }

  lemma DigitArithmetic(digit: nat, rest: nat, p: nat, m: nat)
    requires digit < m && rest < p
    ensures digit + Times(m, rest) < Times(m, p)
  {
    IntMath.MulMono(rest + 1, p, m);
    assert m * (rest + 1) == m * rest + m;
  }

  /** Different combinations are different numbers. */
  lemma {:induction false} ValueInjective(a: seq<nat>, b: seq<nat>, m: nat, first: nat)
    requires first < m && Digits(a, m, first) && Digits(b, m, first) && |a| == |b|
    requires Value(a, m, first) == Value(b, m, first)
    ensures a == b
  {
    if a != [] {
      var x, y := Value(a[1..], m, first), Value(b[1..], m, first);
      IntMath.DivUnique(Value(a, m, first), x, a[0] - first, m - first);
      IntMath.DivUnique(Value(b, m, first), y, b[0] - first, m - first);
      ValueInjective(a[1..], b[1..], m, first);
      assert a == [a[0]] + a[1..] && b == [b[0]] + b[1..];
    }
  }

  /** The counter counts, and wraps round at the end. */
  lemma {:induction false} NextCounts(d: seq<nat>, m: nat, first: nat)
    requires first < m && Digits(d, m, first)
    ensures Digits(Next(d, m, first), m, first)
    ensures Value(Next(d, m, first), m, first)
      == if Value(d, m, first) + 1 == Power(m - first, |d|) then 0 else Value(d, m, first) + 1
  {
    hide Times;
    if d != [] {
      ValueBound(d, m, first);
      ValueBound(d[1..], m, first);
      var n := Next(d, m, first);
      if d[0] + 1 == m {
        NextCounts(d[1..], m, first);
        assert n[1..] == Next(d[1..], m, first);
        CarryArithmetic(d[0] - first, Value(d[1..], m, first), Power(m - first, |d| - 1), m - first);
      } else {
        assert n[1..] == d[1..];
        NoCarryArithmetic(d[0] - first, Value(d[1..], m, first), Power(m - first, |d| - 1), m - first);
      }
    }
  }

  lemma CarryArithmetic(digit: nat, rest: nat, p: nat, m: nat)
    requires digit + 1 == m && rest < p
    ensures digit + Times(m, rest) + 1 == Times(m, rest + 1) && Times(m, 0) == 0
    ensures rest + 1 == p <==> digit + Times(m, rest) + 1 == Times(m, p)
  {
    assert m * (rest + 1) == m * rest + m;
    if rest + 1 < p {
      IntMath.MulMono(rest + 2, p, m);
      assert m * (rest + 2) == m * rest + m + m;
    }
  }

  lemma NoCarryArithmetic(digit: nat, rest: nat, p: nat, m: nat)
    requires digit + 1 < m && rest < p
    ensures digit + Times(m, rest) + 1 < Times(m, p)
  {
    IntMath.MulMono(rest + 1, p, m);
    assert m * (rest + 1) == m * rest + m;
  }

  // ----- keeping the description in step

  lemma {:induction false} NamesSnoc(t: seq<Item>, x: Item)
    ensures Names(t + [x]) == Names(t) + if x.Master? then [x.index] else []
  {
    assert (t + [x])[..|t|] == t;
  }

  /** Renaming the entry that names instance `index` renames that instance alone. */
  lemma {:induction false} NamesUpdate(t: seq<Item>, p: nat, v: nat)
    requires p < |t| && t[p].Master?
    ensures |Names(t[..p])| < |Names(t)| && Names(t[p := Master(v)]) == Names(t)[|Names(t[..p])| := v]
  {
    var n := |t| - 1;
    assert t == t[..n] + [t[n]];
    if p == n {
      assert t[p := Master(v)][..n] == t[..n];
    } else {
      NamesUpdate(t[..n], p, v);
      assert t[..n][..p] == t[..p];
      assert t[p := Master(v)][..n] == t[..n][p := Master(v)];
    }
  }

  /** Puts a master's name at the entry of the description that names instance `index`. */
  method Rename(t0: seq<Item>, index: nat, v: nat) returns (t: seq<Item>)
    requires index < |Names(t0)|
    ensures Names(t) == Names(t0)[index := v] && |t| == |t0|
    ensures forall p :: 0 <= p < |t| ==> (t[p].Wire? <==> t0[p].Wire?) && (t[p].Wire? ==> t[p] == t0[p])
  {
    t := t0;
    var topologyCounter := 0;
    assert t0[..0] == [] && t0[..|t0|] == t0;
    for topologyIndex := 0 to |t|
      invariant t == t0 && topologyCounter == |Names(t[..topologyIndex])| <= index
    {
      assert t[..topologyIndex + 1] == t[..topologyIndex] + [t[topologyIndex]];
      NamesSnoc(t[..topologyIndex], t[topologyIndex]);
      if t[topologyIndex].Master? {
        if topologyCounter == index {
          NamesUpdate(t, topologyIndex, v);
          t := t[topologyIndex := Master(v)];
          return;
        }
        topologyCounter := topologyCounter + 1;
      }
    }
  }

  /** One step of the odometer. */
  method UpdateBufferTopologies(s: Solution, m: nat, first: nat) returns (r: Solution)
    requires Valid(s, m, first)
    ensures Valid(r, m, first) && r.inst == Next(s.inst, m, first)
    ensures Names(r.topology) == NextNames(s.inst, Names(s.topology), m)
  {
    hide Names, Next, NextNames;
    r := s;
    var index := 0;
    var done := false;
    assert s.inst[0..] == s.inst && s.inst[..0] == [];
    assert Names(s.topology)[0..] == Names(s.topology) && Names(s.topology)[..0] == [];
    while !done
      invariant Valid(r, m, first) && |r.inst| == |s.inst| && 0 <= index <= |s.inst|
      invariant !done ==> index < |s.inst|
      invariant !done ==> Next(s.inst, m, first) == r.inst[..index] + Next(r.inst[index..], m, first)
      invariant !done ==> NextNames(s.inst, Names(s.topology), m) == Names(r.topology)[..index] + NextNames(r.inst[index..], Names(r.topology)[index..], m)
      invariant done ==> r.inst == Next(s.inst, m, first) && Names(r.topology) == NextNames(s.inst, Names(s.topology), m)
      decreases |s.inst| - index, !done
    {
      ghost var d, names := r.inst, Names(r.topology);
      if r.inst[index] + 1 == m {
        var t := Rename(r.topology, index, 0);
        r := Solution(r.inst[index := first], t);
        index := index + 1;
        CarryStep(d, index - 1, m, first);
        CarryNames(d, names, index - 1, m);
        assert r.inst[index..] == d[index..];
      } else {
        var v := r.inst[index] + 1;
        var t := Rename(r.topology, index, v);
        r := Solution(r.inst[index := v], t);
        done := true;
        LastStep(d, names, index, m, first);
      }
      if index >= |r.inst| {
        done := true;
      }
    }
  }

  lemma CarryStep(d: seq<nat>, i: nat, m: nat, first: nat)
    requires i < |d| && d[i] + 1 == m
    ensures d[..i] + Next(d[i..], m, first) == d[i := first][..i + 1] + Next(d[i := first][i + 1..], m, first)
    ensures i + 1 == |d| ==> d[..i] + Next(d[i..], m, first) == d[i := first]
  {
    assert d[i..][1..] == d[i + 1..] == d[i := first][i + 1..];
    assert d[i := first][..i + 1] == d[..i] + [first];
  }

  lemma CarryNames(d: seq<nat>, names: seq<nat>, i: nat, m: nat)
    requires i < |d| == |names| && d[i] + 1 == m
    ensures names[..i] + NextNames(d[i..], names[i..], m) == names[i := 0][..i + 1] + NextNames(d[i + 1..], names[i := 0][i + 1..], m)
    ensures i + 1 == |d| ==> names[..i] + NextNames(d[i..], names[i..], m) == names[i := 0]
  {
    var rest := NextNames(d[i + 1..], names[i + 1..], m);
    assert d[i..][1..] == d[i + 1..] && names[i..][1..] == names[i + 1..] == names[i := 0][i + 1..];
    assert NextNames(d[i..], names[i..], m) == [0] + rest;
    assert names[i := 0][..i + 1] == names[..i] + [0];
    assert names[..i] + ([0] + rest) == names[..i] + [0] + rest;
  }

  lemma LastStep(d: seq<nat>, names: seq<nat>, i: nat, m: nat, first: nat)
    requires i < |d| == |names| && d[i] + 1 != m
    ensures d[..i] + Next(d[i..], m, first) == d[i := d[i] + 1]
    ensures names[..i] + NextNames(d[i..], names[i..], m) == names[i := d[i] + 1]
  {
    assert d[i..][1..] == d[i + 1..] && names[i..][1..] == names[i + 1..];
  }

  // ----- the whole loop

  /** The visits of a run so far: they count from zero up to where they wrap round, and the names follow. */
  ghost predicate Visits(visited: seq<seq<nat>>, named: seq<seq<nat>>, m: nat, first: nat, k: nat)
    requires first < m
  {
    && |visited| == |named| && (forall a :: 0 <= a < |visited| ==> |visited[a]| == |named[a]| == k && Digits(visited[a], m, first))
    && (forall a :: 0 <= a < |visited| && a < Power(m - first, k) ==> Value(visited[a], m, first) == a)
    && (forall a :: 0 < a < |visited| ==> visited[a] == Next(visited[a - 1], m, first))
    && (forall a :: 0 < a < |visited| ==> named[a] == NextNames(visited[a - 1], named[a - 1], m))
    && (|visited| > 0 ==> named[0] == visited[0])
  }

  lemma {:induction false} VisitsNext(visited: seq<seq<nat>>, named: seq<seq<nat>>, d: seq<nat>, names: seq<nat>, m: nat, first: nat, k: nat)
    requires first < m && Visits(visited, named, m, first, k) && |visited| > 0
    requires d == Next(visited[|visited| - 1], m, first)
    requires names == NextNames(visited[|visited| - 1], named[|named| - 1], m)
    ensures Visits(visited + [d], named + [names], m, first, k)
  {
    hide Next, NextNames, Value;
    NextCounts(visited[|visited| - 1], m, first);
  }

  lemma {:induction false} PowerMono(a: nat, b: nat, k: nat)
    requires 1 <= a <= b
    ensures Power(a, k) <= Power(b, k) && (a < b && k > 0 ==> Power(a, k) < Power(b, k))
  {
    if k > 0 {
      PowerMono(a, b, k - 1);
      IntMath.MulMono(Power(a, k - 1), Power(b, k - 1), a);
      assert b * Power(b, k - 1) == a * Power(b, k - 1) + (b - a) * Power(b, k - 1);
      assert a < b ==> (b - a) * Power(b, k - 1) > 0;
    }
  }

  /** Every combination of the masters from `first` on is visited, and no other. */
  lemma {:induction false} VisitsOnly(visited: seq<seq<nat>>, named: seq<seq<nat>>, m: nat, first: nat, k: nat)
    requires first < m && Visits(visited, named, m, first, k) && |visited| == Power(m, k)
    ensures forall d :: |d| == k ==> (d in visited <==> Digits(d, m, first))
  {
    hide Value;
    forall d | |d| == k && Digits(d, m, first)
      ensures d in visited
    {
      ValueBound(d, m, first);
      PowerMono(m - first, m, k);
      ValueInjective(d, visited[Value(d, m, first)], m, first);
    }
  }

  lemma {:induction false} SameNames(d: seq<nat>, m: nat)
    ensures NextNames(d, d, m) == Next(d, m, 0)
  {
    if d != [] {
      SameNames(d[1..], m);
    }
  }

  /** With the first master by name the description stays right and nothing is visited twice. */
  lemma {:induction false} VisitsInStep(visited: seq<seq<nat>>, named: seq<seq<nat>>, m: nat, k: nat)
    requires m > 0 && Visits(visited, named, m, 0, k) && |visited| == Power(m, k)
    ensures named == visited && forall a, b :: 0 <= a < b < |visited| ==> visited[a] != visited[b]
  {
    hide Value, Next, NextNames;
    for a := 0 to |visited|
      invariant forall b :: 0 <= b < a ==> named[b] == visited[b]
    {
      if a > 0 {
        SameNames(visited[a - 1], m);
      }
    }
  }

  /** With another the counter wraps round too early: it misses a combination... */
  lemma {:induction false} Misses(visited: seq<seq<nat>>, m: nat, first: nat, k: nat)
    requires 0 < first < m && k > 0 && forall d :: |d| == k ==> (d in visited <==> Digits(d, m, first))
    ensures exists d :: |d| == k && Digits(d, m, 0) && d !in visited
  {
    var none := seq(k, _ => 0);
    assert none[0] < first && Digits(none, m, 0) && !Digits(none, m, first);
  }

  /** ... comes back to where it began... */
  lemma {:induction false} ComesBack(visited: seq<seq<nat>>, named: seq<seq<nat>>, m: nat, first: nat, k: nat) returns (p: nat)
    requires 0 < first < m && k > 0 && Visits(visited, named, m, first, k) && |visited| == Power(m, k)
    ensures 0 < p < |visited| && visited[p] == visited[0]
    ensures Value(visited[p - 1], m, first) + 1 == Power(m - first, k)
  {
    hide Value, Next, NextNames;
    p := Power(m - first, k);
    PowerMono(m - first, m, k);
    NextCounts(visited[p - 1], m, first);
    ValueInjective(visited[p], visited[0], m, first);
  }

  /** ... and names that wrong. */
  lemma {:induction false} NamesWrong(visited: seq<seq<nat>>, named: seq<seq<nat>>, m: nat, first: nat, k: nat, p: nat)
    requires 0 < first < m && k > 0 && Visits(visited, named, m, first, k) && 0 < p < |visited|
    requires Value(visited[p - 1], m, first) + 1 == Power(m - first, k)
    ensures named[p] != visited[p]
  {
    hide Value;
    var last := seq(k, _ => m - 1);
    LastValue(last, m, first);
    ValueInjective(visited[p - 1], last, m, first);
    assert named[p][0] == 0 && visited[p][0] == first;
  }

  lemma {:induction false} FirstValue(d: seq<nat>, m: nat, first: nat)
    requires first < m && forall i :: 0 <= i < |d| ==> d[i] == first
    ensures Value(d, m, first) == 0
  {
    if d != [] {
      FirstValue(d[1..], m, first);
    }
  }

  lemma Distribute(b: nat, v: nat)
    ensures Times(b, v + 1) == Times(b, v) + b
  {
  }

  lemma {:induction false} LastValue(d: seq<nat>, m: nat, first: nat)
    requires first < m && forall i :: 0 <= i < |d| ==> d[i] == m - 1
    ensures Value(d, m, first) + 1 == Power(m - first, |d|)
  {
    hide Times;
    if d != [] {
      LastValue(d[1..], m, first);
      var v := Value(d[1..], m, first);
      Distribute(m - first, v);
    }
  }

  /** The loop that characterises a topology. It begins with the first listed master everywhere and goes on for
      as many rounds as there are combinations. It looks at exactly the combinations of masters not named
      before that one. So it looks at all of them, at none twice, and describes each one right, exactly when
      the first listed master is the first by name; then it ends where it began. */
  method VisitAll(s: Solution, m: nat, first: nat) returns (visited: seq<seq<nat>>, named: seq<seq<nat>>, r: Solution)
    requires Valid(s, m, first) && Names(s.topology) == s.inst && forall i :: 0 <= i < |s.inst| ==> s.inst[i] == first
    ensures |visited| == |named| == Power(m, |s.inst|) && Valid(r, m, first)
    ensures forall d :: |d| == |s.inst| ==> (d in visited <==> Digits(d, m, first))
    ensures (forall d :: |d| == |s.inst| && Digits(d, m, 0) ==> d in visited) <==> first == 0
    ensures (forall a, b :: 0 <= a < b < |visited| ==> visited[a] != visited[b]) <==> first == 0
    ensures named == visited <==> first == 0
    ensures first == 0 ==> r.inst == s.inst
  {
    hide Next, NextNames, Value, Names, Power;
    var k := |s.inst|;
    r, visited, named := s, [], [];
    var buffersUpdate := Power(m, k);
    FirstValue(s.inst, m, first);
    while true
      invariant Valid(r, m, first) && |r.inst| == k && 1 <= buffersUpdate && |visited| + buffersUpdate == Power(m, k)
      invariant Visits(visited + [r.inst], named + [Names(r.topology)], m, first, k)
      decreases buffersUpdate
    {
      visited, named := visited + [r.inst], named + [Names(r.topology)];
      r := UpdateBufferTopologies(r, m, first);
      VisitsNext(visited, named, r.inst, Names(r.topology), m, first, k);
      buffersUpdate := buffersUpdate - 1;
      if buffersUpdate == 0 {
        break;
      }
    }
    VisitsOnly(visited, named, m, first, k);
    if first == 0 {
      VisitsInStep(visited, named, m, k);
      NextCounts(visited[|visited| - 1], m, first);
      ValueInjective(r.inst, s.inst, m, first);
    } else {
      Misses(visited, m, first, k);
      var p := ComesBack(visited, named, m, first, k);
      NamesWrong(visited, named, m, first, k, p);
    }
  }
}
