/** Solving one window (detailed_interleaving.cxx): up to five passes of split and interleave, each
    kept only when it is cheaper. */
module InterleaveSolve {
  import opened Permutations
  import opened InterleaveSpec
  import opened InterleaveTable

  const PASSES: nat := 5

  // ----- the two lists of a pass

  /** Entries at even positions, in order. */
  ghost function Evens(q: seq<nat>): (r: seq<nat>) {
    if q == [] then []
    else if (|q| - 1) % 2 == 0 then Evens(q[..|q| - 1]) + [q[|q| - 1]]
    else Evens(q[..|q| - 1])
  }

  /** Entries at odd positions, in order. */
  ghost function Odds(q: seq<nat>): (r: seq<nat>) {
    if q == [] then []
    else if (|q| - 1) % 2 == 1 then Odds(q[..|q| - 1]) + [q[|q| - 1]]
    else Odds(q[..|q| - 1])
  }

  /** Every other entry, from the first and from the second. */
  lemma {:induction false} EveryOther(q: seq<nat>, k: nat)
    requires k < |q|
    ensures |Evens(q)| == (|q| + 1) / 2 && |Odds(q)| == |q| / 2
    ensures if k % 2 == 0 then Evens(q)[k / 2] == q[k] else Odds(q)[k / 2] == q[k]
  {
    var n := |q| - 1;
    if k < n {
      EveryOther(q[..n], k);
    } else if n > 0 {
      EveryOther(q[..n], 0);
    } else {
      assert q[..0] == [] && Evens(q[..0]) == [] && Odds(q[..0]) == [];
    }
  }

  lemma {:induction false} SplitMultiset(q: seq<nat>)
    ensures multiset(Odds(q)) + multiset(Evens(q)) == multiset(q)
    ensures |Odds(q)| + |Evens(q)| == |q|
  {
    if q != [] {
      SplitMultiset(q[..|q| - 1]);
      assert q == q[..|q| - 1] + [q[|q| - 1]];
    }
  }

  lemma {:induction false} SplitCells(p: Problem, q: seq<nat>)
    requires Cells(p, q)
    ensures Cells(p, Evens(q)) && Cells(p, Odds(q))
  {
    if q != [] {
      SplitCells(p, q[..|q| - 1]);
    }
  }

  /** The order a pass finds: the best interleaving the table kept of the odd and even lists. */
  ghost function PassOrder(p: Problem, q: seq<nat>): (o: seq<nat>)
    requires p.Valid() && Cells(p, q)
    ensures Cells(p, o)
  {
    SplitCells(p, q);
    Best(p, Evens(q), Odds(q), |Odds(q)|, |Evens(q)|)
  }

  lemma {:induction false} PassInterleaves(p: Problem, q: seq<nat>)
    requires p.Valid() && Cells(p, q)
    ensures Interleaves(PassOrder(p, q), Odds(q), Evens(q))
    ensures multiset(PassOrder(p, q)) == multiset(q)
  {
    SplitCells(p, q);
    BestInterleaves(p, Evens(q), Odds(q), |Odds(q)|, |Evens(q)|);
    assert Odds(q)[..|Odds(q)|] == Odds(q) && Evens(q)[..|Evens(q)|] == Evens(q);
    InterleavesMultiset(PassOrder(p, q), Odds(q), Evens(q));
    SplitMultiset(q);
  }

  ghost function OrderCost(p: Problem, q: seq<nat>): real
    requires p.Valid() && Cells(p, q)
  {
    Replay(p, q).cost
  }

  /** At most `k` further passes from order `q`; stops at the first that does not pay. */
  ghost function Passes(p: Problem, q: seq<nat>, k: nat): (o: seq<nat>)
    requires p.Valid() && Cells(p, q)
    ensures Cells(p, o)
    decreases k
  {
    if k == 0 || OrderCost(p, PassOrder(p, q)) >= OrderCost(p, q) then q
    else Passes(p, PassOrder(p, q), k - 1)
  }

  /** Passing never loses: the final order is a rearrangement of the first and costs no more. */
  lemma {:induction false} PassesImprove(p: Problem, q: seq<nat>, k: nat)
    requires p.Valid() && Cells(p, q)
    ensures multiset(Passes(p, q, k)) == multiset(q)
    ensures OrderCost(p, Passes(p, q, k)) <= OrderCost(p, q)
    decreases k
  {
    hide PassOrder, OrderCost;
    if k != 0 && OrderCost(p, PassOrder(p, q)) < OrderCost(p, q) {
      PassInterleaves(p, q);
      PassesImprove(p, PassOrder(p, q), k - 1);
    }
  }

  /** The centres of all cells when `q` is packed from the left edge. */
  ghost predicate PackedAs(p: Problem, q: seq<nat>, x: seq<real>)
    requires Cells(p, q)
  {
    |x| == |p.widths| && forall k :: 0 <= k < |q| ==> x[q[k]] == CentreOf(p, q, k)
  }

  ghost predicate SortedBy(x: seq<real>, q: seq<nat>)
    requires forall k :: 0 <= k < |q| ==> q[k] < |x|
  {
    forall j, k :: 0 <= j < k < |q| ==> x[q[j]] <= x[q[k]]
  }

  lemma {:induction false} InsertSorted(x: seq<real>, q: seq<nat>, i: nat, k: nat)
    requires k <= |q| && i < |x| && Permutes(q, i) && SortedBy(x, q)
    requires forall j :: 0 <= j < k ==> x[q[j]] <= x[i]
    requires forall j :: k <= j < |q| ==> x[i] <= x[q[j]]
    ensures Permutes(q[..k] + [i] + q[k..], i + 1) && SortedBy(x, q[..k] + [i] + q[k..])
  {
    var r := q[..k] + [i] + q[k..];
    assert forall j :: 0 <= j < |r| ==> r[j] == if j < k then q[j] else if j == k then i else q[j - 1];
  }

  /** Cell numbers by increasing centre. */
  method SortCells(x: seq<real>) returns (q: seq<nat>)
    ensures Permutes(q, |x|) && SortedBy(x, q)
  {
    q := [];
    for i := 0 to |x|
      invariant Permutes(q, i) && SortedBy(x, q)
    {
      var k := i;
      while k > 0 && x[i] < x[q[k - 1]]
        invariant 0 <= k <= i
        invariant forall j :: k <= j < i ==> x[i] < x[q[j]]
      {
        k := k - 1;
      }
      InsertSorted(x, q, i, k);
      q := q[..k] + [i] + q[k..];
    }
  }

  class SmallProblem {
    const shape: Problem
    var x: seq<real>

    ghost predicate Valid()
      reads this
    {
      shape.Valid() && |x| == |shape.widths|
    }

    constructor (shape: Problem, x: seq<real>)
      ensures this.shape == shape && this.x == x
    {
      this.shape, this.x := shape, x;
    }

    /** Packs the cells of `q` from the left edge. */
    method Pack(q: seq<nat>)
      requires Valid() && Permutes(q, |x|)
      modifies this`x
      ensures Valid() && Cells(shape, q) && PackedAs(shape, q, x)
    {
      var left := shape.xmin;
      for n := 0 to |q|
        invariant Valid() && Cells(shape, q)
        invariant left == LeftOf(shape, q, n)
        invariant forall k :: 0 <= k < n ==> x[q[k]] == CentreOf(shape, q, k)
      {
        LeftOfNext(shape, q, n);
        x := x[q[n] := left + 0.5 * shape.widths[q[n]]];
        left := left + shape.widths[q[n]];
      }
    }
  }

  // ----- the table and one pass over it

  method NewRow(p: Problem, n: nat, ghost used: set<TableEntry>) returns (row: seq<TableEntry>)
    requires p.Valid()
    ensures |row| == n
    ensures forall j :: 0 <= j < n ==> fresh(row[j]) && row[j] !in used && row[j].problem == p && row[j].parent == null
    ensures forall j, k :: 0 <= j < k < n ==> row[j] != row[k]
  {
    row := [];
    for j := 0 to n
      invariant |row| == j
      invariant forall k :: 0 <= k < j ==> fresh(row[k]) && row[k] !in used && row[k].problem == p && row[k].parent == null
      invariant forall k, l :: 0 <= k < l < j ==> row[k] != row[l]
    {
      var e := new TableEntry(p);
      row := row + [e];
    }
  }

  ghost function RowSet(row: seq<TableEntry>): set<TableEntry> {
    set e | e in row
  }

  method NewTable(p: Problem, n: nat) returns (t: Table)
    requires p.Valid()
    ensures |t| == n + 1 && Shaped(t, p, n, n)
    ensures forall i, j :: 0 <= i <= n && 0 <= j <= n ==> fresh(t[i][j]) && t[i][j].parent == null
  {
    t := [];
    ghost var used: set<TableEntry> := {};
    for i := 0 to n + 1
      invariant |t| == i && forall k :: 0 <= k < i ==> |t[k]| == n + 1
      invariant forall k, j :: 0 <= k < i && 0 <= j <= n ==>
        fresh(t[k][j]) && t[k][j] in used && t[k][j].problem == p && t[k][j].parent == null
      invariant forall k, j, l, m :: 0 <= k < i && 0 <= j <= n && 0 <= l < i && 0 <= m <= n && (k != l || j != m) ==> t[k][j] != t[l][m]
    {
      var row := NewRow(p, n + 1, used);
      t := t + [row];
      used := used + RowSet(row);
    }
  }

  method Split(q: seq<nat>) returns (a: seq<nat>, b: seq<nat>)
    ensures a == Evens(q) && b == Odds(q)
  {
    a, b := [], [];
    for i := 0 to |q|
      invariant a == Evens(q[..i]) && b == Odds(q[..i])
    {
      assert q[..i + 1][..i] == q[..i];
      if i % 2 == 0 {
        a := a + [q[i]];
      } else {
        b := b + [q[i]];
      }
    }
    assert q[..|q|] == q;
  }

  /** Resets every entry to the empty row; parents keep their old values. */
  method ClearAll(t: Table, ghost p: Problem, na: nat, nb: nat)
    requires p.Valid() && Shaped(t, p, na, nb)
    modifies Entries(t, na, nb)`netBoxes, Entries(t, na, nb)`leftEdge, Entries(t, na, nb)`cost
    ensures t[0][0].Value() == Start(p)
  {
    InEntries(t, na, nb);
    for i := 0 to nb + 1
      invariant i > 0 ==> t[0][0].Value() == Start(p)
    {
      for j := 0 to na + 1
        invariant i > 0 || j > 0 ==> t[0][0].Value() == Start(p)
      {
        t[i][j].Clear();
      }
    }
  }

  lemma {:induction false} ShapedSmaller(t: Table, p: Problem, n: nat, na: nat, nb: nat)
    requires Shaped(t, p, n, n) && na <= n && nb <= n
    ensures Shaped(t, p, na, nb) && Entries(t, na, nb) <= Entries(t, n, n)
  {
    InEntries(t, n, n);
  }

  /** One pass: the cost of the order the table found, and that order when it is an improvement. */
  method RunPass(t: Table, p: Problem, q: seq<nat>, wa: TableEntry, wb: TableEntry, bestCost: real)
      returns (cost: real, next: seq<nat>)
    requires p.Valid() && Cells(p, q) && Shaped(t, p, |q|, |q|) && t[0][0].parent == null
    requires wa.problem == p && wb.problem == p && wa != wb && wa !in Entries(t, |q|, |q|) && wb !in Entries(t, |q|, |q|)
    modifies Entries(t, |q|, |q|), wa, wb
    ensures t[0][0].parent == null
    ensures cost == OrderCost(p, PassOrder(p, q))
    ensures next == if cost >= bestCost then q else PassOrder(p, q)
  {
    var a, b := Split(q);
    SplitCells(p, q);
    SplitMultiset(q);
    ShapedSmaller(t, p, |q|, |a|, |b|);
    ClearAll(t, p, |a|, |b|);
    assert EntryOk(t, p, a, b, 0, 0);
    FillTable(t, p, a, b, wa, wb);
    assert EntryOk(t, p, a, b, |b|, |a|);
    assert EntryOk(t, p, a, b, 0, 0);
    cost := t[|b|][|a|].cost;
    next := q;
    if cost < bestCost {
      next := ReadBack(t, p, a, b);
    }
  }

  /** The cost of an order, by adding its cells to an empty row. */
  method Measure(p: Problem, q: seq<nat>, wa: TableEntry) returns (cost: real)
    requires p.Valid() && Cells(p, q) && wa.problem == p
    modifies wa`netBoxes, wa`leftEdge, wa`cost
    ensures cost == OrderCost(p, q)
  {
    wa.Clear();
    for i := 0 to |q|
      invariant wa.Valid() && wa.Value() == Replay(p, q[..i])
    {
      assert q[..i + 1] == q[..i] + [q[i]];
      ReplaySnoc(p, q[..i], q[i]);
      wa.Add(q[i]);
    }
    assert q[..|q|] == q;
    cost := wa.cost;
  }

  /** Leaves the cells packed in an order that costs no more than the sorted order it started from,
      and returns exactly that cost. */
  method Solve(problem: SmallProblem) returns (bestCost: real, ghost first: seq<nat>, ghost order: seq<nat>)
    requires problem.Valid()
    modifies problem`x
    ensures problem.Valid() && Permutes(first, |problem.x|) && SortedBy(old(problem.x), first)
    ensures Cells(problem.shape, first) && order == Passes(problem.shape, first, PASSES)
    ensures Permutes(order, |problem.x|) && PackedAs(problem.shape, order, problem.x)
    ensures bestCost == OrderCost(problem.shape, order) <= OrderCost(problem.shape, first)
  {
    var p := problem.shape;
    var q := SortCells(problem.x);
    first := q;
    var t: Table := NewTable(p, |q|);
    var wa := new TableEntry(p);
    var wb := new TableEntry(p);
    bestCost := Measure(p, q, wa);
    problem.Pack(q);
    var pass := 1;
    while pass <= PASSES
      invariant 1 <= pass <= PASSES + 1
      invariant problem.Valid() && Permutes(q, |problem.x|) && Cells(p, q)
      invariant PackedAs(p, q, problem.x) && bestCost == OrderCost(p, q)
      invariant t[0][0].parent == null
      invariant Passes(p, first, PASSES) == Passes(p, q, PASSES + 1 - pass)
    {
      var cost, next := RunPass(t, p, q, wa, wb, bestCost);
      if cost >= bestCost {
        break;
      }
      PassInterleaves(p, q);
      PermutesByMultiset(q, next, |problem.x|);
      bestCost, q := cost, next;
      problem.Pack(q);
      pass := pass + 1;
    }
    order := q;
    PassesImprove(p, first, PASSES);
  }
}
