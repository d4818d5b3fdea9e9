/** The interleaving table (detailed_interleaving.cxx): a pass splits the current order into two
    lists and fills a table of partial interleavings; the order is read back along the parents. */
module InterleaveTable {
  import opened RealMath
  import opened Intervals
  import opened InterleaveSpec

  // ----- what an entry stands for

  /** `o` takes all of `s` and all of `t`, each in its own order. */
  ghost predicate Interleaves(o: seq<nat>, s: seq<nat>, t: seq<nat>)
    decreases |o|
  {
    if o == [] then s == [] && t == []
    else
      var n := |o| - 1;
      || (s != [] && o[n] == s[|s| - 1] && Interleaves(o[..n], s[..|s| - 1], t))
      || (t != [] && o[n] == t[|t| - 1] && Interleaves(o[..n], s, t[..|t| - 1]))
  }

  lemma {:induction false} InterleavesMultiset(o: seq<nat>, s: seq<nat>, t: seq<nat>)
    requires Interleaves(o, s, t)
    ensures multiset(o) == multiset(s) + multiset(t)
    decreases |o|
  {
    if o != [] {
      var n := |o| - 1;
      assert o == o[..n] + [o[n]];
      if s != [] && o[n] == s[|s| - 1] && Interleaves(o[..n], s[..|s| - 1], t) {
        InterleavesMultiset(o[..n], s[..|s| - 1], t);
        assert s == s[..|s| - 1] + [s[|s| - 1]];
      } else {
        InterleavesMultiset(o[..n], s, t[..|t| - 1]);
        assert t == t[..|t| - 1] + [t[|t| - 1]];
      }
    }
  }

  /** The partial order kept in row i, column j: i cells of `b` and j cells of `a`, extended by the
      cheaper of the two last steps, the `a` step on ties. */
  ghost function Best(p: Problem, a: seq<nat>, b: seq<nat>, i: nat, j: nat): (o: seq<nat>)
    requires p.Valid() && Cells(p, a) && Cells(p, b) && i <= |b| && j <= |a|
    ensures Cells(p, o)
    decreases i + j
  {
    if i == 0 && j == 0 then []
    else if LastIsB(p, a, b, i, j) then Best(p, a, b, i - 1, j) + [b[i - 1]]
    else Best(p, a, b, i, j - 1) + [a[j - 1]]
  }

  ghost predicate LastIsB(p: Problem, a: seq<nat>, b: seq<nat>, i: nat, j: nat)
    requires p.Valid() && Cells(p, a) && Cells(p, b) && i <= |b| && j <= |a| && 0 < i + j
    ensures i == 0 ==> !LastIsB(p, a, b, i, j)
    ensures j == 0 ==> LastIsB(p, a, b, i, j)
    decreases i + j, 0
  {
    if i == 0 || j == 0 then j == 0
    else
      AddCell(p, Replay(p, Best(p, a, b, i, j - 1)), a[j - 1]).cost
      > AddCell(p, Replay(p, Best(p, a, b, i - 1, j)), b[i - 1]).cost
  }

  lemma {:induction false} InterleavesSnoc(o: seq<nat>, s: seq<nat>, t: seq<nat>, x: nat)
    requires Interleaves(o, s, t)
    ensures Interleaves(o + [x], s + [x], t) && Interleaves(o + [x], s, t + [x])
  {
    assert (o + [x])[..|o|] == o && (s + [x])[..|s|] == s && (t + [x])[..|t|] == t;
  }

  lemma {:induction false} InterleavesNext(o: seq<nat>, s: seq<nat>, i: nat, t: seq<nat>, j: nat)
    requires i <= |s| && j <= |t| && Interleaves(o, s[..i], t[..j])
    ensures i < |s| ==> Interleaves(o + [s[i]], s[..i + 1], t[..j])
    ensures j < |t| ==> Interleaves(o + [t[j]], s[..i], t[..j + 1])
  {
    if i < |s| {
      InterleavesSnoc(o, s[..i], t[..j], s[i]);
      assert s[..i] + [s[i]] == s[..i + 1];
    }
    if j < |t| {
      InterleavesSnoc(o, s[..i], t[..j], t[j]);
      assert t[..j] + [t[j]] == t[..j + 1];
    }
  }

  lemma {:induction false} BestInterleaves(p: Problem, a: seq<nat>, b: seq<nat>, i: nat, j: nat)
    requires p.Valid() && Cells(p, a) && Cells(p, b) && i <= |b| && j <= |a|
    ensures Interleaves(Best(p, a, b, i, j), b[..i], a[..j])
    decreases i + j
  {
    hide Interleaves, LastIsB;
    if i + j == 0 {
      InterleavesNone(b[..i], a[..j]);
    } else if LastIsB(p, a, b, i, j) {
      BestInterleaves(p, a, b, i - 1, j);
      InterleavesNext(Best(p, a, b, i - 1, j), b, i - 1, a, j);
    } else {
      BestInterleaves(p, a, b, i, j - 1);
      InterleavesNext(Best(p, a, b, i, j - 1), b, i, a, j - 1);
    }
  }

  lemma InterleavesNone(s: seq<nat>, t: seq<nat>)
    requires s == t == []
    ensures Interleaves([], s, t)
  {
  }

  /** The state an inner entry must hold, in terms of its two predecessors' states. */
  lemma {:induction false} BestValue(p: Problem, a: seq<nat>, b: seq<nat>, i: nat, j: nat)
    requires p.Valid() && Cells(p, a) && Cells(p, b) && 0 < i <= |b| && 0 < j <= |a|
    ensures var viaA := AddCell(p, Replay(p, Best(p, a, b, i, j - 1)), a[j - 1]);
      var viaB := AddCell(p, Replay(p, Best(p, a, b, i - 1, j)), b[i - 1]);
      && (LastIsB(p, a, b, i, j) <==> viaA.cost > viaB.cost)
      && Replay(p, Best(p, a, b, i, j)) == if viaA.cost <= viaB.cost then viaA else viaB
  {
    ReplaySnoc(p, Best(p, a, b, i, j - 1), a[j - 1]);
    ReplaySnoc(p, Best(p, a, b, i - 1, j), b[i - 1]);
  }

  class TableEntry {
    const problem: Problem
    var parent: TableEntry?
    var netBoxes: seq<Interval>
    var leftEdge: real
    var cost: real

    ghost function Value(): State
      reads this
    {
      State(leftEdge, cost, netBoxes)
    }

    ghost predicate Valid()
      reads this
    {
      problem.Valid() && |netBoxes| == |problem.netBoxes|
    }

    constructor (problem: Problem)
      requires problem.Valid()
      ensures this.problem == problem && parent == null && Valid() && Value() == Start(problem)
    {
      this.problem := problem;
      parent, leftEdge, cost, netBoxes := null, 0.0, 0.0, [];
      new;
      Clear();
    }

    method Clear()
      requires problem.Valid()
      modifies this`netBoxes, this`leftEdge, this`cost
      ensures Valid() && Value() == Start(problem)
    {
      leftEdge := problem.xmin;
      netBoxes := problem.netBoxes;
      var sum := 0.0;
      for e := 0 to |netBoxes|
        invariant netBoxes == problem.netBoxes && leftEdge == problem.xmin
        invariant sum == Sum(Widths(problem.netBoxes)[..e])
      {
        SumPrefix(Widths(problem.netBoxes), e);
        sum := sum + problem.netBoxes[e].Width();
      }
      assert Widths(problem.netBoxes)[..|problem.netBoxes|] == Widths(problem.netBoxes);
      cost := sum;
    }

    method Copy(other: TableEntry)
      requires problem == other.problem && other.Valid()
      modifies this`netBoxes, this`leftEdge, this`cost
      ensures Valid() && Value() == old(other.Value())
    {
      leftEdge := other.leftEdge;
      cost := other.cost;
      netBoxes := other.netBoxes;
    }

    method Add(i: nat)
      requires Valid() && i < |problem.widths|
      modifies this`netBoxes, this`leftEdge, this`cost
      ensures Valid() && Value() == AddCell(problem, old(Value()), i)
    {
      var x := leftEdge + 0.5 * problem.widths[i];
      var pins := problem.adj[i];
      ghost var was := Value();
      for k := 0 to |pins|
        invariant |netBoxes| == |problem.netBoxes|
        invariant Value() == AddPins(was, pins[..k], x)
      {
        assert pins[..k + 1][..k] == pins[..k];
        var edge := pins[k].edge;
        var offset := pins[k].offset;
        cost := cost - netBoxes[edge].Width();
        netBoxes := netBoxes[edge := netBoxes[edge].Add(x + offset)];
        cost := cost + netBoxes[edge].Width();
      }
      assert pins[..|pins|] == pins;
      leftEdge := leftEdge + problem.widths[i];
    }
  }

  /** Pointers into the entries, row i for i cells of `b`, column j for j cells of `a`. */
  type Table = seq<seq<TableEntry>>

  /** All entries are different objects working on the same problem. */
  ghost predicate Shaped(t: Table, p: Problem, na: nat, nb: nat) {
    && |t| > nb && (forall i :: 0 <= i <= nb ==> |t[i]| > na)
    && (forall i, j :: 0 <= i <= nb && 0 <= j <= na ==> t[i][j].problem == p)
    && (forall i, j, k, l :: 0 <= i <= nb && 0 <= j <= na && 0 <= k <= nb && 0 <= l <= na && (i != k || j != l) ==> t[i][j] != t[k][l])
  }

  /** Entry (i, j) holds the best partial order and points at the entry it was extended from. */
  ghost predicate EntryOk(t: Table, p: Problem, a: seq<nat>, b: seq<nat>, i: nat, j: nat)
    requires p.Valid() && Cells(p, a) && Cells(p, b) && Shaped(t, p, |a|, |b|) && i <= |b| && j <= |a|
    reads t[i][j]
  {
    && t[i][j].Value() == Replay(p, Best(p, a, b, i, j))
    && t[i][j].parent == ParentOf(t, p, a, b, i, j)
  }

  ghost function ParentOf(t: Table, p: Problem, a: seq<nat>, b: seq<nat>, i: nat, j: nat): TableEntry?
    requires p.Valid() && Cells(p, a) && Cells(p, b) && Shaped(t, p, |a|, |b|) && i <= |b| && j <= |a|
  {
    if i == 0 && j == 0 then null
    else if LastIsB(p, a, b, i, j) then t[i - 1][j]
    else t[i][j - 1]
  }

  ghost function Entries(t: Table, na: nat, nb: nat): set<TableEntry>
    requires |t| > nb && forall i :: 0 <= i <= nb ==> |t[i]| > na
  {
    set i, j | 0 <= i <= nb && 0 <= j <= na :: t[i][j]
  }

  /** An entry of the first column: only cells of `b`. */
  method FillColumn(t: Table, ghost p: Problem, a: seq<nat>, b: seq<nat>, i: nat)
    requires p.Valid() && Cells(p, a) && Cells(p, b) && Shaped(t, p, |a|, |b|)
    requires 0 < i <= |b| && EntryOk(t, p, a, b, i - 1, 0)
    modifies t[i][0]
    ensures EntryOk(t, p, a, b, i, 0)
  {
    var curr, prev := t[i][0], t[i - 1][0];
    curr.parent := prev;
    curr.Copy(prev);
    curr.Add(b[i - 1]);
    ReplaySnoc(p, Best(p, a, b, i - 1, 0), b[i - 1]);
  }

  /** An entry of the first row: only cells of `a`. */
  method FillRow(t: Table, ghost p: Problem, a: seq<nat>, b: seq<nat>, j: nat)
    requires p.Valid() && Cells(p, a) && Cells(p, b) && Shaped(t, p, |a|, |b|)
    requires 0 < j <= |a| && EntryOk(t, p, a, b, 0, j - 1)
    modifies t[0][j]
    ensures EntryOk(t, p, a, b, 0, j)
  {
    var curr, prev := t[0][j], t[0][j - 1];
    curr.parent := prev;
    curr.Copy(prev);
    curr.Add(a[j - 1]);
    ReplaySnoc(p, Best(p, a, b, 0, j - 1), a[j - 1]);
  }

  /** An inner entry: the cheaper of its two predecessors extended by one cell. */
  method FillInner(t: Table, ghost p: Problem, a: seq<nat>, b: seq<nat>, i: nat, j: nat, wa: TableEntry, wb: TableEntry)
    requires p.Valid() && Cells(p, a) && Cells(p, b) && Shaped(t, p, |a|, |b|)
    requires 0 < i <= |b| && 0 < j <= |a|
    requires wa.problem == p && wb.problem == p && wa != wb && wa !in Entries(t, |a|, |b|) && wb !in Entries(t, |a|, |b|)
    requires EntryOk(t, p, a, b, i - 1, j) && EntryOk(t, p, a, b, i, j - 1)
    modifies t[i][j], wa, wb
    ensures EntryOk(t, p, a, b, i, j)
  {
    var curr, up, left := t[i][j], t[i - 1][j], t[i][j - 1];
    assert wa != up && wa != left && wb != up && wa != curr && wb != curr;
    wa.Copy(left);
    wa.Add(a[j - 1]);
    wb.Copy(up);
    wb.Add(b[i - 1]);
    BestValue(p, a, b, i, j);
    if wa.cost <= wb.cost {
      curr.parent := left;
      curr.Copy(wa);
    } else {
      curr.parent := up;
      curr.Copy(wb);
    }
  }

  /** Filling goes column 0, row 0, then row by row: what comes before entry (i, j). */
  ghost predicate Before(i: nat, j: nat, k: nat, l: nat) {
    if j == 0 then l == 0 && k < i
    else if i == 0 then l == 0 || (k == 0 && l < j)
    else l == 0 || k < i || (k == i && l < j)
  }

  /** Every entry before (i, j) is filled in. */
  ghost predicate Filled(t: Table, p: Problem, a: seq<nat>, b: seq<nat>, i: nat, j: nat)
    requires p.Valid() && Cells(p, a) && Cells(p, b) && Shaped(t, p, |a|, |b|)
    reads Entries(t, |a|, |b|)
  {
    forall k: nat, l: nat {:trigger EntryOk(t, p, a, b, k, l)} :: k <= |b| && l <= |a| && Before(i, j, k, l) ==> EntryOk(t, p, a, b, k, l)
  }

  /** The same, seen without entry (i, j): untouched by whoever changes only that one. */
  ghost predicate Kept(t: Table, p: Problem, a: seq<nat>, b: seq<nat>, i: nat, j: nat)
    requires p.Valid() && Cells(p, a) && Cells(p, b) && Shaped(t, p, |a|, |b|) && i <= |b| && j <= |a|
    reads Entries(t, |a|, |b|) - {t[i][j]}
  {
    forall k: nat, l: nat {:trigger EntryOk(t, p, a, b, k, l)} :: k <= |b| && l <= |a| && Before(i, j, k, l) ==>
      t[k][l] in Entries(t, |a|, |b|) && t[k][l] != t[i][j] && EntryOk(t, p, a, b, k, l)
  }

  lemma {:induction false} KeepOthers(t: Table, p: Problem, a: seq<nat>, b: seq<nat>, i: nat, j: nat)
    requires p.Valid() && Cells(p, a) && Cells(p, b) && Shaped(t, p, |a|, |b|) && i <= |b| && j <= |a|
    requires Filled(t, p, a, b, i, j)
    ensures Kept(t, p, a, b, i, j)
  {
    forall k: nat, l: nat | k <= |b| && l <= |a| && Before(i, j, k, l)
      ensures t[k][l] in Entries(t, |a|, |b|) && t[k][l] != t[i][j] && EntryOk(t, p, a, b, k, l)
    {
      InEntries(t, |a|, |b|);
      assert k != i || l != j;
    }
  }

  method ColumnStep(t: Table, ghost p: Problem, a: seq<nat>, b: seq<nat>, i: nat)
    requires p.Valid() && Cells(p, a) && Cells(p, b) && Shaped(t, p, |a|, |b|)
    requires 0 < i <= |b| && Filled(t, p, a, b, i, 0)
    modifies t[i][0]
    ensures Filled(t, p, a, b, i + 1, 0)
  {
    KeepOthers(t, p, a, b, i, 0);
    FillColumn(t, p, a, b, i);
    assert Kept(t, p, a, b, i, 0);
  }

  method RowStep(t: Table, ghost p: Problem, a: seq<nat>, b: seq<nat>, j: nat)
    requires p.Valid() && Cells(p, a) && Cells(p, b) && Shaped(t, p, |a|, |b|)
    requires 0 < j <= |a| && Filled(t, p, a, b, 0, j)
    modifies t[0][j]
    ensures Filled(t, p, a, b, 0, j + 1)
  {
    KeepOthers(t, p, a, b, 0, j);
    FillRow(t, p, a, b, j);
    assert Kept(t, p, a, b, 0, j);
  }

  method InnerStep(t: Table, ghost p: Problem, a: seq<nat>, b: seq<nat>, i: nat, j: nat, wa: TableEntry, wb: TableEntry)
    requires p.Valid() && Cells(p, a) && Cells(p, b) && Shaped(t, p, |a|, |b|)
    requires 0 < i <= |b| && 0 < j <= |a|
    requires wa.problem == p && wb.problem == p && wa != wb && wa !in Entries(t, |a|, |b|) && wb !in Entries(t, |a|, |b|)
    requires Filled(t, p, a, b, i, j)
    modifies t[i][j], wa, wb
    ensures Filled(t, p, a, b, i, j + 1)
  {
    KeepOthers(t, p, a, b, i, j);
    FillInner(t, p, a, b, i, j, wa, wb);
    assert Kept(t, p, a, b, i, j);
  }

  lemma {:induction false} InEntries(t: Table, na: nat, nb: nat)
    requires |t| > nb && forall i :: 0 <= i <= nb ==> |t[i]| > na
    ensures forall i: nat, j: nat :: i <= nb && j <= na ==> t[i][j] in Entries(t, na, nb)
  {
  }

  lemma {:induction false} Turn(t: Table, p: Problem, a: seq<nat>, b: seq<nat>, i: nat, j: nat, i': nat, j': nat)
    requires p.Valid() && Cells(p, a) && Cells(p, b) && Shaped(t, p, |a|, |b|)
    requires Filled(t, p, a, b, i, j)
    requires forall k: nat, l: nat :: k <= |b| && l <= |a| && Before(i', j', k, l) ==> Before(i, j, k, l)
    ensures Filled(t, p, a, b, i', j')
  {
  }

  lemma {:induction false} FirstEntry(t: Table, p: Problem, a: seq<nat>, b: seq<nat>)
    requires p.Valid() && Cells(p, a) && Cells(p, b) && Shaped(t, p, |a|, |b|)
    requires EntryOk(t, p, a, b, 0, 0)
    ensures Filled(t, p, a, b, 1, 0)
  {
    forall k: nat, l: nat | k <= |b| && l <= |a| && Before(1, 0, k, l)
      ensures EntryOk(t, p, a, b, k, l)
    {
      assert k == 0 && l == 0;
    }
  }

  /** The whole table: the first column, the first row, then row by row. */
  method FillTable(t: Table, ghost p: Problem, a: seq<nat>, b: seq<nat>, wa: TableEntry, wb: TableEntry)
    requires p.Valid() && Cells(p, a) && Cells(p, b) && Shaped(t, p, |a|, |b|)
    requires wa.problem == p && wb.problem == p && wa != wb && wa !in Entries(t, |a|, |b|) && wb !in Entries(t, |a|, |b|)
    requires EntryOk(t, p, a, b, 0, 0)
    modifies Entries(t, |a|, |b|), wa, wb
    ensures Filled(t, p, a, b, |b| + 1, 1)
  {
    InEntries(t, |a|, |b|);
    FirstEntry(t, p, a, b);
    for i := 1 to |b| + 1
      invariant Filled(t, p, a, b, i, 0)
    {
      ColumnStep(t, p, a, b, i);
    }
    Turn(t, p, a, b, |b| + 1, 0, 0, 1);
    for j := 1 to |a| + 1
      invariant Filled(t, p, a, b, 0, j)
    {
      RowStep(t, p, a, b, j);
    }
    Turn(t, p, a, b, 0, |a| + 1, 1, 1);
    for i := 1 to |b| + 1
      invariant Filled(t, p, a, b, i, 1)
    {
      for j := 1 to |a| + 1
        invariant Filled(t, p, a, b, i, j)
      {
        InnerStep(t, p, a, b, i, j, wa, wb);
      }
      Turn(t, p, a, b, i, |a| + 1, i + 1, 1);
    }
  }

  function Reverse(s: seq<nat>): (r: seq<nat>)
    ensures |r| == |s|
  {
    if s == [] then [] else [s[|s| - 1]] + Reverse(s[..|s| - 1])
  }

  lemma {:induction false} ReverseSnoc(o: seq<nat>, x: nat, q: seq<nat>)
    ensures (o + [x]) + Reverse(q) == o + Reverse(q + [x])
  {
    assert (q + [x])[..|q|] == q;
  }

  /** Which predecessor an entry was extended from, and the cell added. The parent is always one of
      the two, so the trace cannot get stuck. */
  method TraceStep(t: Table, ghost p: Problem, a: seq<nat>, b: seq<nat>, i: nat, j: nat)
      returns (i': nat, j': nat, cell: nat)
    requires p.Valid() && Cells(p, a) && Cells(p, b) && Shaped(t, p, |a|, |b|) && i <= |b| && j <= |a|
    requires EntryOk(t, p, a, b, i, j) && t[i][j].parent != null
    ensures i' <= i && j' <= j && i' + j' < i + j && t[i][j].parent == t[i'][j']
    ensures Best(p, a, b, i, j) == Best(p, a, b, i', j') + [cell]
  {
    assert t[i][j].parent == ParentOf(t, p, a, b, i, j);
    i', j' := i, j;
    if i != 0 && t[i][j].parent == t[i - 1][j] {
      i' := i - 1;
      cell := b[i'];
    } else if j != 0 && t[i][j].parent == t[i][j - 1] {
      j' := j - 1;
      cell := a[j'];
    } else {
      assert false;
    }
  }

  /** The order found, read back from the last entry along the parents. */
  method ReadBack(t: Table, ghost p: Problem, a: seq<nat>, b: seq<nat>) returns (q: seq<nat>)
    requires p.Valid() && Cells(p, a) && Cells(p, b) && Shaped(t, p, |a|, |b|)
    requires Filled(t, p, a, b, |b| + 1, 1)
    ensures q == Best(p, a, b, |b|, |a|)
  {
    var i, j := |b|, |a|;
    q := [];
    assert EntryOk(t, p, a, b, i, j);
    while t[i][j].parent != null
      invariant 0 <= i <= |b| && 0 <= j <= |a| && EntryOk(t, p, a, b, i, j)
      invariant Best(p, a, b, |b|, |a|) == Best(p, a, b, i, j) + Reverse(q)
      decreases i + j
    {
      var k, l, cell := TraceStep(t, p, a, b, i, j);
      ReverseSnoc(Best(p, a, b, k, l), cell, q);
      i, j := k, l;
      q := q + [cell];
      assert EntryOk(t, p, a, b, i, j);
    }
    assert i == 0 && j == 0;
    q := Reverse(q);
  }
}
