/** The rows of the placement area (architecture.cxx): subrows are merged into rows, and the closest row to a
    height is found by binary search. */
module RowArchitecture {
  import opened RealMath
  import opened Permutations
  import opened RowMerge
  import opened RowGroups

  class Architecture {
    var rows: seq<Row>
    var xmin: real
    var xmax: real
    var fillers: seq<Filler>

    constructor (rows: seq<Row>)
      ensures this.rows == rows && fillers == []
    {
      this.rows, xmin, xmax, fillers := rows, 0.0, 0.0, [];
    }

    /** Subrows of one height become one row each; the gaps in it are filled. The rows' heights, each row's
        subrows and the one it is made from are those the given rows determine. */
    method PostProcess() returns (layouts: seq<Layout>)
      requires forall r :: r in rows ==> r.siteSpacing > 0.0 && r.left <= r.Right()
      modifies this
      ensures |rows| == |layouts| && forall r :: 0 <= r < |rows| ==> rows[r] == layouts[r].row && LaidOut(layouts[r], xmin, xmax)
      ensures Rising(rows) && RowsApart(rows)
      ensures |layouts| == |Bases(old(rows))| && forall r :: 0 <= r < |layouts| ==> Standing(layouts[r], old(rows), Bases(old(rows))[r])
      ensures multiset(Groups(layouts)) == multiset(old(rows)) && fillers == old(fillers) + AllFillers(layouts)
      ensures forall r :: r in old(rows) ==> xmin <= r.left && r.Right() <= xmax
      ensures old(rows) != [] ==> (exists r :: r in old(rows) && r.left == xmin) && exists r :: r in old(rows) && r.Right() == xmax
    {
      hide LaidOut;
      var sorted := SortRows(rows);
      SameRows(rows, sorted);
      Bounds(sorted);
      var merged := [];
      layouts, merged := MergeAll(sorted);
      BasesPermuted(rows, sorted);
      forall r | 0 <= r < |layouts|
        ensures Standing(layouts[r], rows, Bases(rows)[r])
      {
        StandingPermuted(layouts[r], sorted, rows, Bases(rows)[r]);
      }
      assert Rising(merged) by {
        assert RowsApart(merged);
      }
      rows := SortRows(merged);
    }

    /** The ends of the area. */
    method Bounds(s: seq<Row>)
      modifies this`xmin, this`xmax
      ensures forall r :: r in s ==> xmin <= r.left && r.Right() <= xmax
      ensures s != [] ==> (exists r :: r in s && r.left == xmin) && exists r :: r in s && r.Right() == xmax
    {
      for r := 0 to |s|
        invariant forall k :: 0 <= k < r ==> xmin <= s[k].left && s[k].Right() <= xmax
        invariant r > 0 ==> (exists v :: v in s && v.left == xmin) && exists v :: v in s && v.Right() == xmax
      {
        xmin := if r == 0 then s[r].left else Min(xmin, s[r].left);
        xmax := if r == 0 then s[r].Right() else Max(xmax, s[r].Right());
      }
    }

    /** Group by group. */
    method MergeAll(sorted: seq<Row>) returns (layouts: seq<Layout>, merged: seq<Row>)
      requires RowsSorted(sorted)
      requires forall r :: r in sorted ==> r.siteSpacing > 0.0 && r.left <= r.Right() && xmin <= r.left && r.Right() <= xmax
      modifies this`fillers
      ensures |merged| == |layouts| && forall r :: 0 <= r < |merged| ==> merged[r] == layouts[r].row && LaidOut(layouts[r], xmin, xmax)
      ensures |layouts| == |Bases(sorted)| && forall r :: 0 <= r < |layouts| ==> Standing(layouts[r], sorted, Bases(sorted)[r])
      ensures RowsApart(merged) && Groups(layouts) == sorted && fillers == old(fillers) + AllFillers(layouts)
    {
      hide MergedTo, RowsSorted, Groups, AllFillers, Bases;
      layouts, merged := [], [];
      var r := 0;
      ghost var bases: seq<real> := [];
      MergedNone(sorted);
      assert fillers == fillers + AllFillers([]) by {
        GroupsNone();
      }
      while r < |sorted|
        invariant r <= |sorted| && MergedTo(sorted, layouts, merged, bases, r, xmin, xmax)
        invariant forall k, j :: 0 <= k < r <= j < |sorted| ==> sorted[k].bottom < sorted[j].bottom
        invariant fillers == old(fillers) + AllFillers(layouts)
      {
        var first := r;
        r := GroupEnd(sorted, first);
        var layout := MergeGroup(sorted[first..r]);
        bases := MergedNext(sorted, layouts, merged, bases, first, r, layout);
        MoreFillers(old(fillers), layouts, layout);
        fillers := fillers + layout.fillers;
        merged, layouts := merged + [layout.row], layouts + [layout];
      }
      MergedAll(sorted, layouts, merged, bases);
    }

    /** The rows below position r are merged: their groups, rows and heights. */
    static ghost predicate MergedTo(sorted: seq<Row>, layouts: seq<Layout>, merged: seq<Row>, bases: seq<real>, r: nat, xmin: real, xmax: real) {
      && r <= |sorted| && Groups(layouts) == sorted[..r] && |merged| == |layouts| == |bases|
      && (forall k :: 0 <= k < |merged| ==> merged[k] == layouts[k].row && LaidOut(layouts[k], xmin, xmax))
      && bases + Bases(sorted[r..]) == Bases(sorted)
      && (forall k :: 0 <= k < |layouts| ==> Standing(layouts[k], sorted, bases[k]))
      && RowsApart(merged)
      && (forall k, j :: 0 <= k < |merged| && r <= j < |sorted| ==> sorted[j].bottom - merged[k].bottom >= SAME_ROW)
    }

    lemma MergedNone(sorted: seq<Row>)
      ensures MergedTo(sorted, [], [], [], 0, xmin, xmax)
    {
      hide Bases;
      GroupsNone();
      assert [] + Bases(sorted) == Bases(sorted) && sorted[0..] == sorted && sorted[..0] == [];
    }

    lemma MergedNext(sorted: seq<Row>, layouts: seq<Layout>, merged: seq<Row>, bases: seq<real>, first: nat, r: nat, layout: Layout)
        returns (next: seq<real>)
      requires RowsSorted(sorted) && first < r <= |sorted| && MergedTo(sorted, layouts, merged, bases, first, xmin, xmax)
      requires forall k, j :: 0 <= k < first <= j < |sorted| ==> sorted[k].bottom < sorted[j].bottom
      requires forall k :: first <= k < r ==> Abs(sorted[k].bottom - sorted[first].bottom) < SAME_ROW
      requires forall k :: r <= k < |sorted| ==> sorted[k].bottom - sorted[first].bottom >= SAME_ROW
      requires layout.group == sorted[first..r] && layout.row.bottom == sorted[first].bottom && LaidOut(layout, xmin, xmax)
      ensures MergedTo(sorted, layouts + [layout], merged + [layout.row], next, r, xmin, xmax)
    {
      hide LaidOut, RowsSorted, Groups, AllFillers, Standing, Bases;
      GroupsSnoc(layouts, layout);
      next := NextBase(sorted, first, r, layout, bases);
      assert sorted[..first] + sorted[first..r] == sorted[..r];
    }

    lemma MoreFillers(was: seq<Filler>, layouts: seq<Layout>, layout: Layout)
      ensures was + AllFillers(layouts + [layout]) == was + AllFillers(layouts) + layout.fillers
    {
      hide AllFillers;
      GroupsSnoc(layouts, layout);
      assert was + (AllFillers(layouts) + layout.fillers) == was + AllFillers(layouts) + layout.fillers;
    }

    lemma MergedAll(sorted: seq<Row>, layouts: seq<Layout>, merged: seq<Row>, bases: seq<real>)
      requires MergedTo(sorted, layouts, merged, bases, |sorted|, xmin, xmax)
      ensures |merged| == |layouts| && forall r :: 0 <= r < |merged| ==> merged[r] == layouts[r].row && LaidOut(layouts[r], xmin, xmax)
      ensures |layouts| == |Bases(sorted)| && forall r :: 0 <= r < |layouts| ==> Standing(layouts[r], sorted, Bases(sorted)[r])
      ensures RowsApart(merged) && Groups(layouts) == sorted
    {
      hide LaidOut, Groups, Standing, Bases;
      NoBases();
      assert sorted[..|sorted|] == sorted && sorted[|sorted|..] == [];
      assert bases == Bases(sorted);
    }

    /** Past the rows of the same height as the first. */
    method GroupEnd(sorted: seq<Row>, first: nat) returns (r: nat)
      requires RowsSorted(sorted) && first < |sorted|
      requires forall k, j :: 0 <= k < first <= j < |sorted| ==> sorted[k].bottom < sorted[j].bottom
      ensures first < r <= |sorted| && forall k :: first <= k < r ==> Abs(sorted[k].bottom - sorted[first].bottom) < SAME_ROW
      ensures forall k :: r <= k < |sorted| ==> sorted[k].bottom - sorted[first].bottom >= SAME_ROW
      ensures forall k, j :: 0 <= k < r <= j < |sorted| ==> sorted[k].bottom < sorted[j].bottom
    {
      hide RowsSorted;
      r := first + 1;
      while r < |sorted| && Abs(sorted[r].bottom - sorted[first].bottom) < SAME_ROW
        invariant first < r <= |sorted|
        invariant forall k :: first <= k < r ==> Abs(sorted[k].bottom - sorted[first].bottom) < SAME_ROW
      {
        r := r + 1;
      }
      NextHigher(sorted, first, r);
    }

    lemma NextHigher(s: seq<Row>, first: nat, r: nat)
      requires RowsSorted(s) && first < r <= |s| && (r < |s| ==> Abs(s[r].bottom - s[first].bottom) >= SAME_ROW)
      requires forall k :: first <= k < r ==> Abs(s[k].bottom - s[first].bottom) < SAME_ROW
      requires forall k, j :: 0 <= k < first <= j < |s| ==> s[k].bottom < s[j].bottom
      ensures forall j :: r <= j < |s| ==> s[j].bottom - s[first].bottom >= SAME_ROW
      ensures forall k, j :: 0 <= k < r <= j < |s| ==> s[k].bottom < s[j].bottom
    {
    }

    lemma NextBase(s: seq<Row>, first: nat, r: nat, l: Layout, bases: seq<real>) returns (next: seq<real>)
      requires RowsSorted(s) && first < r <= |s| && l.group == s[first..r]
      requires forall k :: 0 <= k < first ==> s[k].bottom < s[first].bottom
      requires forall k :: first <= k < r ==> Abs(s[k].bottom - s[first].bottom) < SAME_ROW
      requires forall k :: r <= k < |s| ==> s[k].bottom - s[first].bottom >= SAME_ROW
      requires bases + Bases(s[first..]) == Bases(s)
      ensures next == bases + [s[first].bottom] && next + Bases(s[r..]) == Bases(s)
      ensures Standing(l, s, s[first].bottom)
    {
      hide Standing, Bases;
      RunStands(s, first, r, l);
      RunBase(s[first..], r - first);
      assert s[first..][r - first..] == s[r..];
      next := bases + [s[first].bottom];
      assert next + Bases(s[r..]) == bases + ([s[first].bottom] + Bases(s[r..]));
    }

    /** One row from the subrows of one height. */
    method MergeGroup(subrows: seq<Row>) returns (layout: Layout)
      requires subrows != [] && forall r :: r in subrows ==> Abs(r.bottom - subrows[0].bottom) < SAME_ROW
      requires forall r :: r in subrows ==> r.siteSpacing > 0.0 && r.left <= r.Right() && xmin <= r.left && r.Right() <= xmax
      ensures layout.group == subrows && layout.row.bottom == subrows[0].bottom && LaidOut(layout, xmin, xmax)
    {
      hide Tiles, InSome, InRows, Separated;
      var segments := seq(|subrows|, i requires 0 <= i < |subrows| => Segment(subrows[i].left, subrows[i].Right()));
      SegmentsOfRows(subrows, segments);
      var sorted := SortSegments(segments);
      SameSegments(segments, sorted);
      assert Proper(sorted) by {
        assert forall i :: 0 <= i < |sorted| ==> sorted[i] in sorted;
      }
      var merged := Merge(sorted);
      EndsInside(sorted, merged);
      var row := subrows[0];
      if |subrows| > 1 {
        row := row.(numSites := Trunc((merged[|merged| - 1].hi - merged[0].lo) / row.siteSpacing));
      }
      var f := FillGaps(xmin, xmax, merged, row.CenterY(), row.height);
      layout := Layout(subrows, row, merged, f);
    }

    lemma SegmentsOfRows(rows: seq<Row>, segments: seq<Segment>)
      requires |segments| == |rows| && forall i :: 0 <= i < |rows| ==> segments[i] == Segment(rows[i].left, rows[i].Right())
      ensures forall x :: InSome(segments, x) <==> InRows(rows, x)
      ensures forall v :: v in segments ==> exists r :: r in rows && v == Segment(r.left, r.Right())
    {
      forall v | v in segments
        ensures exists r :: r in rows && v == Segment(r.left, r.Right())
      {
        var i :| 0 <= i < |segments| && segments[i] == v;
        assert rows[i] in rows;
      }
      forall x | InRows(rows, x)
        ensures InSome(segments, x)
      {
        var r :| 0 <= r < |rows| && rows[r].left <= x <= rows[r].Right();
        assert segments[r].Has(x);
      }
    }

    /** Sorting keeps the union and the bounds. */
    lemma SameSegments(a: seq<Segment>, b: seq<Segment>)
      requires multiset(a) == multiset(b)
      ensures |a| == |b| && (forall x :: InSome(a, x) <==> InSome(b, x))
      ensures forall v :: v in a <==> v in b
    {
      assert |a| == |multiset(a)| == |multiset(b)| == |b|;
      assert forall v :: v in a <==> v in multiset(a);
      assert forall v :: v in b <==> v in multiset(b);
      forall x
        ensures InSome(a, x) <==> InSome(b, x)
      {
        SomeOf(a, b, x);
        SomeOf(b, a, x);
      }
    }

    lemma SomeOf(a: seq<Segment>, b: seq<Segment>, x: real)
      requires forall v :: v in a ==> v in b
      ensures InSome(a, x) ==> InSome(b, x)
    {
      if InSome(a, x) {
        var i :| 0 <= i < |a| && a[i].Has(x);
        assert a[i] in b;
        var j :| 0 <= j < |b| && b[j] == a[i];
        assert b[j].Has(x);
      }
    }

    /** The merged intervals begin and end where some interval is. */
    lemma EndsInside(s: seq<Segment>, merged: seq<Segment>)
      requires merged != [] && Separated(merged) && forall x :: InSome(merged, x) <==> InSome(s, x)
      requires forall v :: v in s ==> xmin <= v.lo && v.hi <= xmax
      ensures xmin <= merged[0].lo && merged[|merged| - 1].hi <= xmax
    {
      assert merged[0].Has(merged[0].lo) && merged[|merged| - 1].Has(merged[|merged| - 1].hi);
      assert InSome(s, merged[0].lo) && InSome(s, merged[|merged| - 1].hi);
    }

    /** A stable sort by height. */
    static method SortRows(s: seq<Row>) returns (r: seq<Row>)
      ensures RowsSorted(r) && multiset(r) == multiset(s)
      ensures forall b :: WithBottom(r, b) == WithBottom(s, b)
      ensures RowsSorted(s) ==> r == s
    {
      r := [];
      NoRows();
      ghost var inOrder := RowsSorted(s);
      for i := 0 to |s|
        invariant RowsSorted(r) && multiset(r) == multiset(s[..i]) && (inOrder ==> r == s[..i])
        invariant forall b :: WithBottom(r, b) == WithBottom(s[..i], b)
      {
        hide RowsSorted, WithBottom;
        InOrder(s, i);
        var k := |r|;
        while k > 0 && s[i].bottom < r[k - 1].bottom
          invariant 0 <= k <= |r| && (k < |r| ==> s[i].bottom < r[k].bottom) && (inOrder ==> k == |r|)
        {
          k := k - 1;
        }
        InsertRow(r, k, s[i]);
        InsertStable(r, k, s[..i], s[i]);
        InsertMultiset(r, k, s[i]);
        assert s[..i + 1] == s[..i] + [s[i]];
        r := r[..k] + [s[i]] + r[k..];
      }
      assert s[..|s|] == s;
    }

    static lemma NoRows()
      ensures RowsSorted([])
    {
    }

    static lemma InOrder(s: seq<Row>, i: nat)
      requires i < |s|
      ensures RowsSorted(s) && i > 0 ==> s[i - 1].bottom <= s[i].bottom
    {
    }

    /** The row put in before all higher ones comes last of its height. */
    static lemma {:induction false} InsertStable(r: seq<Row>, k: nat, t: seq<Row>, v: Row)
      requires RowsSorted(r) && k <= |r| && (k < |r| ==> v.bottom < r[k].bottom)
      requires forall b :: WithBottom(r, b) == WithBottom(t, b)
      ensures forall b :: WithBottom(r[..k] + [v] + r[k..], b) == WithBottom(t + [v], b)
    {
      forall b
        ensures WithBottom(r[..k] + [v] + r[k..], b) == WithBottom(t + [v], b)
      {
        hide WithBottom;
        assert WithBottom(r, b) == WithBottom(t, b);
        BottomConcat(t, [v], b);
        BottomConcat(r[..k] + [v], r[k..], b);
        BottomConcat(r[..k], [v], b);
        assert r == r[..k] + r[k..];
        BottomConcat(r[..k], r[k..], b);
        if v.bottom == b {
          BottomNone(r[k..], b);
        } else {
          BottomNone([v], b);
        }
        OneEmpty(WithBottom(r[..k], b), WithBottom([v], b), WithBottom(r[k..], b));
      }
    }

    static lemma OneEmpty(a: seq<Row>, v: seq<Row>, c: seq<Row>)
      requires v == [] || c == []
      ensures a + v + c == a + c + v
    {
    }

    static lemma {:induction false} InsertRow(r: seq<Row>, k: nat, v: Row)
      requires RowsSorted(r) && k <= |r|
      requires k > 0 ==> r[k - 1].bottom <= v.bottom
      requires k < |r| ==> v.bottom <= r[k].bottom
      ensures RowsSorted(r[..k] + [v] + r[k..])
    {
      var t := r[..k] + [v] + r[k..];
      forall i, j | 0 <= i < j < |t|
        ensures t[i].bottom <= t[j].bottom
      {
        var p, q := if i < k then i else i - 1, if j < k then j else j - 1;
        if i != k && j != k {
          assert t[i] == r[p] && t[j] == r[q];
        } else if i < k {
          assert t[i] == r[i] && t[j] == v && r[i].bottom <= r[k - 1].bottom;
        } else {
          assert t[i] == v && t[j] == r[q] && r[k].bottom <= r[q].bottom;
        }
      }
    }

    // ----- finding a row

    /** The first row not below y; the number of rows when all are. */
    method LowerBound(y: real) returns (r: nat)
      requires Rising(rows)
      ensures r <= |rows| && (forall k :: 0 <= k < r ==> rows[k].bottom < y) && (r < |rows| ==> rows[r].bottom >= y)
    {
      var lo, hi := 0, |rows|;
      while lo < hi
        invariant 0 <= lo <= hi <= |rows|
        invariant (forall k :: 0 <= k < lo ==> rows[k].bottom < y) && (hi < |rows| ==> rows[hi].bottom >= y)
      {
        var mid := (lo + hi) / 2;
        if rows[mid].bottom < y {
          lo := mid + 1;
        } else {
          hi := mid;
        }
      }
      r := lo;
    }

    /** The row nearest to y, the lower one of two equally near. */
    method FindClosestRow(y: real) returns (r: nat)
      requires rows != [] && Rising(rows)
      ensures r < |rows| && forall k :: 0 <= k < |rows| ==>
        Abs(rows[r].bottom - y) <= Abs(rows[k].bottom - y) && (k < r ==> Abs(rows[r].bottom - y) < Abs(rows[k].bottom - y))
    {
      r := 0;
      if y > rows[0].bottom {
        r := LowerBound(y);
        if r == |rows| || rows[r].bottom > y {
          r := r - 1;
        }
        if r < |rows| - 1 && Abs(rows[r + 1].bottom - y) < Abs(rows[r].bottom - y) {
          r := r + 1;
        }
      }
    }
  }
}
