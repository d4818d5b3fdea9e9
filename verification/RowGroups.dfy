/** Which subrows become which rows (architecture.cxx), as functions of the rows given, and when a row made
    of several spans what they span. */
module RowGroups {
  import opened RealMath
  import opened RowMerge

  /** Bottoms nearer than this are one height. */
  const SAME_ROW: real := 0.001

  // ----- parts of a list of rows, in its order

  function Select(rows: seq<Row>, p: Row -> bool): (s: seq<Row>)
    ensures |s| <= |rows|
  {
    if rows == [] then [] else Select(rows[..|rows| - 1], p) + Kept(rows[|rows| - 1], p)
  }

  function Kept(r: Row, p: Row -> bool): seq<Row> {
    if p(r) then [r] else []
  }

  /** The rows at exactly this height. */
  function WithBottom(rows: seq<Row>, b: real): seq<Row> {
    Select(rows, (r: Row) => r.bottom == b)
  }

  /** The rows that count as being at this height: these and the ones just above. */
  function Near(rows: seq<Row>, b: real): seq<Row> {
    Select(rows, (r: Row) => 0.0 <= r.bottom - b < SAME_ROW)
  }

  function Higher(rows: seq<Row>, b: real): seq<Row> {
    Select(rows, (r: Row) => r.bottom - b >= SAME_ROW)
  }

  lemma {:induction false} SelectMembers(rows: seq<Row>, p: Row -> bool)
    ensures forall r :: r in Select(rows, p) <==> r in rows && p(r)
    ensures (exists r :: r in rows && !p(r)) ==> |Select(rows, p)| < |rows|
  {
    if rows != [] {
      SelectMembers(rows[..|rows| - 1], p);
      assert rows == rows[..|rows| - 1] + [rows[|rows| - 1]];
    }
  }

  lemma {:induction false} SelectConcat(s: seq<Row>, t: seq<Row>, p: Row -> bool)
    ensures Select(s + t, p) == Select(s, p) + Select(t, p)
  {
    hide Kept;
    if t == [] {
      assert s + t == s;
    } else {
      var n := |t| - 1;
      SelectConcat(s, t[..n], p);
      assert (s + t)[..|s + t| - 1] == s + t[..n] && (s + t)[|s + t| - 1] == t[n];
      assert Select(s, p) + Select(t[..n], p) + Kept(t[n], p) == Select(s, p) + (Select(t[..n], p) + Kept(t[n], p));
    }
  }

  lemma {:induction false} SelectNone(s: seq<Row>, p: Row -> bool)
    requires forall i :: 0 <= i < |s| ==> !p(s[i])
    ensures Select(s, p) == []
  {
    if s != [] {
      SelectNone(s[..|s| - 1], p);
    }
  }

  lemma {:induction false} SelectAll(s: seq<Row>, p: Row -> bool)
    requires forall i :: 0 <= i < |s| ==> p(s[i])
    ensures Select(s, p) == s
  {
    if s != [] {
      SelectAll(s[..|s| - 1], p);
      assert s == s[..|s| - 1] + [s[|s| - 1]];
    }
  }

  /** Selecting exactly a stretch. */
  lemma {:induction false} SelectStretch(s: seq<Row>, i: nat, j: nat, p: Row -> bool)
    requires i <= j <= |s| && forall k :: 0 <= k < |s| ==> (p(s[k]) <==> i <= k < j)
    ensures Select(s, p) == s[i..j]
  {
    hide Select;
    assert s == s[..i] + (s[i..j] + s[j..]);
    SelectConcat(s[..i], s[i..j] + s[j..], p);
    SelectConcat(s[i..j], s[j..], p);
    SelectNone(s[..i], p);
    SelectAll(s[i..j], p);
    SelectNone(s[j..], p);
  }

  lemma {:induction false} SelectCount(s: seq<Row>, p: Row -> bool, r: Row)
    ensures multiset(Select(s, p))[r] == if p(r) then multiset(s)[r] else 0
  {
    if s != [] {
      var n := |s| - 1;
      SelectCount(s[..n], p, r);
      assert multiset(Select(s, p)) == multiset(Select(s[..n], p)) + multiset(Kept(s[n], p));
      hide Select;
      assert s == s[..n] + [s[n]];
    }
  }

  lemma {:induction false} SelectPermuted(s: seq<Row>, t: seq<Row>, p: Row -> bool)
    requires multiset(s) == multiset(t)
    ensures multiset(Select(s, p)) == multiset(Select(t, p))
  {
    forall r: Row
      ensures multiset(Select(s, p))[r] == multiset(Select(t, p))[r]
    {
      SelectCount(s, p, r);
      SelectCount(t, p, r);
    }
  }

  lemma BottomConcat(s: seq<Row>, t: seq<Row>, b: real)
    ensures WithBottom(s + t, b) == WithBottom(s, b) + WithBottom(t, b)
  {
    SelectConcat(s, t, (r: Row) => r.bottom == b);
  }

  lemma BottomNone(s: seq<Row>, b: real)
    requires forall i :: 0 <= i < |s| ==> s[i].bottom != b
    ensures WithBottom(s, b) == []
  {
    SelectNone(s, (r: Row) => r.bottom == b);
  }

  // ----- the heights

  ghost function Lowest(rows: seq<Row>): (b: real)
    requires rows != []
    ensures (exists i :: 0 <= i < |rows| && rows[i].bottom == b) && forall i :: 0 <= i < |rows| ==> b <= rows[i].bottom
  {
    var n := |rows| - 1;
    if n == 0 then rows[0].bottom else Min(Lowest(rows[..n]), rows[n].bottom)
  }

  /** The heights of the rows that come out: the lowest bottom, then the lowest of what is higher. */
  ghost function Bases(rows: seq<Row>): (b: seq<real>)
    decreases |rows|
  {
    if rows == [] then []
    else
      var b := Lowest(rows);
      assert exists r :: r in rows && r.bottom == b;
      SelectMembers(rows, (r: Row) => r.bottom - b >= SAME_ROW);
      [b] + Bases(Higher(rows, b))
  }

  lemma NoBases()
    ensures Bases([]) == []
  {
  }

  lemma SameRows(a: seq<Row>, b: seq<Row>)
    requires multiset(a) == multiset(b)
    ensures forall r :: r in a <==> r in b
  {
    assert forall r :: r in a <==> r in multiset(a);
    assert forall r :: r in b <==> r in multiset(b);
  }

  lemma SameLowest(s: seq<Row>, t: seq<Row>)
    requires s != [] && t != [] && forall r :: r in s <==> r in t
    ensures Lowest(s) == Lowest(t)
  {
    var i :| 0 <= i < |s| && s[i].bottom == Lowest(s);
    var j :| 0 <= j < |t| && t[j].bottom == Lowest(t);
    assert s[i] in t && t[j] in s;
  }

  /** They do not depend on the order of the rows. */
  lemma {:induction false} BasesPermuted(s: seq<Row>, t: seq<Row>)
    requires multiset(s) == multiset(t)
    ensures Bases(s) == Bases(t)
    decreases |s|
  {
    assert |s| == |multiset(s)| == |multiset(t)| == |t|;
    if s != [] {
      SameRows(s, t);
      SameLowest(s, t);
      var b := Lowest(s);
      assert exists r :: r in s && r.bottom == b;
      SelectMembers(s, (r: Row) => r.bottom - b >= SAME_ROW);
      SelectPermuted(s, t, (r: Row) => r.bottom - b >= SAME_ROW);
      BasesPermuted(Higher(s, b), Higher(t, b));
    }
  }

  // ----- rows in order of height

  ghost predicate RowsSorted(rows: seq<Row>) {
    forall i, j :: 0 <= i < j < |rows| ==> rows[i].bottom <= rows[j].bottom
  }

  ghost predicate Rising(rows: seq<Row>) {
    forall i, j :: 0 <= i < j < |rows| ==> rows[i].bottom < rows[j].bottom
  }

  ghost predicate RowsApart(rows: seq<Row>) {
    forall i, j :: 0 <= i < j < |rows| ==> rows[j].bottom - rows[i].bottom >= SAME_ROW
  }

  /** A run of sorted rows is one height's rows... */
  lemma {:induction false} RunStands(s: seq<Row>, first: nat, r: nat, l: Layout)
    requires RowsSorted(s) && first < r <= |s| && l.group == s[first..r]
    requires forall k :: 0 <= k < first ==> s[k].bottom < s[first].bottom
    requires forall k :: first <= k < r ==> s[k].bottom - s[first].bottom < SAME_ROW
    requires forall k :: r <= k < |s| ==> s[k].bottom - s[first].bottom >= SAME_ROW
    ensures Standing(l, s, s[first].bottom)
  {
    hide Near, WithBottom;
    RunIsNear(s, first, r);
    RunFirst(s, first);
  }

  /** ... and what is above it has the other heights. */
  lemma {:induction false} RunBase(s: seq<Row>, n: nat)
    requires RowsSorted(s) && 0 < n <= |s|
    requires forall k :: 0 <= k < |s| ==> (s[k].bottom - s[0].bottom >= SAME_ROW <==> n <= k)
    ensures Bases(s) == [s[0].bottom] + Bases(s[n..])
  {
    hide Select;
    var b := s[0].bottom;
    assert Lowest(s) == b;
    SelectStretch(s, n, |s|, (x: Row) => x.bottom - b >= SAME_ROW);
    assert s[n..|s|] == s[n..];
  }

  lemma {:induction false} RunIsNear(s: seq<Row>, first: nat, r: nat)
    requires RowsSorted(s) && first < r <= |s|
    requires forall k :: 0 <= k < first ==> s[k].bottom < s[first].bottom
    requires forall k :: first <= k < r ==> s[k].bottom - s[first].bottom < SAME_ROW
    requires forall k :: r <= k < |s| ==> s[k].bottom - s[first].bottom >= SAME_ROW
    ensures Near(s, s[first].bottom) == s[first..r]
  {
    var b := s[first].bottom;
    SelectStretch(s, first, r, (x: Row) => 0.0 <= x.bottom - b < SAME_ROW);
  }

  lemma {:induction false} RunFirst(s: seq<Row>, first: nat)
    requires first < |s| && forall k :: 0 <= k < first ==> s[k].bottom < s[first].bottom
    ensures var w := WithBottom(s, s[first].bottom); w != [] && w[0] == s[first]
  {
    var b := s[first].bottom;
    assert s == s[..first] + ([s[first]] + s[first + 1..]);
    SelectConcat(s[..first], [s[first]] + s[first + 1..], (x: Row) => x.bottom == b);
    SelectConcat([s[first]], s[first + 1..], (x: Row) => x.bottom == b);
    SelectNone(s[..first], (x: Row) => x.bottom == b);
    SelectAll([s[first]], (x: Row) => x.bottom == b);
  }

  // ----- one row of the result

  /** A row of the result: the subrows it stands for, where they are, and what blocks the rest. */
  datatype Layout = Layout(group: seq<Row>, row: Row, merged: seq<Segment>, fillers: seq<Filler>)

  ghost predicate InRows(rows: seq<Row>, x: real) {
    exists r :: 0 <= r < |rows| && rows[r].left <= x <= rows[r].Right()
  }

  /** The row the subrows become: the first of them, made as long as all of them reach. */
  function MergedRow(group: seq<Row>, merged: seq<Segment>): Row
    requires group != [] && merged != [] && group[0].siteSpacing > 0.0
  {
    if |group| == 1 then group[0]
    else group[0].(numSites := Trunc((merged[|merged| - 1].hi - merged[0].lo) / group[0].siteSpacing))
  }

  /** The intervals are the union of the subrows, and with the fillers they tile the width of the area. */
  ghost predicate LaidOut(l: Layout, xmin: real, xmax: real) {
    && l.group != [] && (forall r :: r in l.group ==> Abs(r.bottom - l.group[0].bottom) < SAME_ROW)
    && l.merged != [] && Separated(l.merged) && l.group[0].siteSpacing > 0.0 && l.row == MergedRow(l.group, l.merged)
    && (forall x :: InSome(l.merged, x) <==> InRows(l.group, x))
    && Tiles(xmin, xmax, l.merged, l.fillers)
    && (forall f :: f in l.fillers ==> f.y - 0.5 * f.height == l.row.bottom && f.height == l.row.height)
  }

  /** The layout stands for the rows at this height, and begins with the first listed of the lowest. */
  ghost predicate Standing(l: Layout, rows: seq<Row>, b: real) {
    && multiset(l.group) == multiset(Near(rows, b))
    && WithBottom(rows, b) != [] && l.group != [] && l.group[0] == WithBottom(rows, b)[0]
  }

  lemma {:induction false} StandingPermuted(l: Layout, s: seq<Row>, t: seq<Row>, b: real)
    requires multiset(s) == multiset(t) && WithBottom(s, b) == WithBottom(t, b) && Standing(l, s, b)
    ensures Standing(l, t, b)
  {
    SelectPermuted(s, t, (r: Row) => 0.0 <= r.bottom - b < SAME_ROW);
  }

  ghost function Rightmost(rows: seq<Row>): (x: real)
    requires rows != []
    ensures (exists i :: 0 <= i < |rows| && rows[i].Right() == x) && forall i :: 0 <= i < |rows| ==> rows[i].Right() <= x
  {
    var n := |rows| - 1;
    if n == 0 then rows[0].Right() else Max(Rightmost(rows[..n]), rows[n].Right())
  }

  /** It reaches from the start of the first interval to the end of the last. */
  ghost predicate Spans(l: Layout)
    requires l.merged != []
  {
    l.row.left == l.merged[0].lo && l.row.Right() == l.merged[|l.merged| - 1].hi
  }

  /** The rows given at this height tell: the first listed of the lowest is the leftmost, and what they span
      is a whole number of its sites. */
  ghost predicate WillSpan(rows: seq<Row>, b: real)
    requires WithBottom(rows, b) != [] && WithBottom(rows, b)[0].siteSpacing > 0.0
  {
    var near, first := Near(rows, b), WithBottom(rows, b)[0];
    |near| == 1
    || (near != [] && (forall r :: r in near ==> first.left <= r.left)
        && Whole((Rightmost(near) - first.left) / first.siteSpacing))
  }

  /** The left end of a row made of several is never set, so it spans what they span exactly when the rows
      given say so. */
  lemma {:induction false} SpansExactlyWhen(l: Layout, rows: seq<Row>, b: real, xmin: real, xmax: real)
    requires LaidOut(l, xmin, xmax) && Standing(l, rows, b) && forall r :: r in rows ==> r.left <= r.Right()
    ensures Spans(l) <==> WillSpan(rows, b)
  {
    hide LaidOut, Rightmost, Near, Spans;
    SameGroup(l, rows, b);
    GroupSpans(l, xmin, xmax);
  }

  lemma {:induction false} SameGroup(l: Layout, rows: seq<Row>, b: real)
    requires Standing(l, rows, b)
    ensures |l.group| == |Near(rows, b)| && Rightmost(l.group) == Rightmost(Near(rows, b))
    ensures forall r :: r in l.group <==> r in Near(rows, b)
    ensures forall r :: r in l.group ==> r in rows
  {
    SameRows(l.group, Near(rows, b));
    assert |l.group| == |multiset(l.group)| == |Near(rows, b)|;
    SameRightmost(l.group, Near(rows, b));
    SelectMembers(rows, (r: Row) => 0.0 <= r.bottom - b < SAME_ROW);
  }

  lemma {:induction false} GroupSpans(l: Layout, xmin: real, xmax: real)
    requires LaidOut(l, xmin, xmax) && forall r :: r in l.group ==> r.left <= r.Right()
    ensures l.row.left == l.group[0].left && l.merged[|l.merged| - 1].hi == Rightmost(l.group)
    ensures (exists r :: r in l.group && r.left == l.merged[0].lo) && forall r :: r in l.group ==> l.merged[0].lo <= r.left
    ensures l.group[0].left == l.merged[0].lo <==> forall r :: r in l.group ==> l.group[0].left <= r.left
    ensures Spans(l) <==>
      || |l.group| == 1
      || ((forall r :: r in l.group ==> l.group[0].left <= r.left)
          && Whole((Rightmost(l.group) - l.group[0].left) / l.group[0].siteSpacing))
  {
    hide Tiles, Separated, InSome, InRows, Rightmost, Row.Right, Trunc, Whole;
    FirstIsLeftmost(l.group, l.merged);
    EndsRightmost(l.group, l.merged);
    if |l.group| == 1 {
      OnlyOne(l.group);
    } else if l.group[0].left == l.merged[0].lo {
      EndsAt(l.group[0], l.merged[0].lo, l.merged[|l.merged| - 1].hi);
    }
  }

  lemma OnlyOne(group: seq<Row>)
    requires |group| == 1
    ensures (forall r :: r in group ==> r == group[0]) && Rightmost(group) == group[0].Right()
  {
  }

  lemma SameRightmost(s: seq<Row>, t: seq<Row>)
    requires s != [] && t != [] && forall r :: r in s <==> r in t
    ensures Rightmost(s) == Rightmost(t)
  {
    var i :| 0 <= i < |s| && s[i].Right() == Rightmost(s);
    var j :| 0 <= j < |t| && t[j].Right() == Rightmost(t);
    assert s[i] in t && t[j] in s;
  }

  lemma {:induction false} EndsRightmost(group: seq<Row>, merged: seq<Segment>)
    requires group != [] && merged != [] && Separated(merged) && forall r :: r in group ==> r.left <= r.Right()
    requires forall x :: InSome(merged, x) <==> InRows(group, x)
    ensures merged[|merged| - 1].hi == Rightmost(group)
  {
    var m := |merged| - 1;
    var i :| 0 <= i < |group| && group[i].Right() == Rightmost(group);
    assert group[i] in group;
    assert InRows(group, group[i].Right());
    assert InSome(merged, group[i].Right());
    assert merged[m].Has(merged[m].hi);
    assert InSome(merged, merged[m].hi);
    var r :| 0 <= r < |group| && group[r].left <= merged[m].hi <= group[r].Right();
    assert group[r] in group;
  }

  lemma {:induction false} FirstIsLeftmost(group: seq<Row>, merged: seq<Segment>)
    requires group != [] && merged != [] && Separated(merged) && forall r :: r in group ==> r.left <= r.Right()
    requires forall x :: InSome(merged, x) <==> InRows(group, x)
    ensures merged[0].lo <= merged[|merged| - 1].hi
    ensures (exists r :: r in group && r.left == merged[0].lo) && forall r :: r in group ==> merged[0].lo <= r.left
    ensures group[0].left == merged[0].lo <==> forall r :: r in group ==> group[0].left <= r.left
  {
    forall r | 0 <= r < |group|
      ensures merged[0].lo <= group[r].left
    {
      assert group[r] in group;
      assert InRows(group, group[r].left);
      assert InSome(merged, group[r].left);
    }
    assert merged[0].Has(merged[0].lo);
    assert InSome(merged, merged[0].lo);
    var r :| 0 <= r < |group| && group[r].left <= merged[0].lo <= group[r].Right();
    assert group[r] in group && group[r].left == merged[0].lo;
  }

  /** A row made longer, from its own left end: sites are counted down. */
  lemma EndsAt(row: Row, lo: real, hi: real)
    requires lo <= hi && row.siteSpacing > 0.0 && row.left == lo
    ensures row.(numSites := Trunc((hi - lo) / row.siteSpacing)).Right() == hi <==> Whole((hi - row.left) / row.siteSpacing)
  {
    var v := (hi - lo) / row.siteSpacing;
    assert v * row.siteSpacing == hi - lo && v >= 0.0;
    if Trunc(v) as real * row.siteSpacing == hi - lo {
      assert (Trunc(v) as real - v) * row.siteSpacing == 0.0;
    }
  }

  /** Two subrows, the right one listed first: the row keeps the right one's left end. */
  lemma {:induction false} MissesLeftSubrow(l: Layout, xmin: real, xmax: real)
    requires LaidOut(l, xmin, xmax) && Standing(l, RightThenLeft(), 0.0)
    ensures Bases(RightThenLeft()) == [0.0]
    ensures l.row.left == 10.0 && l.merged[0].lo == 0.0 && l.merged[|l.merged| - 1].hi == 15.0 && !Spans(l)
  {
    hide LaidOut, Rightmost, Near, WithBottom, Bases;
    var rows := RightThenLeft();
    RightThenLeftParts();
    SameGroup(l, rows, 0.0);
    assert rows[1] in l.group;
    GroupSpans(l, xmin, xmax);
  }

  lemma RightThenLeftParts()
    ensures var rows := RightThenLeft();
      WithBottom(rows, 0.0) == Near(rows, 0.0) == rows && Bases(rows) == [0.0] && Rightmost(rows) == 15.0
  {
    var rows := RightThenLeft();
    SelectAll(rows, (r: Row) => r.bottom == 0.0);
    SelectAll(rows, (r: Row) => 0.0 <= r.bottom - 0.0 < SAME_ROW);
    SelectNone(rows, (r: Row) => r.bottom - 0.0 >= SAME_ROW);
    assert Lowest(rows) == 0.0;
    assert Bases(Higher(rows, 0.0)) == [];
  }

  function RightThenLeft(): seq<Row> {
    [Row(10.0, 0.0, 1.0, 5, 1.0), Row(0.0, 0.0, 1.0, 5, 1.0)]
  }

  function Groups(layouts: seq<Layout>): seq<Row> {
    if layouts == [] then [] else Groups(layouts[..|layouts| - 1]) + layouts[|layouts| - 1].group
  }

  function AllFillers(layouts: seq<Layout>): seq<Filler> {
    if layouts == [] then [] else AllFillers(layouts[..|layouts| - 1]) + layouts[|layouts| - 1].fillers
  }

  lemma GroupsNone()
    ensures Groups([]) == [] && AllFillers([]) == []
  {
  }

  lemma GroupsSnoc(layouts: seq<Layout>, l: Layout)
    ensures Groups(layouts + [l]) == Groups(layouts) + l.group
    ensures AllFillers(layouts + [l]) == AllFillers(layouts) + l.fillers
  {
    assert (layouts + [l])[..|layouts|] == layouts;
  }
}
