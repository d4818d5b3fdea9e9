/** Interleaving along a whole segment (detailed_interleaving.cxx, dp): overlapping windows of
    single-height cells, the row kept legal and the wirelength never rising from window to window. */
module InterleaveSegment {
  import opened RealMath
  import opened Netlist
  import opened Permutations
  import InterleaveSpec
  import opened InterleaveSolve
  import opened InterleaveClamp
  import opened InterleaveBuild
  import opened Interleave
  import opened InterleaveWindows

  /** Narrower cells in the same places still stand apart. */
  lemma {:induction false} SpreadNarrow(pos: Placement, list: seq<nat>, size: seq<real>, less: seq<real>, lo: real, hi: real)
    requires Spread(pos, list, size, lo, hi) && |less| == |size|
    requires forall n :: 0 <= n < |size| ==> less[n] <= size[n]
    ensures Spread(pos, list, less, lo, hi)
  {
    forall k | 0 < k < |list|
      ensures RightEnd(pos, less, list[k - 1]) <= LeftEnd(pos, less, list[k])
    {
      assert RightEnd(pos, size, list[k - 1]) <= LeftEnd(pos, size, list[k]);
    }
  }

  /** Where the stretch before position `i` ends. */
  ghost function EdgeBefore(pos: Placement, list: seq<nat>, size: seq<real>, lo: real, i: nat): real
    requires i <= |list| && forall k :: 0 <= k < |list| ==> list[k] < |pos| && list[k] < |size|
  {
    if i == 0 then lo else RightEnd(pos, size, list[i - 1])
  }

  ghost function EdgeAfter(pos: Placement, list: seq<nat>, size: seq<real>, hi: real, j: nat): real
    requires j <= |list| && forall k :: 0 <= k < |list| ==> list[k] < |pos| && list[k] < |size|
  {
    if j == |list| then hi else LeftEnd(pos, size, list[j])
  }

  /** A stretch of a spread list is spread between its neighbours. */
  lemma {:induction false} SpreadPart(pos: Placement, list: seq<nat>, size: seq<real>, lo: real, hi: real, i: nat, j: nat)
    requires Spread(pos, list, size, lo, hi) && i <= j <= |list|
    ensures Spread(pos, list[i..j], size, EdgeBefore(pos, list, size, lo, i), EdgeAfter(pos, list, size, hi, j))
  {
    var part := list[i..j];
    forall k | 0 < k < |part|
      ensures RightEnd(pos, size, part[k - 1]) <= LeftEnd(pos, size, part[k])
    {
      assert part[k - 1] == list[i + k - 1] && part[k] == list[i + k];
    }
    if part != [] {
      assert part[0] == list[i] && part[|part| - 1] == list[j - 1];
    }
  }

  /** Re-spreading that stretch between the same neighbours keeps the whole list spread. */
  lemma {:induction false} SpreadSplice(pos: Placement, q: Placement, list: seq<nat>, part: seq<nat>, size: seq<real>,
                                        lo: real, hi: real, i: nat, j: nat)
    requires Spread(pos, list, size, lo, hi) && i < j <= |list| && |part| == j - i && |q| == |pos|
    requires forall k :: 0 <= k < |list| && (k < i || j <= k) ==> q[list[k]] == pos[list[k]]
    requires Spread(q, part, size, EdgeBefore(pos, list, size, lo, i), EdgeAfter(pos, list, size, hi, j))
    ensures Spread(q, list[..i] + part + list[j..], size, lo, hi)
  {
    var r := list[..i] + part + list[j..];
    assert forall k :: 0 <= k < |r| ==> r[k] == if k < i then list[k] else if k < j then part[k - i] else list[k];
    forall k | 0 < k < |r|
      ensures RightEnd(q, size, r[k - 1]) <= LeftEnd(q, size, r[k])
    {
      if i < k < j {
        assert RightEnd(q, size, part[k - i - 1]) <= LeftEnd(q, size, part[k - i]);
      } else if k < i || j < k {
        assert RightEnd(pos, size, list[k - 1]) <= LeftEnd(pos, size, list[k]);
      }
    }
  }

  // ----- sorting a stretch by position

  ghost predicate SortedX(pos: Placement, list: seq<nat>) {
    && (forall k :: 0 <= k < |list| ==> list[k] < |pos|)
    && forall j, k :: 0 <= j < k < |list| ==> pos[list[j]].x <= pos[list[k]].x
  }

  ghost predicate StrictX(pos: Placement, list: seq<nat>) {
    && (forall k :: 0 <= k < |list| ==> list[k] < |pos|)
    && forall j, k :: 0 <= j < k < |list| ==> pos[list[j]].x < pos[list[k]].x
  }

  method SortByX(pos: Placement, list: seq<nat>) returns (r: seq<nat>)
    requires forall k :: 0 <= k < |list| ==> list[k] < |pos|
    ensures multiset(r) == multiset(list) && SortedX(pos, r)
  {
    r := [];
    assert SortedX(pos, r);
    hide SortedX;
    for i := 0 to |list|
      invariant multiset(r) == multiset(list[..i]) && SortedX(pos, r)
    {
      assert list[..i + 1] == list[..i] + [list[i]];
      r := InsertByX(pos, r, list[i]);
    }
    assert list[..|list|] == list;
  }

  method InsertByX(pos: Placement, r: seq<nat>, v: nat) returns (s: seq<nat>)
    requires SortedX(pos, r) && v < |pos|
    ensures multiset(s) == multiset(r) + multiset{v} && SortedX(pos, s)
  {
    var k := |r|;
    while k > 0 && pos[v].x < pos[r[k - 1]].x
      invariant 0 <= k <= |r|
      invariant forall j :: k <= j < |r| ==> pos[v].x < pos[r[j]].x
    {
      k := k - 1;
    }
    InsertX(pos, r, k, v);
    InsertMultiset(r, k, v);
    s := r[..k] + [v] + r[k..];
  }

  lemma {:induction false} InsertX(pos: Placement, r: seq<nat>, k: nat, v: nat)
    requires SortedX(pos, r) && k <= |r| && v < |pos|
    requires forall j :: 0 <= j < k ==> pos[r[j]].x <= pos[v].x
    requires forall j :: k <= j < |r| ==> pos[v].x <= pos[r[j]].x
    ensures SortedX(pos, r[..k] + [v] + r[k..])
  {
    var s := r[..k] + [v] + r[k..];
    assert forall j :: 0 <= j < |s| ==> s[j] == if j < k then r[j] else if j == k then v else r[j - 1];
  }

  lemma {:induction false} SameLast(pos: Placement, s: seq<nat>, t: seq<nat>)
    requires StrictX(pos, s) && SortedX(pos, t) && |s| == |t| > 0
    requires s[|s| - 1] in t && t[|t| - 1] in s
    ensures s[|s| - 1] == t[|t| - 1]
  {
    var n := |s| - 1;
    var j :| 0 <= j < |s| && s[j] == t[n];
    var k :| 0 <= k < |t| && t[k] == s[n];
    assert pos[t[k]].x <= pos[t[n]].x;
  }

  lemma {:induction false} DropLast(s: seq<nat>, t: seq<nat>)
    requires multiset(s) == multiset(t) && |s| == |t| > 0 && s[|s| - 1] == t[|t| - 1]
    ensures multiset(s[..|s| - 1]) == multiset(t[..|t| - 1])
  {
    var n := |s| - 1;
    MultisetWithout(s, n);
    MultisetWithout(t, n);
    assert s[..n] + s[n + 1..] == s[..n] && t[..n] + t[n + 1..] == t[..n];
  }

  lemma Prefixes(pos: Placement, s: seq<nat>, t: seq<nat>, n: nat)
    requires StrictX(pos, s) && SortedX(pos, t) && n <= |s| && n <= |t|
    ensures StrictX(pos, s[..n]) && SortedX(pos, t[..n])
  {
  }

  /** Sorting finds the strictly increasing arrangement when there is one. */
  lemma {:induction false} SortFinds(pos: Placement, s: seq<nat>, t: seq<nat>)
    requires StrictX(pos, s) && SortedX(pos, t) && multiset(s) == multiset(t)
    ensures s == t
    decreases |s|
  {
    hide StrictX, SortedX;
    assert |s| == |multiset(s)| == |multiset(t)| == |t|;
    if s != [] {
      var n := |s| - 1;
      assert s[n] in multiset(t) && t[n] in multiset(s);
      SameLast(pos, s, t);
      DropLast(s, t);
      Prefixes(pos, s, t, n);
      SortFinds(pos, s[..n], t[..n]);
      assert s == s[..n] + [s[n]] && t == t[..n] + [t[n]];
    }
  }

  /** Cells of positive width that stand apart have strictly increasing centres. */
  lemma {:induction false} SpreadIsStrict(pos: Placement, list: seq<nat>, size: seq<real>, lo: real, hi: real)
    requires Spread(pos, list, size, lo, hi) && forall k :: 0 <= k < |list| ==> size[list[k]] > 0.0
    ensures StrictX(pos, list)
  {
    forall j, k | 0 <= j < k < |list|
      ensures pos[list[j]].x < pos[list[k]].x
    {
      Increasing(pos, list, size, lo, hi, j, k);
    }
  }

  lemma {:induction false} Increasing(pos: Placement, list: seq<nat>, size: seq<real>, lo: real, hi: real, j: nat, k: nat)
    requires Spread(pos, list, size, lo, hi) && forall k :: 0 <= k < |list| ==> size[list[k]] > 0.0
    requires j < k < |list|
    ensures pos[list[j]].x < pos[list[k]].x
    decreases k
  {
    assert RightEnd(pos, size, list[k - 1]) <= LeftEnd(pos, size, list[k]);
    if j < k - 1 {
      Increasing(pos, list, size, lo, hi, j, k - 1);
    }
  }

  // ----- windows along a segment

  /** A segment's cells are different, of positive width, and do not overlap. */
  ghost predicate ApartRow(net: Network, row: Row, pos: Placement, nodes: seq<nat>, lo: real, hi: real) {
    && net.Fits(pos) && row.Valid(|pos|)
    && Window(net, pos, nodes)
    && Spread(pos, nodes, row.widths, lo, hi)
    && (forall k :: 0 <= k < |nodes| ==> row.widths[nodes[k]] > 0.0)
  }

  /** They also stand apart with their padding, which is the same on both sides of every cell. */
  ghost predicate LegalRow(net: Network, row: Row, pos: Placement, nodes: seq<nat>, lo: real, hi: real) {
    ApartRow(net, row, pos, nodes, lo, hi) && row.Symmetric() && Spread(pos, nodes, row.Padded(), lo, hi)
  }

  /** From `p` to `q` only cells of the row moved, only sideways, and in some new order they still do not
      overlap. If the row was legal with its padding, it still is, and the wirelength did not rise. */
  ghost predicate RowRun(net: Network, row: Row, p: Placement, q: Placement, nodes: seq<nat>, nodes': seq<nat>, lo: real, hi: real) {
    && ApartRow(net, row, p, nodes, lo, hi) && ApartRow(net, row, q, nodes', lo, hi) && |p| == |q|
    && (forall m: nat :: m < |p| ==> q[m].y == p[m].y)
    && (forall m: nat :: m < |p| && m !in nodes ==> q[m] == p[m])
    && multiset(nodes') == multiset(nodes)
    && (LegalRow(net, row, p, nodes, lo, hi) ==>
          LegalRow(net, row, q, nodes', lo, hi) && net.Hpwl(q, LIMIT) <= net.Hpwl(p, LIMIT))
  }

  lemma {:induction false} SameMembers(s: seq<nat>, t: seq<nat>)
    requires multiset(s) == multiset(t)
    ensures forall v :: v in s <==> v in t
  {
    forall v
      ensures v in s <==> v in t
    {
      assert v in s <==> v in multiset(s);
      assert v in t <==> v in multiset(t);
    }
  }

  lemma {:induction false} RowRunExtends(net: Network, row: Row, p: Placement, q: Placement, r: Placement,
                                         a: seq<nat>, b: seq<nat>, c: seq<nat>, lo: real, hi: real)
    requires RowRun(net, row, p, q, a, b, lo, hi) && RowRun(net, row, q, r, b, c, lo, hi)
    ensures RowRun(net, row, p, r, a, c, lo, hi)
  {
    SameMembers(a, b);
  }

  /** Positions i..j-1 of `nodes` replaced by as many others. */
  ghost function Splice(nodes: seq<nat>, i: nat, j: nat, part': seq<nat>): (r: seq<nat>)
    requires i <= j <= |nodes| && |part'| == j - i
    ensures |r| == |nodes|
    ensures forall k :: 0 <= k < |r| ==> r[k] == if k < i then nodes[k] else if k < j then part'[k - i] else nodes[k]
  {
    nodes[..i] + part' + nodes[j..]
  }

  lemma {:induction false} SpliceMultiset(nodes: seq<nat>, i: nat, j: nat, part': seq<nat>)
    requires i <= j <= |nodes| && multiset(part') == multiset(nodes[i..j])
    ensures |part'| == j - i && multiset(Splice(nodes, i, j, part')) == multiset(nodes)
  {
    assert |part'| == |multiset(part')| == |multiset(nodes[i..j])| == j - i;
    assert nodes == nodes[..i] + nodes[i..j] + nodes[j..];
  }

  /** Outside a stretch around the replaced one nothing changes. */
  lemma {:induction false} SpliceInside(nodes: seq<nat>, i: nat, j: nat, part': seq<nat>, a: nat, b: nat)
    requires a <= i <= j <= b <= |nodes| && |part'| == j - i
    ensures Splice(nodes, i, j, part') == nodes[..a] + Splice(nodes, i, j, part')[a..b] + nodes[b..]
  {
    assert nodes == nodes[..a] + nodes[a..b] + nodes[b..];
  }

  /** Limits that leave a stretch no more room than its neighbours do. */
  ghost predicate Between(row: Row, pos: Placement, nodes: seq<nat>, i: nat, j: nat, lo: real, hi: real, left: real, right: real)
    requires row.Valid(|pos|) && i <= j <= |nodes| && forall k :: 0 <= k < |nodes| ==> nodes[k] < |pos|
  {
    && EdgeBefore(pos, nodes, row.widths, lo, i) <= left
    && right <= EdgeAfter(pos, nodes, row.widths, hi, j)
    && (row.Symmetric() && Spread(pos, nodes, row.Padded(), lo, hi) ==>
          left == EdgeBefore(pos, nodes, row.Padded(), lo, i) && right == EdgeAfter(pos, nodes, row.Padded(), hi, j))
  }

  /** The row after one accepted window. */
  lemma {:induction false} WindowIsRun(net: Network, row: Row, pos: Placement, q: Placement, nodes: seq<nat>, i: nat, j: nat,
                                       part': seq<nat>, lo: real, hi: real, left: real, right: real, gain: real)
    requires ApartRow(net, row, pos, nodes, lo, hi) && i < j <= |nodes| && net.Fits(q)
    requires Between(row, pos, nodes, i, j, lo, hi, left, right)
    requires Relocated(row, pos, q, nodes[i..j], part', left, right)
    requires LegalRow(net, row, pos, nodes, lo, hi) ==>
      Window(net, pos, nodes[i..j]) && Spread(pos, nodes[i..j], row.Padded(), left, right)
      && Improved(net, row, pos, q, nodes[i..j], part', left, right, gain)
    ensures |part'| == j - i && multiset(part') == multiset(nodes[i..j])
    ensures RowRun(net, row, pos, q, nodes, Splice(nodes, i, j, part'), lo, hi)
  {
    hide Spread;
    SpliceMultiset(nodes, i, j, part');
    var next := Splice(nodes, i, j, part');
    OthersStay(pos, q, nodes, i, j);
    SpreadWider(q, part', row.widths, left, right, EdgeBefore(pos, nodes, row.widths, lo, i), EdgeAfter(pos, nodes, row.widths, hi, j));
    SpreadSplice(pos, q, nodes, part', row.widths, lo, hi, i, j);
    RowMembers(net, row, pos, nodes, next, lo, hi);
    if LegalRow(net, row, pos, nodes, lo, hi) {
      SpreadSplice(pos, q, nodes, part', row.Padded(), lo, hi, i, j);
    }
  }

  lemma SpreadWider(pos: Placement, list: seq<nat>, size: seq<real>, lo: real, hi: real, lo': real, hi': real)
    requires Spread(pos, list, size, lo, hi) && lo' <= lo && hi <= hi'
    ensures Spread(pos, list, size, lo', hi')
  {
  }

  lemma {:induction false} OthersStay(pos: Placement, q: Placement, nodes: seq<nat>, i: nat, j: nat)
    requires i <= j <= |nodes| && |q| == |pos| && forall k :: 0 <= k < |nodes| ==> nodes[k] < |pos|
    requires forall k, l :: 0 <= k < l < |nodes| ==> nodes[k] != nodes[l]
    requires forall m: nat :: m < |pos| && m !in nodes[i..j] ==> q[m] == pos[m]
    ensures forall k :: 0 <= k < |nodes| && (k < i || j <= k) ==> q[nodes[k]] == pos[nodes[k]]
    ensures forall m: nat :: m < |pos| && m !in nodes ==> q[m] == pos[m]
  {
    forall k | 0 <= k < |nodes| && (k < i || j <= k)
      ensures q[nodes[k]] == pos[nodes[k]]
    {
      assert nodes[k] !in nodes[i..j];
    }
  }

  lemma {:induction false} RowMembers(net: Network, row: Row, pos: Placement, nodes: seq<nat>, next: seq<nat>, lo: real, hi: real)
    requires ApartRow(net, row, pos, nodes, lo, hi) && multiset(next) == multiset(nodes)
    ensures Window(net, pos, next) && forall k :: 0 <= k < |next| ==> row.widths[next[k]] > 0.0
  {
    SameMembers(nodes, next);
    DifferentByMultiset(nodes, next);
    forall k | 0 <= k < |next|
      ensures next[k] < |pos| && row.widths[next[k]] > 0.0
    {
      assert next[k] in nodes;
    }
  }

  lemma {:induction false} DifferentByMultiset(s: seq<nat>, t: seq<nat>)
    requires multiset(s) == multiset(t) && forall j, k :: 0 <= j < k < |s| ==> s[j] != s[k]
    ensures forall j, k :: 0 <= j < k < |t| ==> t[j] != t[k]
  {
    forall j, k | 0 <= j < k < |t|
      ensures t[j] != t[k]
    {
      if t[j] == t[k] {
        CountOnce(s, t[j]);
        CountTwice(t, j, k);
      }
    }
  }

  function LeftLimit(row: Row, pos: Placement, nodes: seq<nat>, i: nat, segMin: real): real
    requires row.Valid(|pos|) && i <= |nodes| && forall k :: 0 <= k < |nodes| ==> nodes[k] < |pos|
  {
    if i == 0 then segMin else Max(RightEnd(pos, row.widths, nodes[i - 1]) + row.rightPad[nodes[i - 1]], segMin)
  }

  function RightLimit(row: Row, pos: Placement, nodes: seq<nat>, j: nat, segMax: real): real
    requires row.Valid(|pos|) && j <= |nodes| && forall k :: 0 <= k < |nodes| ==> nodes[k] < |pos|
  {
    if j == |nodes| then segMax else Min(LeftEnd(pos, row.widths, nodes[j]) - row.leftPad[nodes[j]], segMax)
  }

  /** One window of positions i..j-1 between its neighbours: it is rejected and nothing happens, or accepted. */
  ghost predicate WindowStep(net: Network, row: Row, p: Placement, q: Placement, nodes: seq<nat>, nodes': seq<nat>, i: nat, j: nat, lo: real, hi: real)
    requires row.Valid(|p|) && i < j <= |nodes| && (forall k :: 0 <= k < |nodes| ==> nodes[k] < |p|) && Window(net, p, nodes[i..j])
  {
    var left, right := LeftLimit(row, p, nodes, i, lo), RightLimit(row, p, nodes, j, hi);
    || (q == p && nodes' == nodes && exists shape, ids, first :: Rejects(net, row, p, nodes[i..j], left, right, shape, ids, first))
    || (exists part', shape, ids, first, x :: |part'| == j - i && nodes' == Splice(nodes, i, j, part')
          && Accepts(net, row, p, nodes[i..j], left, right, q, part', shape, ids, first, x))
  }

  /** Room between the neighbours of positions i..j-1, their padding respected. */
  method Limits(row: Row, pos: Placement, nodes: seq<nat>, i: nat, j: nat, segMin: real, segMax: real)
      returns (leftLimit: real, rightLimit: real)
    requires row.Valid(|pos|) && Spread(pos, nodes, row.widths, segMin, segMax) && i <= j <= |nodes|
    ensures Between(row, pos, nodes, i, j, segMin, segMax, leftLimit, rightLimit)
    ensures leftLimit == LeftLimit(row, pos, nodes, i, segMin) && rightLimit == RightLimit(row, pos, nodes, j, segMax)
  {
    rightLimit := segMax;
    if j != |nodes| {
      var next := nodes[j];
      rightLimit := Min(LeftEnd(pos, row.widths, next) - row.leftPad[next], rightLimit);
      if Spread(pos, nodes, row.Padded(), segMin, segMax) {
        SpreadWithin(pos, nodes, row.Padded(), segMin, segMax, j);
      }
    }
    leftLimit := segMin;
    if i != 0 {
      var prev := nodes[i - 1];
      leftLimit := Max(RightEnd(pos, row.widths, prev) + row.rightPad[prev], leftLimit);
      if Spread(pos, nodes, row.Padded(), segMin, segMax) {
        SpreadWithin(pos, nodes, row.Padded(), segMin, segMax, i - 1);
      }
    }
  }

  /** A window of a legal row stands between its limits. */
  lemma {:induction false} WindowReady(net: Network, row: Row, pos: Placement, nodes: seq<nat>, i: nat, j: nat, lo: real, hi: real,
                                       left: real, right: real)
    requires ApartRow(net, row, pos, nodes, lo, hi) && i <= j <= |nodes| && Between(row, pos, nodes, i, j, lo, hi, left, right)
    ensures Window(net, pos, nodes[i..j])
    ensures LegalRow(net, row, pos, nodes, lo, hi) ==>
      Spread(pos, nodes[i..j], row.Padded(), left, right) && Spread(pos, nodes[i..j], row.widths, left, right)
  {
    if LegalRow(net, row, pos, nodes, lo, hi) {
      SpreadPart(pos, nodes, row.Padded(), lo, hi, i, j);
      SpreadNarrow(pos, nodes[i..j], row.Padded(), row.widths, left, right);
    }
  }

  /** One window of the segment, then the run of single-height cells around it is sorted again. */
  method TryWindow(d: DetailedInterleave, nodes: seq<nat>, jstrt: nat, jstop: nat, istrt: nat, istop: nat, segMin: real, segMax: real)
      returns (nodes': seq<nat>)
    requires d.Valid() && ApartRow(d.net, d.row, d.pos, nodes, segMin, segMax)
    requires jstrt <= istrt <= istop <= jstop < |nodes|
    modifies d`pos
    ensures d.Valid() && RowRun(d.net, d.row, old(d.pos), d.pos, nodes, nodes', segMin, segMax)
    ensures Window(d.net, old(d.pos), nodes[istrt..istop + 1])
    ensures WindowStep(d.net, d.row, old(d.pos), d.pos, nodes, nodes', istrt, istop + 1, segMin, segMax)
  {
    hide Improved, Relocated, Between, Spread, Accepts, Rejects;
    var leftLimit, rightLimit := Limits(d.row, d.pos, nodes, istrt, istop + 1, segMin, segMax);
    WindowReady(d.net, d.row, d.pos, nodes, istrt, istop + 1, segMin, segMax, leftLimit, rightLimit);
    ghost var was := d.pos;
    var accepted, part', gain := d.OptimizeWindow(nodes[istrt..istop + 1], leftLimit, rightLimit);
    nodes' := nodes;
    if accepted {
      WindowIsRun(d.net, d.row, was, d.pos, nodes, istrt, istop + 1, part', segMin, segMax, leftLimit, rightLimit, gain);
      nodes' := Resort(d, nodes, jstrt, jstop + 1, istrt, istop + 1, part', segMin, segMax);
    }
  }

  /** Sorting the surrounding run puts the window's cells into their new order and leaves the rest. */
  method Resort(d: DetailedInterleave, nodes: seq<nat>, a: nat, b: nat, ghost i: nat, ghost j: nat,
                ghost part': seq<nat>, ghost lo: real, ghost hi: real) returns (nodes': seq<nat>)
    requires a <= i < j <= b <= |nodes| && |part'| == j - i && multiset(part') == multiset(nodes[i..j])
    requires forall k :: 0 <= k < |nodes| ==> nodes[k] < |d.pos|
    requires ApartRow(d.net, d.row, d.pos, Splice(nodes, i, j, part'), lo, hi)
    ensures nodes' == Splice(nodes, i, j, part')
  {
    var run := SortByX(d.pos, nodes[a..b]);
    SplicedRun(d.net, d.row, d.pos, nodes, a, b, i, j, part', lo, hi, run);
    nodes' := nodes[..a] + run + nodes[b..];
  }

  lemma {:induction false} SpliceParts(nodes: seq<nat>, i: nat, j: nat, part': seq<nat>, a: nat, b: nat)
    requires a <= i <= j <= b <= |nodes| && |part'| == j - i && multiset(part') == multiset(nodes[i..j])
    ensures multiset(Splice(nodes, i, j, part')[a..b]) == multiset(nodes[a..b])
  {
    assert Splice(nodes, i, j, part')[a..b] == nodes[a..i] + part' + nodes[j..b];
    assert nodes[a..b] == nodes[a..i] + nodes[i..j] + nodes[j..b];
  }

  lemma {:induction false} SplicedRun(net: Network, row: Row, pos: Placement, nodes: seq<nat>, a: nat, b: nat, i: nat, j: nat,
                                      part': seq<nat>, lo: real, hi: real, run: seq<nat>)
    requires a <= i < j <= b <= |nodes| && |part'| == j - i && multiset(part') == multiset(nodes[i..j])
    requires ApartRow(net, row, pos, Splice(nodes, i, j, part'), lo, hi)
    requires SortedX(pos, run) && multiset(run) == multiset(nodes[a..b])
    ensures Splice(nodes, i, j, part') == nodes[..a] + run + nodes[b..]
  {
    hide ApartRow, StrictX, SortedX;
    SpliceInside(nodes, i, j, part', a, b);
    SpliceParts(nodes, i, j, part', a, b);
    StretchIsStrict(net, row, pos, Splice(nodes, i, j, part'), a, b, lo, hi);
    SortFinds(pos, Splice(nodes, i, j, part')[a..b], run);
  }

  lemma {:induction false} StretchIsStrict(net: Network, row: Row, pos: Placement, nodes: seq<nat>, a: nat, b: nat, lo: real, hi: real)
    requires ApartRow(net, row, pos, nodes, lo, hi) && a <= b <= |nodes|
    ensures StrictX(pos, nodes[a..b])
  {
    SpreadIsStrict(pos, nodes, row.widths, lo, hi);
  }

  // ----- all windows of a segment, one after the other

  /** Which positions have single-height cells. */
  ghost function Heights(single: seq<bool>, nodes: seq<nat>): (hs: seq<bool>)
    requires forall k :: 0 <= k < |nodes| ==> nodes[k] < |single|
    ensures |hs| == |nodes|
  {
    seq(|nodes|, k requires 0 <= k < |nodes| => single[nodes[k]])
  }

  lemma HeightsAre(single: seq<bool>, nodes: seq<nat>)
    requires forall k :: 0 <= k < |nodes| ==> nodes[k] < |single|
    ensures forall k :: 0 <= k < |nodes| ==> Heights(single, nodes)[k] == single[nodes[k]]
  {
  }

  /** One window was tried. */
  ghost predicate Tried(net: Network, row: Row, p: Placement, q: Placement, nodes: seq<nat>, nodes': seq<nat>, w: Stretch, lo: real, hi: real) {
    && row.Valid(|p|) && w.first < w.last <= |nodes| && (forall k :: 0 <= k < |nodes| ==> nodes[k] < |p|)
    && Window(net, p, nodes[w.first..w.last]) && WindowStep(net, row, p, q, nodes, nodes', w.first, w.last, lo, hi)
  }

  /** These windows were tried, each where the one before it left the cells. */
  ghost predicate Swept(net: Network, row: Row, p: Placement, q: Placement, nodes: seq<nat>, nodes': seq<nat>, ws: seq<Stretch>, lo: real, hi: real)
    decreases |ws|
  {
    if ws == [] then q == p && nodes' == nodes
    else
      var n := |ws| - 1;
      exists r, mid :: Swept(net, row, p, r, nodes, mid, ws[..n], lo, hi) && Tried(net, row, r, q, mid, nodes', ws[n], lo, hi)
  }

  lemma SweptNext(net: Network, row: Row, p: Placement, r: Placement, q: Placement, nodes: seq<nat>, mid: seq<nat>, nodes': seq<nat>,
                  ws: seq<Stretch>, w: Stretch, lo: real, hi: real)
    requires Swept(net, row, p, r, nodes, mid, ws, lo, hi) && Tried(net, row, r, q, mid, nodes', w, lo, hi)
    ensures Swept(net, row, p, q, nodes, nodes', ws + [w], lo, hi)
  {
    hide Tried;
    assert (ws + [w])[..|ws|] == ws;
  }

  /** A window of single-height cells leaves single-height cells where they were. */
  lemma {:induction false} TriedKeepsHeights(net: Network, row: Row, p: Placement, q: Placement, nodes: seq<nat>, nodes': seq<nat>,
                                             w: Stretch, lo: real, hi: real, single: seq<bool>)
    requires Tried(net, row, p, q, nodes, nodes', w, lo, hi) && |single| == |p|
    requires forall k :: w.first <= k < w.last ==> single[nodes[k]]
    ensures |nodes'| == |nodes| && (forall k :: 0 <= k < |nodes'| ==> nodes'[k] < |single|) && Heights(single, nodes') == Heights(single, nodes)
  {
    hide Window, Rejects, Accepts, LeftLimit, RightLimit, Row.Valid;
    if nodes' != nodes {
      var i, j := w.first, w.last;
      var part', shape, ids, first, x :| |part'| == j - i && nodes' == Splice(nodes, i, j, part')
        && Accepts(net, row, p, nodes[i..j], LeftLimit(row, p, nodes, i, lo), RightLimit(row, p, nodes, j, hi), q, part', shape, ids, first, x);
      AcceptedMembers(net, row, p, nodes[i..j], LeftLimit(row, p, nodes, i, lo), RightLimit(row, p, nodes, j, hi), q, part', shape, ids, first, x);
      forall k | 0 <= k < |part'|
        ensures part'[k] < |single| && single[part'[k]]
      {
        var m :| 0 <= m < j - i && nodes[i..j][m] == part'[k];
        assert part'[k] == nodes[i + m];
      }
    }
  }

  lemma AcceptedMembers(net: Network, row: Row, pos: Placement, nodes: seq<nat>, lo: real, hi: real,
                        q: Placement, nodes': seq<nat>, p: InterleaveSpec.Problem, ids: seq<nat>, first: seq<nat>, x: seq<real>)
    requires Accepts(net, row, pos, nodes, lo, hi, q, nodes', p, ids, first, x)
    ensures forall k :: 0 <= k < |nodes'| ==> nodes'[k] in nodes
  {
    hide Window, BuiltFor, RoomOf, PackedAs, SortedBy, Row.Valid, OrderCost, FirstCost, Passes;
  }

  /** The whole segment: every maximal run of single-height cells is swept by overlapping windows of at
      most `windowSize` cells, started every `windowStep` cells. */
  method RunSegment(d: DetailedInterleave, nodes0: seq<nat>, single: seq<bool>, windowSize: nat, windowStep: nat,
                    segMin: real, segMax: real) returns (nodes: seq<nat>)
    requires d.Valid() && ApartRow(d.net, d.row, d.pos, nodes0, segMin, segMax) && |single| == |d.pos|
    requires windowSize >= 1 && windowStep >= 1
    modifies d`pos
    ensures d.Valid() && RowRun(d.net, d.row, old(d.pos), d.pos, nodes0, nodes, segMin, segMax)
    ensures forall k :: 0 <= k < |nodes0| ==> nodes0[k] < |single|
    ensures Swept(d.net, d.row, old(d.pos), d.pos, nodes0, nodes, Windows(Heights(single, nodes0), windowSize, windowStep, |nodes0|), segMin, segMax)
  {
    hide Swept, RowRun, Window, Spread, OnStep, Begins, RunStart, RunEnd, Windows, Heights, ApartRow, PinsInCells, Network.Valid, Row.Valid;
    nodes := nodes0;
    var j, n := 0, |nodes|;
    RowInRange(d.net, d.row, d.pos, nodes0, segMin, segMax);
    ghost var hs := Heights(single, nodes0);
    SweepStarts(d.net, d.row, d.pos, nodes0, segMin, segMax);
    NoneYet(hs, windowSize, windowStep);
    if n < 2 {
      TooFew(hs, windowSize, windowStep);
      return;
    }
    while j < n
      invariant 0 <= j <= n == |nodes| && |single| == |d.pos|
      invariant d.Valid() && RowRun(d.net, d.row, old(d.pos), d.pos, nodes0, nodes, segMin, segMax)
      invariant (forall k :: 0 <= k < n ==> nodes[k] < |single|) && Heights(single, nodes) == hs
      invariant j > 0 && j < n ==> !hs[j]
      invariant Swept(d.net, d.row, old(d.pos), d.pos, nodes0, nodes, Windows(hs, windowSize, windowStep, j), segMin, segMax)
      decreases n - j
    {
      ghost var j0 := j;
      HeightsAre(single, nodes);
      while j < n && !single[nodes[j]]
        invariant j0 <= j <= n && forall k :: j0 <= k < j ==> !hs[k]
      {
        j := j + 1;
      }
      NoRun(hs, windowSize, windowStep, j0, j);
      var jstrt := j;
      while j < n && single[nodes[j]]
        invariant jstrt <= j <= n && forall k :: jstrt <= k < j ==> hs[k]
      {
        j := j + 1;
      }
      nodes := SweepRun(d, nodes0, nodes, jstrt, j - 1, windowSize, windowStep, segMin, segMax, old(d.pos), single, hs);
    }
  }

  lemma RowInRange(net: Network, row: Row, p: Placement, nodes: seq<nat>, lo: real, hi: real)
    requires ApartRow(net, row, p, nodes, lo, hi)
    ensures forall k :: 0 <= k < |nodes| ==> nodes[k] < |p|
  {
  }

  lemma SweepStarts(net: Network, row: Row, p: Placement, nodes: seq<nat>, lo: real, hi: real)
    requires ApartRow(net, row, p, nodes, lo, hi)
    ensures RowRun(net, row, p, p, nodes, nodes, lo, hi) && Swept(net, row, p, p, nodes, nodes, [], lo, hi)
  {
  }

  /** All windows of the run at positions jstrt..jstop. */
  method SweepRun(d: DetailedInterleave, ghost nodes0: seq<nat>, nodes1: seq<nat>, jstrt: nat, jstop: int, windowSize: nat, windowStep: nat,
                  segMin: real, segMax: real, ghost start: Placement, ghost single: seq<bool>, ghost hs: seq<bool>) returns (nodes: seq<nat>)
    requires d.Valid() && jstrt - 1 <= jstop < |nodes1| && windowSize >= 1 && windowStep >= 1
    requires RowRun(d.net, d.row, start, d.pos, nodes0, nodes1, segMin, segMax)
    requires |single| == |d.pos| && (forall k :: 0 <= k < |nodes1| ==> nodes1[k] < |single|) && Heights(single, nodes1) == hs
    requires (forall k :: jstrt <= k <= jstop ==> hs[k]) && (0 < jstrt < |hs| ==> !hs[jstrt - 1]) && (jstop + 1 < |hs| ==> !hs[jstop + 1])
    requires Swept(d.net, d.row, start, d.pos, nodes0, nodes1, Windows(hs, windowSize, windowStep, jstrt), segMin, segMax)
    modifies d`pos
    ensures d.Valid() && |nodes| == |nodes1| && |d.pos| == |old(d.pos)|
    ensures RowRun(d.net, d.row, start, d.pos, nodes0, nodes, segMin, segMax)
    ensures (forall k :: 0 <= k < |nodes| ==> nodes[k] < |single|) && Heights(single, nodes) == hs
    ensures Swept(d.net, d.row, start, d.pos, nodes0, nodes, Windows(hs, windowSize, windowStep, jstop + 1), segMin, segMax)
  {
    hide Swept, RowRun, Window, Spread, OnStep, Begins, RunStart, RunEnd, Windows, Heights, ApartRow, PinsInCells, Network.Valid, Row.Valid;
    nodes := nodes1;
    var i := jstrt;
    FirstStep(windowStep);
    while i <= jstop
      invariant d.Valid() && |nodes| == |nodes1| && |d.pos| == |old(d.pos)| && jstrt <= i && OnStep(i - jstrt, windowStep)
      invariant RowRun(d.net, d.row, start, d.pos, nodes0, nodes, segMin, segMax)
      invariant (forall k :: 0 <= k < |nodes| ==> nodes[k] < |single|) && Heights(single, nodes) == hs
      invariant Swept(d.net, d.row, start, d.pos, nodes0, nodes,
                      Windows(hs, windowSize, windowStep, if i <= jstop then i else jstop + 1), segMin, segMax)
      decreases jstop - i
    {
      var istrt := i;
      var istop := if jstop <= istrt + windowSize - 1 then jstop else istrt + windowSize - 1;
      if istop == jstop {
        istrt := if jstrt >= istop - windowSize + 1 then jstrt else istop - windowSize + 1;
      }
      RunIs(hs, jstrt, jstop + 1, i);
      NextWindow(hs, windowSize, windowStep, jstrt, jstop + 1, i);
      StepOn(i - jstrt, windowStep);
      ghost var w := WindowAt(hs, windowSize, i);
      assert w == Stretch(istrt, istop + 1);
      ghost var ws := Windows(hs, windowSize, windowStep, i);
      i := i + windowStep;
      if istop - istrt + 1 <= 4 {
        continue;
      }
      nodes := SweepOne(d, nodes0, nodes, jstrt, jstop, istrt, istop, segMin, segMax, start, single, hs, ws);
    }
  }

  lemma StepOn(m: nat, step: nat)
    requires step >= 1 && OnStep(m, step)
    ensures OnStep(m + step, step)
  {
    var q := m / step;
    assert m + step == (q + 1) * step;
    ModOf(q + 1, 0, step);
  }

  /** One more window. */
  method SweepOne(d: DetailedInterleave, ghost nodes0: seq<nat>, nodes1: seq<nat>, jstrt: nat, jstop: nat, istrt: nat, istop: nat,
                  segMin: real, segMax: real, ghost start: Placement, ghost single: seq<bool>, ghost hs: seq<bool>, ghost ws: seq<Stretch>) returns (nodes: seq<nat>)
    requires d.Valid() && jstrt <= istrt <= istop <= jstop < |nodes1|
    requires RowRun(d.net, d.row, start, d.pos, nodes0, nodes1, segMin, segMax)
    requires Swept(d.net, d.row, start, d.pos, nodes0, nodes1, ws, segMin, segMax)
    requires |single| == |d.pos| && (forall k :: 0 <= k < |nodes1| ==> nodes1[k] < |single|)
    requires Heights(single, nodes1) == hs && forall k :: istrt <= k <= istop ==> hs[k]
    modifies d`pos
    ensures d.Valid() && |nodes| == |nodes1| && |d.pos| == |old(d.pos)|
    ensures RowRun(d.net, d.row, start, d.pos, nodes0, nodes, segMin, segMax)
    ensures (forall k :: 0 <= k < |nodes| ==> nodes[k] < |single|) && Heights(single, nodes) == hs
    ensures Swept(d.net, d.row, start, d.pos, nodes0, nodes, ws + [Stretch(istrt, istop + 1)], segMin, segMax)
  {
    hide Swept, WindowStep, Window;
    ghost var mid, w := d.pos, Stretch(istrt, istop + 1);
    HeightsAre(single, nodes1);
    nodes := TryWindow(d, nodes1, jstrt, jstop, istrt, istop, segMin, segMax);
    RowRunExtends(d.net, d.row, start, mid, d.pos, nodes0, nodes1, nodes, segMin, segMax);
    assert Tried(d.net, d.row, mid, d.pos, nodes1, nodes, w, segMin, segMax);
    TriedKeepsHeights(d.net, d.row, mid, d.pos, nodes1, nodes, w, segMin, segMax, single);
    SweptNext(d.net, d.row, start, mid, d.pos, nodes0, nodes1, nodes, ws, w, segMin, segMax);
  }
}
