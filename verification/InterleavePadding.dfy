/** Padding that differs between a cell's sides (detailed_interleaving.cxx): the interleaver packs a cell in the
    middle of its slot, so it keeps padding only if both sides have the same, and the wirelength of a run can
    rise if they do not. */
module InterleavePadding {
  import opened RealMath
  import opened Netlist
  import opened Permutations
  import opened InterleaveSpec
  import opened InterleaveSolve
  import opened InterleaveClamp
  import opened InterleaveBuild
  import opened Interleave
  import opened InterleaveModel
  import opened InterleaveTies

  /** The cells stand from left to right between `lo` and `hi`, each with its padding left and right of it. */
  ghost predicate PaddedSpread(pos: Placement, list: seq<nat>, row: Row, lo: real, hi: real)
    requires row.Valid(|pos|)
  {
    && (forall k :: 0 <= k < |list| ==> list[k] < |pos|)
    && (list != [] ==> lo <= PaddedLeft(pos, row, list[0]) && PaddedRight(pos, row, list[|list| - 1]) <= hi)
    && (forall k :: 0 < k < |list| ==> PaddedRight(pos, row, list[k - 1]) <= PaddedLeft(pos, row, list[k]))
  }

  function PaddedLeft(pos: Placement, row: Row, n: nat): real
    requires row.Valid(|pos|) && n < |pos|
  {
    LeftEnd(pos, row.widths, n) - row.leftPad[n]
  }

  function PaddedRight(pos: Placement, row: Row, n: nat): real
    requires row.Valid(|pos|) && n < |pos|
  {
    RightEnd(pos, row.widths, n) + row.rightPad[n]
  }

  /** The first cells' paddings on either side; nodes after them, the terminals, have none. */
  ghost predicate Pads(row: Row, left: seq<real>, right: seq<real>) {
    && |left| == |right| <= |row.leftPad| == |row.rightPad|
    && forall v :: 0 <= v < |row.leftPad| ==>
         && row.leftPad[v] == (if v < |left| then left[v] else 0.0)
         && row.rightPad[v] == (if v < |right| then right[v] else 0.0)
  }

  /** An accepted window of these cells that stood apart with their padding, and no longer do. */
  ghost predicate LosesPadding(left: seq<real>, right: seq<real>, net: Network, row: Row, pos: Placement, nodes: seq<nat>, lo: real, hi: real,
                               q: Placement, nodes': seq<nat>, p: Problem, ids: seq<nat>, first: seq<nat>, x: seq<real>) {
    && Accepts(net, row, pos, nodes, lo, hi, q, nodes', p, ids, first, x)
    && PinsInCells(net, row.widths) && Pads(row, left, right) && |q| == |pos|
    && |nodes| >= 5 && (forall k :: 0 <= k < |nodes| ==> nodes[k] < |left|)
    && PaddedSpread(pos, nodes, row, lo, hi) && !PaddedSpread(q, nodes', row, lo, hi)
  }

  /** No accepted window of cells with these paddings ever loses padding if and only if each cell has the same on
      both sides. */
  lemma {:induction false} KeepsPaddingIff(left: seq<real>, right: seq<real>)
    requires |left| == |right| >= 5 && forall v :: 0 <= v < |left| ==> left[v] >= 0.0 && right[v] >= 0.0
    ensures (forall net, row, pos, nodes, lo, hi, q, nodes', p, ids, first, x ::
               !LosesPadding(left, right, net, row, pos, nodes, lo, hi, q, nodes', p, ids, first, x)) <==> left == right
  {
    if left == right {
      forall net, row, pos, nodes, lo, hi, q, nodes', p, ids, first, x
        ensures !LosesPadding(left, right, net, row, pos, nodes, lo, hi, q, nodes', p, ids, first, x)
      {
        if Accepts(net, row, pos, nodes, lo, hi, q, nodes', p, ids, first, x) && Pads(row, left, right)
           && |q| == |pos| && PaddedSpread(pos, nodes, row, lo, hi) {
          SameKeeps(left, net, row, pos, nodes, lo, hi, q, nodes', p, ids, first, x);
        }
      }
    } else {
      hide LosesPadding;
      var v :| 0 <= v < |left| && left[v] != right[v];
      var w, s, ties, q, nodes', p, ids, first, x := OtherLoses(left, right, v);
      assert LosesPadding(left, right, Tied(|left|, ties), SlotRow(left, right, w, 1), SlotPos(left, right, w, s, ties), s[..5],
                          0.0, Scaled(5, w), q, nodes', p, ids, first, x);
    }
  }

  lemma {:induction false} SameKeeps(pad: seq<real>, net: Network, row: Row, pos: Placement, nodes: seq<nat>, lo: real, hi: real,
                                     q: Placement, nodes': seq<nat>, p: Problem, ids: seq<nat>, first: seq<nat>, x: seq<real>)
    requires Accepts(net, row, pos, nodes, lo, hi, q, nodes', p, ids, first, x) && Pads(row, pad, pad)
    requires |q| == |pos| && PaddedSpread(pos, nodes, row, lo, hi)
    ensures PaddedSpread(q, nodes', row, lo, hi)
  {
    AcceptedRelocates(net, row, pos, nodes, lo, hi, q, nodes', p, ids, first, x);
    assert row.Valid(|pos|) && row.leftPad == row.rightPad;
    hide Accepts, Spread, PaddedSpread;
    SamePads(row, pos, nodes, lo, hi);
    SamePads(row, q, nodes', lo, hi);
  }

  lemma {:induction false} AcceptedRelocates(net: Network, row: Row, pos: Placement, nodes: seq<nat>, lo: real, hi: real,
                                             q: Placement, nodes': seq<nat>, p: Problem, ids: seq<nat>, first: seq<nat>, x: seq<real>)
    requires Accepts(net, row, pos, nodes, lo, hi, q, nodes', p, ids, first, x)
    ensures Relocated(row, pos, q, nodes, nodes', lo, hi)
  {
    hide BuiltFor, OrderCost, FirstCost, PackedAs, Network.Valid, Relocated, RoomOf;
    BuiltShape(p, net, pos, nodes, ids, row, lo, hi);
    RelocatedAfter(p, net, pos, q, nodes, ids, row, lo, hi, Passes(p, first, PASSES), x);
  }

  lemma {:induction false} SamePads(row: Row, pos: Placement, list: seq<nat>, lo: real, hi: real)
    requires row.Valid(|pos|) && row.Symmetric()
    ensures PaddedSpread(pos, list, row, lo, hi) <==> Spread(pos, list, row.Padded(), lo, hi)
  {
    forall n: nat | n < |pos|
      ensures PaddedLeft(pos, row, n) == LeftEnd(pos, row.Padded(), n) && PaddedRight(pos, row, n) == RightEnd(pos, row.Padded(), n)
    {
    }
    assert |row.Padded()| == |pos|;
  }

  // ----- rooms without spare, and with one site each

  lemma {:induction false} NoSpare(reserve: seq<real>, n: nat, step: real, space: real)
    requires n <= |reserve| && step > 0.0 && Sum(reserve) >= space
    ensures GivenOut(reserve, n, step, space) == reserve
  {
    if n > 0 {
      NoSpare(reserve, n - 1, step, space);
    }
  }

  /** A window exactly as long as its padded cells gets exactly that. */
  lemma {:induction false} TightSpace(plain: seq<real>, padded: seq<real>, left: real, right: real, site: real)
    requires plain != [] && |plain| == |padded| && site > 0.0 && Sum(padded) == right - left
    ensures SpaceFor(plain, padded, left, right, left, right, site) == Space(left, right, padded)
  {
    hide Sum;
    NoSpare(padded, |padded|, Share(padded, right - left, site), right - left);
  }

  lemma {:induction false} EveryoneServed(reserve: seq<real>, n: nat, step: real, space: real)
    requires n <= |reserve| && step > 0.0 && Sum(reserve) + Scaled(|reserve|, step) < space
    ensures var ws := GivenOut(reserve, n, step, space);
      && Sum(ws) == Sum(reserve) + Scaled(n, step)
      && forall k :: 0 <= k < |ws| ==> ws[k] == if k < n then reserve[k] + step else reserve[k]
  {
    hide Sum, Scaled;
    if n == 0 {
      ScaledNext(0, step);
    } else {
      EveryoneServed(reserve, n - 1, step, space);
      var before := GivenOut(reserve, n - 1, step, space);
      SumUpdate(before, n - 1, before[n - 1] + step);
      ScaledNext(n - 1, step);
      ScaledMono(n, |reserve|, step);
    }
  }

  function Scaled(n: nat, step: real): real {
    n as real * step
  }

  lemma ScaledNext(n: nat, step: real)
    ensures Scaled(n + 1, step) == Scaled(n, step) + step && Scaled(0, step) == 0.0
  {
  }

  lemma ScaledIs(n: nat, step: real)
    ensures Scaled(n, step) == n as real * step
  {
  }

  lemma ScaledMono(n: nat, m: nat, step: real)
    requires n <= m && step >= 0.0
    ensures Scaled(n, step) <= Scaled(m, step)
  {
  }

  // ----- cells that fill slots of one width with their padding

  /** The paddings go into slots of width w, and cell v is in slot s[v]: a list that undoes itself. */
  ghost predicate InSlots(left: seq<real>, right: seq<real>, w: real, s: seq<nat>) {
    && |left| == |right| == |s|
    && (forall v :: 0 <= v < |s| ==> left[v] >= 0.0 && right[v] >= 0.0 && left[v] + right[v] <= w)
    && (forall v :: 0 <= v < |s| ==> s[v] < |s| && s[s[v]] == v)
  }

  ghost function SlotRow(left: seq<real>, right: seq<real>, w: real, terminals: nat): (row: Row)
    requires |left| == |right| && forall v :: 0 <= v < |left| ==> left[v] >= 0.0 && right[v] >= 0.0 && left[v] + right[v] <= w
    ensures row.Valid(|left| + terminals) && Pads(row, left, right) && row.siteWidth == 1.0
    ensures forall v :: 0 <= v < |left| + terminals ==> row.widths[v] == if v < |left| then w - left[v] - right[v] else 0.0
  {
    var none := seq(terminals, _ => 0.0);
    Row(seq(|left|, v requires 0 <= v < |left| => w - left[v] - right[v]) + none, left + none, right + none, 1.0)
  }

  /** A cell with more padding on the left stands right of the middle of its slot. */
  ghost function SlotPos(left: seq<real>, right: seq<real>, w: real, s: seq<nat>, ties: seq<Tie>): (pos: Placement)
    requires |left| == |right| == |s|
    ensures |pos| == |s| + |ties|
    ensures forall v :: 0 <= v < |s| ==> pos[v] == Point(SlotAt(0.0, w, s[v]) + 0.5 * (left[v] - right[v]), 0.0)
    ensures forall e :: 0 <= e < |ties| ==> pos[|s| + e] == Point(ties[e].at, 0.0)
  {
    seq(|s|, v requires 0 <= v < |s| => Point(SlotAt(0.0, w, s[v]) + 0.5 * (left[v] - right[v]), 0.0))
    + seq(|ties|, e requires 0 <= e < |ties| => Point(ties[e].at, 0.0))
  }

  lemma {:induction false} SlotOnLine(left: seq<real>, right: seq<real>, w: real, s: seq<nat>, ties: seq<Tie>)
    requires InSlots(left, right, w, s) && Ties(|s|, ties)
    ensures OnLine(|s|, ties, SlotPos(left, right, w, s, ties))
  {
    hide SlotPos, SlotAt;
    var pos := SlotPos(left, right, w, s, ties);
    forall v | 0 <= v < |pos|
      ensures pos[v].y == 0.0
    {
      if v >= |s| {
        var e := v - |s|;
        assert pos[|s| + e] == Point(ties[e].at, 0.0);
      }
    }
  }

  lemma {:induction false} SlotWindow(left: seq<real>, right: seq<real>, w: real, s: seq<nat>, ties: seq<Tie>, m: nat)
    requires InSlots(left, right, w, s) && Ties(|s|, ties) && m <= |s|
    ensures Window(Tied(|s|, ties), SlotPos(left, right, w, s, ties), s[..m])
  {
    hide Tied, Network.Valid, SlotPos;
    TiedValid(|s|, ties);
    forall i, j | 0 <= i < j < m
      ensures s[i] != s[j]
    {
      assert s[s[i]] == i && s[s[j]] == j;
    }
  }

  /** Cell v's padded extent is its slot. */
  lemma SlotEnds(left: seq<real>, right: seq<real>, w: real, s: seq<nat>, ties: seq<Tie>, v: nat)
    requires InSlots(left, right, w, s) && v < |s|
    ensures var pos, row := SlotPos(left, right, w, s, ties), SlotRow(left, right, w, |ties|);
      PaddedLeft(pos, row, v) == Scaled(s[v], w) && PaddedRight(pos, row, v) == Scaled(s[v] + 1, w)
  {
    hide SlotPos, SlotRow, Row.Valid;
    ScaledNext(s[v], w);
  }

  /** So the cells of the first m slots stand apart between the first slot's begin and the last one's end. */
  lemma {:induction false} SlotSpread(left: seq<real>, right: seq<real>, w: real, s: seq<nat>, ties: seq<Tie>, m: nat)
    requires InSlots(left, right, w, s) && 0 < m <= |s|
    ensures var pos, row, end := SlotPos(left, right, w, s, ties), SlotRow(left, right, w, |ties|), Scaled(m, w);
      && PaddedSpread(pos, s[..m], row, 0.0, end) && LeftEdge(pos, s[..m], row, 0.0) == 0.0 && RightEdge(pos, s[..m], row, end) == end
  {
    var pos, row := SlotPos(left, right, w, s, ties), SlotRow(left, right, w, |ties|);
    forall k | 0 <= k < m
      ensures PaddedLeft(pos, row, s[k]) == Scaled(k, w) && PaddedRight(pos, row, s[k]) == Scaled(k + 1, w)
    {
      hide SlotPos, SlotRow, PaddedLeft, PaddedRight, Scaled;
      SlotEnds(left, right, w, s, ties, s[k]);
    }
    hide SlotPos, SlotRow, InSlots, Row.Valid, Scaled, PaddedLeft, PaddedRight, LeftEdge, RightEdge;
    TouchingSlots(pos, row, s[..m], w);
  }

  lemma {:induction false} TouchingSlots(pos: Placement, row: Row, nodes: seq<nat>, w: real)
    requires row.Valid(|pos|) && nodes != [] && forall k :: 0 <= k < |nodes| ==> nodes[k] < |pos|
    requires forall k :: 0 <= k < |nodes| ==>
      PaddedLeft(pos, row, nodes[k]) == Scaled(k, w) && PaddedRight(pos, row, nodes[k]) == Scaled(k + 1, w)
    ensures var end := Scaled(|nodes|, w);
      && PaddedSpread(pos, nodes, row, 0.0, end) && LeftEdge(pos, nodes, row, 0.0) == 0.0 && RightEdge(pos, nodes, row, end) == end
  {
    hide Row.Valid;
    ScaledNext(0, w);
    hide Scaled;
    forall k | 0 < k < |nodes|
      ensures PaddedRight(pos, row, nodes[k - 1]) <= PaddedLeft(pos, row, nodes[k])
    {
      hide PaddedLeft, PaddedRight;
      assert Scaled(k - 1 + 1, w) == Scaled(k, w);
    }
    assert Scaled(|nodes| - 1 + 1, w) == Scaled(|nodes|, w);
  }

  lemma SlotSizes(left: seq<real>, right: seq<real>, w: real, s: seq<nat>, terminals: nat, m: nat)
    requires InSlots(left, right, w, s) && m <= |s|
    ensures var row := SlotRow(left, right, w, terminals);
      |row.Padded()| == |s| + terminals && forall k :: 0 <= k < m ==> Sizes(row.Padded(), s[..m])[k] == w
  {
    hide SlotRow;
  }

  /** Cells that fill their slots get exactly those. */
  lemma {:induction false} TightRoom(pos: Placement, nodes: seq<nat>, row: Row, w: real, end: real)
    requires row.Valid(|pos|) && nodes != [] && forall k :: 0 <= k < |nodes| ==> nodes[k] < |pos|
    requires LeftEdge(pos, nodes, row, 0.0) == 0.0 && RightEdge(pos, nodes, row, end) == end && end == |nodes| as real * w
    requires forall k :: 0 <= k < |nodes| ==> Sizes(row.Padded(), nodes)[k] == w
    ensures RoomOf(pos, nodes, row, 0.0, end) == Space(0.0, end, Sizes(row.Padded(), nodes))
  {
    RoomBetweenEdges(pos, nodes, row, 0.0, end);
    hide SpaceFor, LeftEdge, RightEdge, RoomOf, Sum, Sizes;
    SumEqual(Sizes(row.Padded(), nodes), w);
    TightSpace(Sizes(row.widths, nodes), Sizes(row.Padded(), nodes), 0.0, end, row.siteWidth);
  }

  /** An accepted window packs its cells in a new order. */
  lemma {:induction false} AcceptedPacks(net: Network, row: Row, pos: Placement, nodes: seq<nat>, lo: real, hi: real,
                                         q: Placement, nodes': seq<nat>, p: Problem, ids: seq<nat>, first: seq<nat>, x: seq<real>)
      returns (order: seq<nat>)
    requires Accepts(net, row, pos, nodes, lo, hi, q, nodes', p, ids, first, x)
    ensures |p.widths| == |nodes| && Permutes(order, |nodes|) && Cells(p, order) && PackedAs(p, order, x)
    ensures InterleaveClamp.Moved(pos, q, nodes, x) && nodes' == Reordered(nodes, order)
    ensures row.Valid(|pos|) && nodes != [] && RoomOf(pos, nodes, row, lo, hi) == Space(p.xmin, p.xmax, p.widths)
  {
    hide BuiltFor, OrderCost, FirstCost, RoomOf, Network.Valid, SortedBy, PackedAs;
    BuiltShape(p, net, pos, nodes, ids, row, lo, hi);
    order := Passes(p, first, PASSES);
  }

  /** Into equal slots, if the cells are equally wide. */
  lemma {:induction false} AcceptedSlots(pos: Placement, nodes: seq<nat>, q: Placement, p: Problem, order: seq<nat>, x: seq<real>, w: real)
    requires |p.widths| == |nodes| && Permutes(order, |nodes|) && Cells(p, order) && PackedAs(p, order, x)
    requires InterleaveClamp.Moved(pos, q, nodes, x) && forall n :: 0 <= n < |nodes| ==> p.widths[n] == w
    ensures |Reordered(nodes, order)| == |nodes| && |q| == |pos|
    ensures forall k :: 0 <= k < |nodes| ==> var v := Reordered(nodes, order)[k]; v in nodes && v < |q| && q[v].x == SlotAt(p.xmin, w, k)
    ensures forall v :: v in nodes ==> v in Reordered(nodes, order)
    ensures forall m: nat :: m < |pos| ==> q[m].y == pos[m].y && (m !in nodes ==> q[m] == pos[m])
  {
    hide CentreOf;
    forall k | 0 <= k < |nodes|
      ensures q[nodes[order[k]]].x == SlotAt(p.xmin, w, k)
    {
      EqualSlots(p, order, k, w);
    }
    OnlySideways(pos, q, nodes, x);
    PermutesAll(order, |nodes|);
    forall v | v in nodes
      ensures v in Reordered(nodes, order)
    {
      var i :| 0 <= i < |nodes| && nodes[i] == v;
      assert i in order;
      var k :| 0 <= k < |order| && order[k] == i;
      assert Reordered(nodes, order)[k] == v;
    }
  }

  // ----- unequal padding is lost

  /** Cell v is tied to the end of a window of five where it has the more padding, and stands there. */
  lemma {:induction false} OtherLoses(left: seq<real>, right: seq<real>, v: nat)
      returns (w: real, s: seq<nat>, ties: seq<Tie>, q: Placement, nodes': seq<nat>, p: Problem, ids: seq<nat>, first: seq<nat>, x: seq<real>)
    requires |left| == |right| >= 5 && forall v :: 0 <= v < |left| ==> left[v] >= 0.0 && right[v] >= 0.0
    requires v < |left| && left[v] != right[v]
    ensures InSlots(left, right, w, s) && |ties| == 1
    ensures LosesPadding(left, right, Tied(|left|, ties), SlotRow(left, right, w, 1), SlotPos(left, right, w, s, ties), s[..5],
                         0.0, Scaled(5, w), q, nodes', p, ids, first, x)
  {
    hide SlotRow, SlotPos, LosesPadding, Tied, OnLine, Nearer, Window, PinsInCells, LeftEdge, RightEdge, PaddedSpread, Scaled, Row.Padded, Sizes,
      Row.Valid, Pads, SlotAt;
    var n, t := |left|, if left[v] < right[v] then 4 else 0;
    w := WideEnough(left, right);
    s := Count(n)[v := t][t := v];
    ties := [Tie(v, 0.0, if left[v] < right[v] then Scaled(5, w) else 0.0)];
    assert InSlots(left, right, w, s) && Ties(n, ties);
    var row, pos := SlotRow(left, right, w, 1), SlotPos(left, right, w, s, ties);
    SlotOnLine(left, right, w, s, ties);
    SlotWindow(left, right, w, s, ties, 5);
    SlotSpread(left, right, w, s, ties, 5);
    SlotSizes(left, right, w, s, 1, 5);
    EndGetsNearer(left, right, w, s, ties, v, t);
    PinsCentred(n, ties, row.widths);
    q, nodes', p, ids, first, x := EndLoses(left, right, w, s, ties, v, t, row, pos);
  }

  /** A slot width that all paddings go into. */
  lemma {:induction false} WideEnough(left: seq<real>, right: seq<real>) returns (w: real)
    requires |left| == |right| && forall v :: 0 <= v < |left| ==> left[v] >= 0.0 && right[v] >= 0.0
    ensures forall v :: 0 <= v < |left| ==> left[v] + right[v] <= w
  {
    if left == [] {
      w := 0.0;
    } else {
      var n := |left| - 1;
      w := WideEnough(left[..n], right[..n]);
      w := Max(w, left[n] + right[n]);
    }
  }

  /** What is decided about cell v: it is in slot t, the last one if it has more padding on the right, else the first. */
  ghost predicate AtEnd(left: seq<real>, right: seq<real>, w: real, s: seq<nat>, ties: seq<Tie>, v: nat, t: nat) {
    && InSlots(left, right, w, s) && v < |s| && left[v] != right[v] && |s| >= 5 && s[v] == t && s[t] == v
    && t == (if left[v] < right[v] then 4 else 0)
    && ties == [Tie(v, 0.0, if left[v] < right[v] then Scaled(5, w) else 0.0)]
  }

  /** It stands less than half a slot off the middle, on the far side. */
  lemma EndGetsNearer(left: seq<real>, right: seq<real>, w: real, s: seq<nat>, ties: seq<Tie>, v: nat, t: nat)
    requires AtEnd(left, right, w, s, ties, v, t)
    ensures Nearer(ties, SlotPos(left, right, w, s, ties), s[..5], 0.0, Scaled(5, w), w)
  {
    var pos, nodes := SlotPos(left, right, w, s, ties), s[..5];
    EndSeen(left, right, w, s, ties, v, t);
    hide SlotPos, Seen, SlotAt;
    assert nodes[t] == v;
    forall i, j | 0 <= i < j < 5
      ensures pos[nodes[i]].x <= pos[nodes[j]].x
    {
      hide Scaled;
      assert s[s[i]] == i && s[s[j]] == j;
      InSlot(left, right, w, s, ties, s[i]);
      InSlot(left, right, w, s, ties, s[j]);
      ScaledMono(i + 1, j, w);
    }
    forall e, i | 0 <= e < |ties| && 0 <= i < 5 && nodes[i] == ties[e].cell
      ensures e == 0 && i == t
    {
      assert s[s[i]] == i;
    }
  }

  lemma EndSeen(left: seq<real>, right: seq<real>, w: real, s: seq<nat>, ties: seq<Tie>, v: nat, t: nat)
    requires AtEnd(left, right, w, s, ties, v, t)
    ensures var end := Scaled(5, w); Seen(ties[0], 0.0, end, SlotAt(0.0, w, t)) < Seen(ties[0], 0.0, end, SlotPos(left, right, w, s, ties)[v].x)
  {
    hide SlotPos;
  }

  lemma InSlot(left: seq<real>, right: seq<real>, w: real, s: seq<nat>, ties: seq<Tie>, v: nat)
    requires InSlots(left, right, w, s) && v < |s|
    ensures Scaled(s[v], w) <= SlotPos(left, right, w, s, ties)[v].x <= Scaled(s[v] + 1, w)
  {
    hide SlotPos;
    ScaledNext(s[v], w);
  }

  lemma {:induction false} EndLoses(left: seq<real>, right: seq<real>, w: real, s: seq<nat>, ties: seq<Tie>, v: nat, t: nat, row: Row, pos: Placement)
      returns (q: Placement, nodes': seq<nat>, p: Problem, ids: seq<nat>, first: seq<nat>, x: seq<real>)
    requires AtEnd(left, right, w, s, ties, v, t) && row == SlotRow(left, right, w, 1) && pos == SlotPos(left, right, w, s, ties)
    requires OnLine(|s|, ties, pos) && Window(Tied(|s|, ties), pos, s[..5]) && row.Valid(|pos|) && Pads(row, left, right)
    requires LeftEdge(pos, s[..5], row, 0.0) == 0.0 && RightEdge(pos, s[..5], row, Scaled(5, w)) == Scaled(5, w)
    requires |row.Padded()| == |pos| && forall k :: 0 <= k < 5 ==> Sizes(row.Padded(), s[..5])[k] == w
    requires PaddedSpread(pos, s[..5], row, 0.0, Scaled(5, w)) && Nearer(ties, pos, s[..5], 0.0, Scaled(5, w), w)
    requires Tied(|s|, ties).Valid() && PinsInCells(Tied(|s|, ties), row.widths)
    ensures LosesPadding(left, right, Tied(|s|, ties), row, pos, s[..5], 0.0, Scaled(5, w), q, nodes', p, ids, first, x)
  {
    hide Tied, Accepts, RoomOf, PaddedSpread, OnLine, Nearer, Network.Valid, SlotRow, SlotPos, Window, PinsInCells, Row.Valid, LeftEdge, RightEdge,
      Pads, Scaled, SlotAt;
    var n, nodes, end := |s|, s[..5], Scaled(5, w);
    ScaledIs(|nodes|, w);
    assert nodes[t] == v && v in nodes && (forall k :: 0 <= k < 5 ==> nodes[k] < n) && n <= |pos|;
    hide AtEnd, InSlots;
    TightRoom(pos, nodes, row, w, end);
    q, nodes', p, ids, first, x := SlotsTaken(n, ties, row, pos, nodes, end, w);
    var k :| 0 <= k < |nodes'| && nodes'[k] == v;
    TiedShorter(left, right, w, s, ties, v, t, pos, q);
    StaysAtEnd(left, right, w, s, ties, v, t, pos, q, k);
    SticksOut(left, right, w, row, q, nodes', v, t);
  }

  /** Tied cells that get nearer in slots of one width are put there, in some order, and the nets get shorter. */
  lemma {:induction false} SlotsTaken(n: nat, ties: seq<Tie>, row: Row, pos: Placement, nodes: seq<nat>, end: real, w: real)
      returns (q: Placement, nodes': seq<nat>, p: Problem, ids: seq<nat>, first: seq<nat>, x: seq<real>)
    requires OnLine(n, ties, pos) && (forall k :: 0 <= k < |nodes| ==> nodes[k] < n) && Window(Tied(n, ties), pos, nodes)
    requires row.Valid(|pos|) && nodes != [] && PaddedSpread(pos, nodes, row, 0.0, end)
    requires RoomOf(pos, nodes, row, 0.0, end) == Space(0.0, end, Sizes(row.Padded(), nodes))
    requires forall k :: 0 <= k < |nodes| ==> Sizes(row.Padded(), nodes)[k] == w
    requires Nearer(ties, pos, nodes, 0.0, end, w) && Tied(n, ties).Valid() && PinsInCells(Tied(n, ties), row.widths)
    ensures Accepts(Tied(n, ties), row, pos, nodes, 0.0, end, q, nodes', p, ids, first, x)
    ensures |q| == |pos| && |nodes'| == |nodes| && forall v :: v in nodes ==> v in nodes'
    ensures forall k :: 0 <= k < |nodes| ==> nodes'[k] < |q| && q[nodes'[k]].x == SlotAt(0.0, w, k)
    ensures forall m: nat :: m < |pos| ==> q[m].y == pos[m].y && (m !in nodes ==> q[m] == pos[m])
    ensures Tied(n, ties).Fits(pos) && Tied(n, ties).Fits(q) && Tied(n, ties).Hpwl(q, LIMIT) < Tied(n, ties).Hpwl(pos, LIMIT)
  {
    hide Tied, Accepts, RoomOf, PaddedSpread, OnLine, Nearer, Network.Valid, Window, PinsInCells, Row.Valid, SlotAt, Spread, PackedAs, Permutes,
      Cells, InterleaveClamp.Moved, Row.Padded, Sizes;
    q, nodes', p, ids, first, x := NearerIsAccepted(n, ties, row, pos, nodes, 0.0, end, w);
    var order := AcceptedPacks(Tied(n, ties), row, pos, nodes, 0.0, end, q, nodes', p, ids, first, x);
    AcceptedSlots(pos, nodes, q, p, order, x, w);
    PaddedIsSpread(pos, nodes, row, 0.0, end);
    AcceptedShortens(Tied(n, ties), row, pos, nodes, 0.0, end, q, nodes', p, ids, first, x);
  }

  lemma PinsCentred(n: nat, ties: seq<Tie>, widths: seq<real>)
    requires Ties(n, ties) && |widths| == n + |ties| && forall v :: n <= v < |widths| ==> widths[v] == 0.0
    requires forall e :: 0 <= e < |ties| ==> -0.5 * widths[ties[e].cell] <= ties[e].offset <= 0.5 * widths[ties[e].cell]
    ensures Tied(n, ties).Valid() && PinsInCells(Tied(n, ties), widths)
  {
    hide Tied;
    TiedValid(n, ties);
    forall p | 0 <= p < 2 * |ties|
      ensures var pin := Tied(n, ties).pins[p]; pin.node < |widths| && -0.5 * widths[pin.node] <= pin.dx <= 0.5 * widths[pin.node]
    {
      hide Network.Valid;
      TiedPinIs(n, ties, p);
    }
  }

  lemma TiedPinIs(n: nat, ties: seq<Tie>, p: nat)
    requires Ties(n, ties) && p < 2 * |ties|
    ensures Tied(n, ties).pins[p] == if p < |ties| then Pin(ties[p].cell, p, ties[p].offset, 0.0) else Pin(n + p - |ties|, p - |ties|, 0.0, 0.0)
  {
    hide Tied;
    var e := if p < |ties| then p else p - |ties|;
    assert ties[e].cell < n;
    assert Tied(n, ties).pins[|ties| + e] == Pin(n + e, e, 0.0, 0.0);
  }

  /** An accepted window of cells that stand apart makes the nets shorter. */
  lemma {:induction false} AcceptedShortens(net: Network, row: Row, pos: Placement, nodes: seq<nat>, lo: real, hi: real,
                                            q: Placement, nodes': seq<nat>, p: Problem, ids: seq<nat>, first: seq<nat>, x: seq<real>)
    requires Accepts(net, row, pos, nodes, lo, hi, q, nodes', p, ids, first, x)
    requires row.Valid(|pos|) && net.Valid() && PinsInCells(net, row.widths) && Spread(pos, nodes, row.widths, lo, hi)
    ensures net.Fits(pos) && net.Fits(q) && net.Hpwl(q, LIMIT) < net.Hpwl(pos, LIMIT)
  {
    hide BuiltFor, OrderCost, FirstCost, PackedAs, Network.Valid, Relocated, RoomOf, PinsInCells, Spread;
    BuiltShape(p, net, pos, nodes, ids, row, lo, hi);
    CheaperImproves(p, net, pos, q, nodes, ids, row, lo, hi, Passes(p, first, PASSES), CentresAt(pos, nodes), x);
  }

  lemma PaddedIsSpread(pos: Placement, list: seq<nat>, row: Row, lo: real, hi: real)
    requires row.Valid(|pos|) && PaddedSpread(pos, list, row, lo, hi)
    ensures Spread(pos, list, row.widths, lo, hi)
  {
  }

  /** The only net is the tied cell's. */
  lemma {:induction false} TiedShorter(left: seq<real>, right: seq<real>, w: real, s: seq<nat>, ties: seq<Tie>, v: nat, t: nat, pos: Placement, q: Placement)
    requires AtEnd(left, right, w, s, ties, v, t) && OnLine(|s|, ties, pos) && |q| == |pos|
    requires forall m: nat :: m < |pos| ==> q[m].y == pos[m].y && (m !in s[..5] ==> q[m] == pos[m])
    requires Tied(|s|, ties).Fits(pos) && Tied(|s|, ties).Fits(q) && Tied(|s|, ties).Hpwl(q, LIMIT) < Tied(|s|, ties).Hpwl(pos, LIMIT)
    ensures v < |pos| && Abs(ties[0].at - q[v].x) < Abs(ties[0].at - pos[v].x)
  {
    var n := |s|;
    hide Tied, Network.Valid, Network.Hpwl;
    StillOnLine(s, ties, pos, q);
    hide OnLine;
    assert ties[0].cell == v && ties[0].offset == 0.0;
    TiedLength(n, ties, pos, 0);
    TiedLength(n, ties, q, 0);
    OneNet(Tied(n, ties), pos);
    OneNet(Tied(n, ties), q);
  }

  lemma StillOnLine(s: seq<nat>, ties: seq<Tie>, pos: Placement, q: Placement)
    requires |s| >= 5 && (forall k :: 0 <= k < |s| ==> s[k] < |s|) && |ties| == 1 && OnLine(|s|, ties, pos) && |q| == |pos|
    requires forall m: nat :: m < |pos| ==> q[m].y == pos[m].y && (m !in s[..5] ==> q[m] == pos[m])
    ensures OnLine(|s|, ties, q)
  {
    assert |s| !in s[..5];
  }

  lemma OneNet(net: Network, pos: Placement)
    requires net.Fits(pos) && |net.edgePins| == 1 && net.Counted(0, LIMIT)
    ensures net.Hpwl(pos, LIMIT) == net.HalfPerimeter(pos, 0)
  {
    var s := net.Lengths(pos, LIMIT);
    assert s[..0] == [] && Sum(s[..0]) == 0.0;
  }

  /** In any other slot it would be farther from its terminal. */
  lemma StaysAtEnd(left: seq<real>, right: seq<real>, w: real, s: seq<nat>, ties: seq<Tie>, v: nat, t: nat, pos: Placement, q: Placement, k: nat)
    requires AtEnd(left, right, w, s, ties, v, t) && pos == SlotPos(left, right, w, s, ties) && |q| == |pos|
    requires k < 5 && q[v].x == SlotAt(0.0, w, k) && Abs(ties[0].at - q[v].x) < Abs(ties[0].at - pos[v].x)
    ensures k == t
  {
    InSlot(left, right, w, s, ties, v);
    hide SlotPos;
    if k < t {
      ScaledMono(k + 1, t, w);
    } else if t < k {
      ScaledMono(t + 1, k, w);
    }
    ScaledNext(k, w);
  }

  /** In the middle of its slot it has not the room it needs on the side of the window's end. */
  lemma SticksOut(left: seq<real>, right: seq<real>, w: real, row: Row, q: Placement, list: seq<nat>, v: nat, t: nat)
    requires |left| == |right| && v < |left| && left[v] != right[v] && t == if left[v] < right[v] then 4 else 0
    requires row.Valid(|q|) && Pads(row, left, right) && row.widths[v] == w - left[v] - right[v]
    requires |list| == 5 && list[t] == v && q[v].x == SlotAt(0.0, w, t)
    ensures !PaddedSpread(q, list, row, 0.0, Scaled(5, w))
  {
    if left[v] < right[v] {
      assert PaddedRight(q, row, list[4]) == SlotAt(0.0, w, 4) + 0.5 * (w - left[v] - right[v]) + right[v];
    } else {
      assert PaddedLeft(q, row, list[0]) == SlotAt(0.0, w, 0) - 0.5 * (w - left[v] - right[v]) - left[v];
    }
  }
}
