/** The small problem of one interleaving window (detailed_interleaving.cxx) and what its
    incremental table entries mean. */
module InterleaveSpec {
  import opened RealMath
  import opened Intervals

  /** A pin of a cell: which net, and how far from the cell's centre. */
  datatype PinOn = PinOn(edge: nat, offset: real)

  /** `netBoxes[e]` is the box of the terminals of net e that do not move. */
  datatype Problem = Problem(xmin: real, xmax: real, adj: seq<seq<PinOn>>, widths: seq<real>, netBoxes: seq<Interval>) {
    predicate Valid() {
      && |adj| == |widths|
      && forall i, k :: 0 <= i < |adj| && 0 <= k < |adj[i]| ==> adj[i][k].edge < |netBoxes|
    }
  }

  ghost predicate Cells(p: Problem, order: seq<nat>) {
    forall k :: 0 <= k < |order| ==> order[k] < |p.widths|
  }

  ghost function Widths(boxes: seq<Interval>): (s: seq<real>)
    ensures |s| == |boxes| && forall e :: 0 <= e < |s| ==> s[e] == boxes[e].Width()
  {
    seq(|boxes|, e requires 0 <= e < |boxes| => boxes[e].Width())
  }

  // ----- the incremental form

  datatype State = State(leftEdge: real, cost: real, boxes: seq<Interval>)

  ghost function Start(p: Problem): State {
    State(p.xmin, Sum(Widths(p.netBoxes)), p.netBoxes)
  }

  /** Pins `ps` of a cell centred at `x`, one by one: each takes its net's old width off the cost,
      stretches the net's box and puts the new width back. */
  ghost function AddPins(s: State, ps: seq<PinOn>, x: real): (r: State)
    requires forall k :: 0 <= k < |ps| ==> ps[k].edge < |s.boxes|
    ensures |r.boxes| == |s.boxes|
  {
    if ps == [] then s
    else
      var q := AddPins(s, ps[..|ps| - 1], x);
      var pin := ps[|ps| - 1];
      var box := q.boxes[pin.edge].Add(x + pin.offset);
      State(q.leftEdge, q.cost - q.boxes[pin.edge].Width() + box.Width(), q.boxes[pin.edge := box])
  }

  /** One more cell, packed against the left edge. */
  ghost function AddCell(p: Problem, s: State, i: nat): (r: State)
    requires p.Valid() && i < |p.widths| && |s.boxes| == |p.netBoxes|
    ensures |r.boxes| == |p.netBoxes|
  {
    var r := AddPins(s, p.adj[i], s.leftEdge + 0.5 * p.widths[i]);
    State(r.leftEdge + p.widths[i], r.cost, r.boxes)
  }

  /** The entry reached by adding the cells of `order` to an empty row. */
  ghost function Replay(p: Problem, order: seq<nat>): (r: State)
    requires p.Valid() && Cells(p, order)
    ensures |r.boxes| == |p.netBoxes|
  {
    if order == [] then Start(p)
    else AddCell(p, Replay(p, order[..|order| - 1]), order[|order| - 1])
  }

  lemma ReplaySnoc(p: Problem, order: seq<nat>, i: nat)
    requires p.Valid() && Cells(p, order) && i < |p.widths|
    ensures Cells(p, order + [i]) && Replay(p, order + [i]) == AddCell(p, Replay(p, order), i)
  {
    assert (order + [i])[..|order|] == order;
  }

  // ----- the same quantities counted from scratch

  ghost function WidthsOf(p: Problem, order: seq<nat>): (s: seq<real>)
    requires Cells(p, order)
    ensures |s| == |order|
  {
    seq(|order|, k requires 0 <= k < |order| => p.widths[order[k]])
  }

  /** Left edge of the k-th cell when the cells of `order` are packed from xmin. */
  ghost function LeftOf(p: Problem, order: seq<nat>, k: nat): real
    requires Cells(p, order) && k <= |order|
  {
    p.xmin + Sum(WidthsOf(p, order[..k]))
  }

  ghost function CentreOf(p: Problem, order: seq<nat>, k: nat): real
    requires Cells(p, order) && k < |order|
  {
    LeftOf(p, order, k) + 0.5 * p.widths[order[k]]
  }

  /** Coordinates on net `e` of the pins `ps` of a cell centred at `x`. */
  ghost function PinCoords(ps: seq<PinOn>, x: real, e: nat): seq<real> {
    if ps == [] then []
    else
      var pin := ps[|ps| - 1];
      PinCoords(ps[..|ps| - 1], x, e) + (if pin.edge == e then [x + pin.offset] else [])
  }

  /** Coordinates on net `e` of the pins of the cells of `order`, the k-th centred at `xs[k]`. */
  ghost function Coords(p: Problem, order: seq<nat>, xs: seq<real>, e: nat): seq<real>
    requires p.Valid() && Cells(p, order) && |order| == |xs|
  {
    if order == [] then []
    else
      var n := |order| - 1;
      Coords(p, order[..n], xs[..n], e) + PinCoords(p.adj[order[n]], xs[n], e)
  }

  /** The box of net `e`: its fixed terminals and all those pins. */
  ghost function BoxOf(p: Problem, order: seq<nat>, xs: seq<real>, e: nat): Interval
    requires p.Valid() && Cells(p, order) && |order| == |xs| && e < |p.netBoxes|
  {
    Extend(p.netBoxes[e], Coords(p, order, xs, e))
  }

  ghost function Boxes(p: Problem, order: seq<nat>, xs: seq<real>): (s: seq<Interval>)
    requires p.Valid() && Cells(p, order) && |order| == |xs|
    ensures |s| == |p.netBoxes|
  {
    seq(|p.netBoxes|, e requires 0 <= e < |p.netBoxes| => BoxOf(p, order, xs, e))
  }

  ghost function CostOf(p: Problem, order: seq<nat>, xs: seq<real>): real
    requires p.Valid() && Cells(p, order) && |order| == |xs|
  {
    Sum(Widths(Boxes(p, order, xs)))
  }

  ghost function Centres(p: Problem, order: seq<nat>): (s: seq<real>)
    requires Cells(p, order)
    ensures |s| == |order|
  {
    seq(|order|, k requires 0 <= k < |order| => CentreOf(p, order, k))
  }

  lemma {:induction false} ExtendConcat(start: Interval, a: seq<real>, b: seq<real>)
    ensures Extend(start, a + b) == Extend(Extend(start, a), b)
  {
    if b == [] {
      assert a + b == a;
    } else {
      var n := |b| - 1;
      ExtendConcat(start, a, b[..n]);
      assert a + b == (a + b[..n]) + [b[n]];
      ExtendSnoc(start, a + b[..n], b[n]);
    }
  }

  /** Adding pins one at a time stretches every box by that box's own pins and keeps the cost
      equal to the sum of the box widths. */
  lemma {:induction false} AddPinsMeaning(s: State, ps: seq<PinOn>, x: real)
    requires forall k :: 0 <= k < |ps| ==> ps[k].edge < |s.boxes|
    requires s.cost == Sum(Widths(s.boxes))
    ensures var r := AddPins(s, ps, x);
      && r.leftEdge == s.leftEdge
      && r.cost == Sum(Widths(r.boxes))
      && forall e: nat :: e < |s.boxes| ==> r.boxes[e] == Extend(s.boxes[e], PinCoords(ps, x, e))
  {
    hide Extend, PinCoords, Interval.Add, Sum, Interval.Width;
    if ps == [] {
      forall e: nat | e < |s.boxes|
        ensures Extend(s.boxes[e], PinCoords(ps, x, e)) == s.boxes[e]
      {
        NoPins(s.boxes[e], x, e);
      }
    } else {
      var n := |ps| - 1;
      AddPinsMeaning(s, ps[..n], x);
      var q, r := AddPins(s, ps[..n], x), AddPins(s, ps, x);
      var e := ps[n].edge;
      SumUpdate(Widths(q.boxes), e, r.boxes[e].Width());
      assert Widths(r.boxes) == Widths(q.boxes)[e := r.boxes[e].Width()];
      ExtendSnoc(s.boxes[e], PinCoords(ps[..n], x, e), x + ps[n].offset);
      forall f: nat | f < |s.boxes|
        ensures r.boxes[f] == Extend(s.boxes[f], PinCoords(ps, x, f))
      {
        LastPin(ps, x, f);
      }
    }
  }

  lemma NoPins(box: Interval, x: real, e: nat)
    ensures Extend(box, PinCoords([], x, e)) == box
  {
  }

  lemma LastPin(ps: seq<PinOn>, x: real, e: nat)
    requires ps != []
    ensures var n := |ps| - 1;
      PinCoords(ps, x, e) == if ps[n].edge == e then PinCoords(ps[..n], x, e) + [x + ps[n].offset] else PinCoords(ps[..n], x, e)
  {
  }

  /** A table entry kept incrementally equals the from-scratch recount of its order: left edge, every
      net box, and the cost. */
  lemma {:induction false} EntryIsRecount(p: Problem, order: seq<nat>)
    requires p.Valid() && Cells(p, order)
    ensures Replay(p, order).leftEdge == LeftOf(p, order, |order|)
    ensures Replay(p, order).boxes == Boxes(p, order, Centres(p, order))
    ensures Replay(p, order).cost == CostOf(p, order, Centres(p, order))
  {
    assert order[..|order|] == order;
    if order == [] {
      assert Boxes(p, order, Centres(p, order)) == p.netBoxes;
      assert WidthsOf(p, order) == [];
    } else {
      var n := |order| - 1;
      EntryIsRecount(p, order[..n]);
      PackedPrefix(p, order, n);
      LeftOfNext(p, order, n);
      AddCellMeaning(p, Replay(p, order[..n]), order[n]);
      EntryStep(p, order, Centres(p, order), Replay(p, order[..n]));
    }
  }

  lemma {:induction false} AddCellMeaning(p: Problem, s: State, i: nat)
    requires p.Valid() && i < |p.widths| && |s.boxes| == |p.netBoxes|
    requires s.cost == Sum(Widths(s.boxes))
    ensures var r := AddCell(p, s, i);
      && r.leftEdge == s.leftEdge + p.widths[i]
      && r.cost == Sum(Widths(r.boxes))
      && forall e: nat :: e < |s.boxes| ==>
           r.boxes[e] == Extend(s.boxes[e], PinCoords(p.adj[i], s.leftEdge + 0.5 * p.widths[i], e))
  {
    hide AddPins, Extend, PinCoords, Widths, Sum;
    AddPinsMeaning(s, p.adj[i], s.leftEdge + 0.5 * p.widths[i]);
  }

  lemma {:induction false} EntryStep(p: Problem, order: seq<nat>, xs: seq<real>, q: State)
    requires p.Valid() && Cells(p, order) && |order| == |xs| > 0
    requires xs[|order| - 1] == q.leftEdge + 0.5 * p.widths[order[|order| - 1]]
    requires q.cost == Sum(Widths(q.boxes))
    requires q.boxes == Boxes(p, order[..|order| - 1], xs[..|order| - 1])
    ensures AddCell(p, q, order[|order| - 1]).boxes == Boxes(p, order, xs)
  {
    hide AddPins, Extend, PinCoords, BoxOf;
    var n := |order| - 1;
    AddCellMeaning(p, q, order[n]);
    var r := AddCell(p, q, order[n]).boxes;
    forall e: nat | e < |p.netBoxes|
      ensures r[e] == BoxOf(p, order, xs, e)
    {
      BoxStep(p, order, xs, e);
    }
  }

  lemma {:induction false} BoxStep(p: Problem, order: seq<nat>, xs: seq<real>, e: nat)
    requires p.Valid() && Cells(p, order) && |xs| == |order| > 0 && e < |p.netBoxes|
    ensures var n := |order| - 1;
      BoxOf(p, order, xs, e) == Extend(BoxOf(p, order[..n], xs[..n], e), PinCoords(p.adj[order[n]], xs[n], e))
  {
    var n := |order| - 1;
    ExtendConcat(p.netBoxes[e], Coords(p, order[..n], xs[..n], e), PinCoords(p.adj[order[n]], xs[n], e));
  }

  lemma {:induction false} LeftOfNext(p: Problem, order: seq<nat>, k: nat)
    requires Cells(p, order) && k < |order|
    ensures LeftOf(p, order, k + 1) == LeftOf(p, order, k) + p.widths[order[k]]
  {
    var w := WidthsOf(p, order[..k + 1]);
    assert w[..k] == WidthsOf(p, order[..k]);
    assert w[..k + 1] == w;
    SumPrefix(w, k);
  }

  /** Packing a prefix gives the prefix of the packing. */
  lemma {:induction false} PackedPrefix(p: Problem, order: seq<nat>, n: nat)
    requires Cells(p, order) && n <= |order|
    ensures Centres(p, order[..n]) == Centres(p, order)[..n]
    ensures LeftOf(p, order[..n], n) == LeftOf(p, order, n)
  {
    forall k | 0 <= k < n
      ensures Centres(p, order[..n])[k] == Centres(p, order)[k]
    {
      assert order[..n][..k] == order[..k];
    }
    assert order[..n][..n] == order[..n];
  }

  // ----- order independence: a box depends only on which coordinates it was given

  ghost predicate Ordered(b: Interval) {
    b.Span? ==> b.lo <= b.hi
  }

  /** A stretched box runs from the least to the greatest of its start and its coordinates. */
  lemma {:induction false} ExtendRange(start: Interval, xs: seq<real>)
    requires Ordered(start)
    ensures var r := Extend(start, xs);
      && Ordered(r) && (r.Span? <==> start.Span? || xs != [])
      && (forall x :: x in xs ==> r.Contains(x))
      && (start.Span? ==> r.Contains(start.lo) && r.Contains(start.hi))
      && (r.Span? ==> (r.lo in xs || (start.Span? && r.lo == start.lo)))
      && (r.Span? ==> (r.hi in xs || (start.Span? && r.hi == start.hi)))
  {
    if xs != [] {
      var n := |xs| - 1;
      ExtendRange(start, xs[..n]);
      assert xs == xs[..n] + [xs[n]];
      assert forall x :: x in xs ==> x in xs[..n] || x == xs[n];
    }
  }

  lemma {:induction false} NotEmpty(xs: seq<real>, ys: seq<real>)
    requires forall v :: v in xs <==> v in ys
    ensures xs == [] <==> ys == []
  {
    if xs != [] {
      var v := xs[0];
      assert v in xs;
      assert v in ys;
    }
    if ys != [] {
      var v := ys[0];
      assert v in ys;
      assert v in xs;
    }
  }

  lemma {:induction false} ExtendSameMembers(start: Interval, xs: seq<real>, ys: seq<real>)
    requires Ordered(start) && forall v :: v in xs <==> v in ys
    ensures Extend(start, xs) == Extend(start, ys)
  {
    ExtendRange(start, xs);
    ExtendRange(start, ys);
    var r, q := Extend(start, xs), Extend(start, ys);
    NotEmpty(xs, ys);
    if r.Span? {
      assert r.lo in xs ==> r.lo in ys;
      assert q.lo in ys ==> q.lo in xs;
      assert r.hi in xs ==> r.hi in ys;
      assert q.hi in ys ==> q.hi in xs;
    }
  }

  /** Some pin of the k-th listed cell puts coordinate `v` on net `e`. */
  ghost predicate Reaches(p: Problem, order: seq<nat>, xs: seq<real>, e: nat, v: real, k: nat)
    requires p.Valid() && Cells(p, order) && |order| == |xs| && k < |order|
  {
    exists m :: 0 <= m < |p.adj[order[k]]| && PinHits(p.adj[order[k]][m], xs[k], e, v)
  }

  lemma {:induction false} PinCoordsMembers(ps: seq<PinOn>, x: real, e: nat, v: real)
    ensures v in PinCoords(ps, x, e) <==> exists m :: 0 <= m < |ps| && PinHits(ps[m], x, e, v)
  {
    if ps != [] {
      var n := |ps| - 1;
      PinCoordsMembers(ps[..n], x, e, v);
      assert forall m :: 0 <= m < n ==> ps[..n][m] == ps[m];
    }
  }

  ghost predicate PinHits(pin: PinOn, x: real, e: nat, v: real) {
    pin.edge == e && v == x + pin.offset
  }

  lemma {:induction false} CoordsMembers(p: Problem, order: seq<nat>, xs: seq<real>, e: nat, v: real)
    requires p.Valid() && Cells(p, order) && |order| == |xs|
    ensures v in Coords(p, order, xs, e) <==> exists k :: 0 <= k < |order| && Reaches(p, order, xs, e, v, k)
  {
    if order != [] {
      var n := |order| - 1;
      CoordsMembers(p, order[..n], xs[..n], e, v);
      PinCoordsMembers(p.adj[order[n]], xs[n], e, v);
      forall k | 0 <= k < n
        ensures Reaches(p, order, xs, e, v, k) <==> Reaches(p, order[..n], xs[..n], e, v, k)
      {
      }
      assert v in PinCoords(p.adj[order[n]], xs[n], e) <==> Reaches(p, order, xs, e, v, n);
      if v in Coords(p, order[..n], xs[..n], e) {
        var k :| 0 <= k < n && Reaches(p, order[..n], xs[..n], e, v, k);
        assert Reaches(p, order, xs, e, v, k);
      }
    }
  }

  /** `x` gives every cell's centre by cell number; a listing visits every cell exactly once. */
  ghost predicate Lists(p: Problem, order: seq<nat>) {
    && Cells(p, order)
    && (forall i :: 0 <= i < |p.widths| ==> i in order)
    && (forall j, k :: 0 <= j < k < |order| ==> order[j] != order[k])
  }

  ghost function Along(order: seq<nat>, x: seq<real>): (s: seq<real>)
    requires forall k :: 0 <= k < |order| ==> order[k] < |x|
    ensures |s| == |order|
  {
    seq(|order|, k requires 0 <= k < |order| => x[order[k]])
  }

  /** The cost of a set of centres does not depend on the order the cells are listed in. */
  lemma {:induction false} CostIgnoresOrder(p: Problem, o1: seq<nat>, o2: seq<nat>, x: seq<real>)
    requires p.Valid() && Lists(p, o1) && Lists(p, o2) && |x| == |p.widths|
    requires forall e :: 0 <= e < |p.netBoxes| ==> Ordered(p.netBoxes[e])
    ensures CostOf(p, o1, Along(o1, x)) == CostOf(p, o2, Along(o2, x))
  {
    forall e: nat | e < |p.netBoxes|
      ensures BoxOf(p, o1, Along(o1, x), e) == BoxOf(p, o2, Along(o2, x), e)
    {
      forall v
        ensures v in Coords(p, o1, Along(o1, x), e) <==> v in Coords(p, o2, Along(o2, x), e)
      {
        SameCoords(p, o1, o2, x, e, v);
        SameCoords(p, o2, o1, x, e, v);
      }
      ExtendSameMembers(p.netBoxes[e], Coords(p, o1, Along(o1, x), e), Coords(p, o2, Along(o2, x), e));
    }
    assert Boxes(p, o1, Along(o1, x)) == Boxes(p, o2, Along(o2, x));
  }

  lemma {:induction false} SameCoords(p: Problem, o1: seq<nat>, o2: seq<nat>, x: seq<real>, e: nat, v: real)
    requires p.Valid() && Lists(p, o1) && Lists(p, o2) && |x| == |p.widths|
    ensures v in Coords(p, o1, Along(o1, x), e) ==> v in Coords(p, o2, Along(o2, x), e)
  {
    CoordsMembers(p, o1, Along(o1, x), e, v);
    CoordsMembers(p, o2, Along(o2, x), e, v);
    if v in Coords(p, o1, Along(o1, x), e) {
      var k :| 0 <= k < |o1| && Reaches(p, o1, Along(o1, x), e, v, k);
      assert o1[k] in o2;
      var j :| 0 <= j < |o2| && o2[j] == o1[k];
      assert Reaches(p, o2, Along(o2, x), e, v, j);
    }
  }
}
