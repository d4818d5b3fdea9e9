/** The region of a cell's best positions (detailed_global.cxx): the median box of the nets the cell is on. */
module OptimalRegion {
  import opened RealMath
  import opened Intervals
  import opened Netlist
  import opened IndependentSet
  import opened Median
  import opened Permutations

  datatype Rectangle = Rectangle(xmin: real, xmax: real, ymin: real, ymax: real) {
    predicate Has(p: Point) {
      xmin <= p.x <= xmax && ymin <= p.y <= ymax
    }
  }

  datatype Box = Box(x: Interval, y: Interval)

  /** The box of a net's pins that are not on node n, and whether there are any. */
  ghost function OthersBox(net: Network, pos: Placement, e: nat, n: nat, k: nat): (b: Box)
    requires net.Fits(pos) && e < |net.edgePins| && k <= |net.edgePins[e]|
    ensures b.x.Empty? <==> b.y.Empty?
    ensures b.x.Span? ==> b.x.lo <= b.x.hi && b.y.lo <= b.y.hi
  {
    if k == 0 then Box(Empty, Empty)
    else
      var before, p := OthersBox(net, pos, e, n, k - 1), net.edgePins[e][k - 1];
      if net.pins[p].node == n then before
      else Box(before.x.Add(net.XOf(pos, p)), before.y.Add(net.YOf(pos, p)))
  }

  /** Box of the net without the node. */
  ghost function Others(net: Network, pos: Placement, e: nat, n: nat): (b: Box)
    requires net.Fits(pos) && e < |net.edgePins|
    ensures b.x.Empty? <==> b.y.Empty?
    ensures b.x.Span? ==> b.x.lo <= b.x.hi && b.y.lo <= b.y.hi
  {
    OthersBox(net, pos, e, n, |net.edgePins[e]|)
  }

  /** Where the node is does not matter to the box of the others. */
  lemma {:induction false} OthersIgnoreNode(net: Network, pos: Placement, e: nat, n: nat, at: Point, k: nat)
    requires net.Fits(pos) && e < |net.edgePins| && k <= |net.edgePins[e]| && n < |pos|
    ensures OthersBox(net, pos[n := at], e, n, k) == OthersBox(net, pos, e, n, k)
  {
    if k > 0 {
      OthersIgnoreNode(net, pos, e, n, at, k - 1);
    }
  }

  /** The net's hull is the others' box stretched to the node's one pin. */
  lemma {:induction false} HullOfNet(net: Network, pos: Placement, n: nat, j: nat, k: nat)
    requires net.Fits(pos) && n < |pos| && OnePinPerNet(net, n) && j < |net.nodePins[n]|
    requires k <= |net.edgePins[net.pins[net.nodePins[n][j]].edge]|
    ensures var q := net.nodePins[n][j]; var e := net.pins[q].edge; var b := OthersBox(net, pos, e, n, k);
      && Stretched(Hull(net.Xs(pos, e)[..k]), b.x, net.XOf(pos, q), q in net.edgePins[e][..k])
      && Stretched(Hull(net.Ys(pos, e)[..k]), b.y, net.YOf(pos, q), q in net.edgePins[e][..k])
  {
    hide Interval.Add, Stretched, Hull;
    var q := net.nodePins[n][j];
    var e := net.pins[q].edge;
    if k > 0 {
      HullOfNet(net, pos, n, j, k - 1);
      HullNext(net.Xs(pos, e), k - 1);
      HullNext(net.Ys(pos, e), k - 1);
      var p := net.edgePins[e][k - 1];
      assert net.edgePins[e][..k] == net.edgePins[e][..k - 1] + [p];
      if net.pins[p].node == n {
        OnlyPin(net, n, j, p);
      }
      var before, own, seen := OthersBox(net, pos, e, n, k - 1), p == q, q in net.edgePins[e][..k - 1];
      StretchMore(Hull(net.Xs(pos, e)[..k - 1]), before.x, net.XOf(pos, q), net.XOf(pos, p), own, seen);
      StretchMore(Hull(net.Ys(pos, e)[..k - 1]), before.y, net.YOf(pos, q), net.YOf(pos, p), own, seen);
    } else {
      assert net.Xs(pos, e)[..0] == [] && net.Ys(pos, e)[..0] == [];
      StretchNone(net.XOf(pos, q));
      StretchNone(net.YOf(pos, q));
    }
  }

  lemma HullNext(xs: seq<real>, k: nat)
    requires k < |xs|
    ensures Hull(xs[..k + 1]) == Hull(xs[..k]).Add(xs[k])
  {
    ExtendPrefix(Empty, xs, k);
  }

  lemma StretchNone(x: real)
    ensures Stretched(Hull([]), Empty, x, false)
  {
  }

  /** A hull is a box, or the box stretched to x; it is stretched when `seen`. */
  ghost predicate Stretched(hull: Interval, box: Interval, x: real, seen: bool) {
    hull == box.Add(x) || (!seen && hull == box)
  }

  lemma StretchMore(hull: Interval, box: Interval, x: real, v: real, own: bool, seen: bool)
    requires Stretched(hull, box, x, seen) && (own ==> v == x)
    ensures Stretched(hull.Add(v), if own then box else box.Add(v), x, own || seen)
  {
    AddTwice(box, x, v);
  }

  lemma AddTwice(b: Interval, x: real, y: real)
    ensures b.Add(x).Add(y) == b.Add(y).Add(x) && b.Add(x).Add(x) == b.Add(x)
  {
  }

  lemma OnlyPin(net: Network, n: nat, j: nat, p: nat)
    requires net.Valid() && n < |net.nodePins| && OnePinPerNet(net, n) && j < |net.nodePins[n]|
    requires p < |net.pins| && net.pins[p].node == n && net.pins[p].edge == net.pins[net.nodePins[n][j]].edge
    ensures p == net.nodePins[n][j]
  {
    assert p in net.nodePins[n];
    var i :| 0 <= i < |net.nodePins[n]| && net.nodePins[n][i] == p;
    assert i == j;
  }

  /** The length of a net, by where the node is: the others' box and the distance to it. */
  ghost function LengthAt(b: Box, pin: Pin, at: Point): real {
    if b.x.Empty? || b.y.Empty? then 0.0
    else b.x.Width() + Gap(at.x, b.x.lo - pin.dx, b.x.hi - pin.dx) + b.y.Width() + Gap(at.y, b.y.lo - pin.dy, b.y.hi - pin.dy)
  }

  lemma {:induction false} LengthByGap(net: Network, pos: Placement, n: nat, j: nat, at: Point)
    requires net.Fits(pos) && n < |pos| && OnePinPerNet(net, n) && j < |net.nodePins[n]|
    ensures var pin := net.pins[net.nodePins[n][j]];
      net.HalfPerimeter(pos[n := at], pin.edge) == LengthAt(Others(net, pos, pin.edge, n), pin, at)
  {
    var pos', q := pos[n := at], net.nodePins[n][j];
    var e := net.pins[q].edge;
    var m := |net.edgePins[e]|;
    OthersIgnoreNode(net, pos, e, n, at, m);
    HullOfNet(net, pos', n, j, m);
    assert net.Xs(pos', e)[..m] == net.Xs(pos', e) && net.Ys(pos', e)[..m] == net.Ys(pos', e);
    assert net.edgePins[e][..m] == net.edgePins[e];
  }

  /** What the cell's pins cost if each were its net's only pin of the cell: the range is best for this sum. */
  ghost function PinsAlone(net: Network, pos: Placement, n: nat, at: Point): (s: seq<real>)
    requires net.Fits(pos) && n < |pos|
    ensures |s| == |net.nodePins[n]|
  {
    seq(|net.nodePins[n]|, k requires 0 <= k < |net.nodePins[n]| =>
      var pin := net.pins[net.nodePins[n][k]];
      if net.Counted(pin.edge, MATCH_LIMIT) then LengthAt(Others(net, pos, pin.edge, n), pin, at) else 0.0)
  }

  ghost function PinCost(net: Network, pos: Placement, n: nat, at: Point): real
    requires net.Fits(pos) && n < |pos|
  {
    Sum(PinsAlone(net, pos, n, at))
  }

  /** For a cell with one pin on each of its nets that is the wirelength. */
  lemma {:induction false} AloneIsCost(net: Network, pos: Placement, n: nat, at: Point)
    requires net.Fits(pos) && n < |pos| && OnePinPerNet(net, n)
    ensures PinCost(net, pos, n, at) == NodeCost(net, pos, n, at)
  {
    forall k | 0 <= k < |net.nodePins[n]|
      ensures PinsAlone(net, pos, n, at)[k] == PinLengths(net, pos[n := at], n)[k]
    {
      LengthByGap(net, pos, n, k, at);
    }
    assert PinsAlone(net, pos, n, at) == PinLengths(net, pos[n := at], n);
  }

  // ----- the points whose median is taken

  datatype Chip = Chip(minX: real, maxX: real, minY: real, maxY: real) {
    ghost predicate Valid() {
      minX <= maxX && minY <= maxY
    }

    predicate Has(p: Point) {
      minX <= p.x <= maxX && minY <= p.y <= maxY
    }

    /** A pin's box, moved to the cell's centre and pulled into the chip. */
    function Pulled(b: Box, pin: Pin): Rectangle
      requires b.x.Span? && b.y.Span?
    {
      Rectangle(ClampLow(minX, maxX, b.x.lo - pin.dx), ClampHigh(minX, maxX, b.x.hi - pin.dx),
                ClampLow(minY, maxY, b.y.lo - pin.dy), ClampHigh(minY, maxY, b.y.hi - pin.dy))
    }
  }

  /** The ends of the pulled boxes of the first k pins of a node. */
  ghost function Points(chip: Chip, net: Network, pos: Placement, n: nat, k: nat): (ps: (seq<real>, seq<real>))
    requires net.Fits(pos) && n < |pos| && k <= |net.nodePins[n]|
    ensures |ps.0| == |ps.1| && |ps.0| % 2 == 0
  {
    if k == 0 then ([], [])
    else
      var before, pin := Points(chip, net, pos, n, k - 1), net.pins[net.nodePins[n][k - 1]];
      var b := Others(net, pos, pin.edge, n);
      if !net.Counted(pin.edge, MATCH_LIMIT) || b.x.Empty? then before
      else
        var r := chip.Pulled(b, pin);
        (before.0 + [r.xmin, r.xmax], before.1 + [r.ymin, r.ymax])
  }

  /** Inside the chip, the cost of the cell's pins is, up to a constant, half the distances to the points. */
  lemma {:induction false} CostByPoints(chip: Chip, net: Network, pos: Placement, n: nat, k: nat, p: Point, q: Point)
    requires chip.Valid() && chip.Has(p) && chip.Has(q)
    requires net.Fits(pos) && n < |pos| && k <= |net.nodePins[n]|
    ensures var ps := Points(chip, net, pos, n, k);
      2.0 * (Sum(PinsAlone(net, pos, n, p)[..k]) - Sum(PinsAlone(net, pos, n, q)[..k]))
      == Away(p.x, ps.0) - Away(q.x, ps.0) + Away(p.y, ps.1) - Away(q.y, ps.1)
  {
    hide PinsAlone, Away;
    if k == 0 {
      AwayNone(p.x);
      AwayNone(q.x);
      AwayNone(p.y);
      AwayNone(q.y);
    } else {
      CostByPoints(chip, net, pos, n, k - 1, p, q);
      SumPrefix(PinsAlone(net, pos, n, p), k - 1);
      SumPrefix(PinsAlone(net, pos, n, q), k - 1);
      OnePinCost(chip, net, pos, n, k - 1, p, q);
    }
  }

  lemma {:induction false} OnePinCost(chip: Chip, net: Network, pos: Placement, n: nat, k: nat, p: Point, q: Point)
    requires chip.Valid() && chip.Has(p) && chip.Has(q)
    requires net.Fits(pos) && n < |pos| && k < |net.nodePins[n]|
    ensures var ps, qs := Points(chip, net, pos, n, k), Points(chip, net, pos, n, k + 1);
      2.0 * (PinsAlone(net, pos, n, p)[k] - PinsAlone(net, pos, n, q)[k])
      == (Away(p.x, qs.0) - Away(p.x, ps.0)) - (Away(q.x, qs.0) - Away(q.x, ps.0))
         + (Away(p.y, qs.1) - Away(p.y, ps.1)) - (Away(q.y, qs.1) - Away(q.y, ps.1))
  {
    hide Gap, ClampLow, ClampHigh, Abs, Away, OthersBox;
    var pin := net.pins[net.nodePins[n][k]];
    var b, ps := Others(net, pos, pin.edge, n), Points(chip, net, pos, n, k);
    if net.Counted(pin.edge, MATCH_LIMIT) {
      if b.x.Span? {
        var r := chip.Pulled(b, pin);
        GapByEnds(chip.minX, chip.maxX, b.x.lo - pin.dx, b.x.hi - pin.dx, p.x, q.x);
        GapByEnds(chip.minY, chip.maxY, b.y.lo - pin.dy, b.y.hi - pin.dy, p.y, q.y);
        AwayTwo(p.x, ps.0, r.xmin, r.xmax);
        AwayTwo(q.x, ps.0, r.xmin, r.xmax);
        AwayTwo(p.y, ps.1, r.ymin, r.ymax);
        AwayTwo(q.y, ps.1, r.ymin, r.ymax);
      }
    }
  }

  lemma AwayNone(x: real)
    ensures Away(x, []) == 0.0
  {
  }

  lemma AwayTwo(x: real, s: seq<real>, a: real, b: real)
    ensures Away(x, s + [a, b]) == Away(x, s) + (Abs(x - a) + Abs(x - b))
  {
    assert s + [a, b] == (s + [a]) + [b];
    AwaySnoc(x, s, a);
    AwaySnoc(x, s + [a], b);
  }

  ghost predicate Within(s: seq<real>, lo: real, hi: real) {
    forall i :: 0 <= i < |s| ==> lo <= s[i] <= hi
  }

  lemma WithinTwo(s: seq<real>, lo: real, hi: real, a: real, b: real)
    requires Within(s, lo, hi) && lo <= a <= hi && lo <= b <= hi
    ensures Within(s + [a, b], lo, hi)
  {
    forall i | 0 <= i < |s| + 2
      ensures lo <= (s + [a, b])[i] <= hi
    {
      assert (s + [a, b])[i] == if i < |s| then s[i] else if i == |s| then a else b;
    }
  }

  /** All points are in the chip. */
  lemma {:induction false} PointsInChip(chip: Chip, net: Network, pos: Placement, n: nat, k: nat)
    requires chip.Valid() && net.Fits(pos) && n < |pos| && k <= |net.nodePins[n]|
    ensures Within(Points(chip, net, pos, n, k).0, chip.minX, chip.maxX)
    ensures Within(Points(chip, net, pos, n, k).1, chip.minY, chip.maxY)
  {
    if k > 0 {
      hide Within, ClampLow, ClampHigh;
      PointsInChip(chip, net, pos, n, k - 1);
      var pin, before := net.pins[net.nodePins[n][k - 1]], Points(chip, net, pos, n, k - 1);
      var b := Others(net, pos, pin.edge, n);
      if b.x.Span? {
        GapByEnds(chip.minX, chip.maxX, b.x.lo - pin.dx, b.x.hi - pin.dx, chip.minX, chip.minX);
        GapByEnds(chip.minY, chip.maxY, b.y.lo - pin.dy, b.y.hi - pin.dy, chip.minY, chip.minY);
        var r := chip.Pulled(b, pin);
        WithinTwo(before.0, chip.minX, chip.maxX, r.xmin, r.xmax);
        WithinTwo(before.1, chip.minY, chip.maxY, r.ymin, r.ymax);
      }
    }
  }

  /** The point lies between the middle two of the sorted points, in x and in y. */
  ghost predicate InMiddle(chip: Chip, net: Network, pos: Placement, n: nat, xs: seq<real>, ys: seq<real>, m: nat, p: Point)
    requires net.Fits(pos) && n < |pos|
  {
    var ps := Points(chip, net, pos, n, |net.nodePins[n]|);
    && multiset(xs) == multiset(ps.0) && multiset(ys) == multiset(ps.1) && |xs| == |ys| == 2 * m
    && m >= 1 && Sorted(xs) && Sorted(ys) && xs[m - 1] <= p.x <= xs[m] && ys[m - 1] <= p.y <= ys[m]
  }

  /** Such a point is in the chip, and costs the cell's pins least of all the chip. */
  lemma {:induction false} MedianIsOptimal(chip: Chip, net: Network, pos: Placement, n: nat, xs: seq<real>, ys: seq<real>, m: nat, p: Point, q: Point)
    requires chip.Valid() && chip.Has(q) && net.Fits(pos) && n < |pos| && InMiddle(chip, net, pos, n, xs, ys, m, p)
    ensures chip.Has(p) && PinCost(net, pos, n, p) <= PinCost(net, pos, n, q)
  {
    var k := |net.nodePins[n]|;
    var ps := Points(chip, net, pos, n, k);
    PointsInChip(chip, net, pos, n, k);
    assert xs[m - 1] in multiset(ps.0) && xs[m] in multiset(ps.0);
    assert ys[m - 1] in multiset(ps.1) && ys[m] in multiset(ps.1);
    CostByPoints(chip, net, pos, n, k, p, q);
    assert PinsAlone(net, pos, n, p)[..k] == PinsAlone(net, pos, n, p);
    assert PinsAlone(net, pos, n, q)[..k] == PinsAlone(net, pos, n, q);
    AwayPermutation(p.x, xs, ps.0);
    AwayPermutation(q.x, xs, ps.0);
    AwayPermutation(p.y, ys, ps.1);
    AwayPermutation(q.y, ys, ps.1);
    MiddleIsBest(xs, m, p.x, q.x);
    MiddleIsBest(ys, m, p.y, q.y);
  }

  // ----- when that is least wirelength

  /** With one pin of the cell on a net, no place in the chip gives less wirelength than one in the middle. */
  lemma {:induction false} MiddleIsShortest(chip: Chip, net: Network, pos: Placement, n: nat, xs: seq<real>, ys: seq<real>, m: nat, p: Point, q: Point)
    requires net.Fits(pos) && n < |pos| && OnePinPerNet(net, n)
    requires chip.Valid() && chip.Has(q) && InMiddle(chip, net, pos, n, xs, ys, m, p)
    ensures net.Hpwl(pos[n := p], MATCH_LIMIT) <= net.Hpwl(pos[n := q], MATCH_LIMIT)
  {
    hide InMiddle, NodeCost, PinCost, Network.Valid, Network.Hpwl, OnePinPerNet;
    AloneIsCost(net, pos, n, p);
    AloneIsCost(net, pos, n, q);
    OneMove(net, pos, n, p);
    OneMove(net, pos, n, q);
    MedianIsOptimal(chip, net, pos, n, xs, ys, m, p, q);
  }

  /** For a cell with at most k pins on a net, a point of the range gives more wirelength than another of the chip. */
  ghost predicate Misses(k: nat, chip: Chip, net: Network, pos: Placement, n: nat, xs: seq<real>, ys: seq<real>, m: nat, p: Point, q: Point) {
    && net.Valid() && n < |net.nodePins| && AtMostPerNet(net, n, k)
    && chip.Valid() && chip.Has(q) && net.Fits(pos) && n < |pos| && InMiddle(chip, net, pos, n, xs, ys, m, p)
    && net.Hpwl(pos[n := p], MATCH_LIMIT) > net.Hpwl(pos[n := q], MATCH_LIMIT)
  }

  /** The range always gives the least wirelength for cells with at most k pins on a net if and only if k is at most
      one. */
  lemma {:induction false} RangeIsBestIff(k: nat)
    ensures (forall chip, net, pos, n: nat, xs, ys, m: nat, p, q :: !Misses(k, chip, net, pos, n, xs, ys, m, p, q)) <==> k <= 1
  {
    if k <= 1 {
      forall chip, net: Network, pos, n: nat, xs, ys, m: nat, p, q
        ensures !Misses(k, chip, net, pos, n, xs, ys, m, p, q)
      {
        if net.Fits(pos) && n < |pos| && AtMostPerNet(net, n, k) && chip.Valid() && chip.Has(q) && InMiddle(chip, net, pos, n, xs, ys, m, p) {
          AtMostOne(net, n, k);
          MiddleIsShortest(chip, net, pos, n, xs, ys, m, p, q);
        }
      }
    } else {
      TwoPinsMiss(k);
      assert Misses(k, LINE, TwoPins(), OnLine(), 0, SORTED, NONE, 4, Point(0.0, 0.0), Point(100.0, 0.0));
    }
  }

  // ----- a cell on a line from 0 to 100, with two pins on a net to 0 and one pin each on two nets to 100

  const LINE: Chip := Chip(0.0, 100.0, 0.0, 0.0)
  const SORTED: seq<real> := [0.0, 0.0, 0.0, 0.0, 100.0, 100.0, 100.0, 100.0]
  const NONE: seq<real> := [0.0, 0.0, 0.0, 0.0, 0.0, 0.0, 0.0, 0.0]

  function TwoPins(): Network {
    Network(
      [Pin(0, 0, 0.0, 0.0), Pin(0, 0, 0.0, 1.0), Pin(1, 0, 0.0, 0.0), Pin(0, 1, 0.0, 0.0), Pin(2, 1, 0.0, 0.0),
       Pin(0, 2, 0.0, 0.0), Pin(3, 2, 0.0, 0.0)],
      [[0, 1, 3, 5], [2], [4], [6]],
      [[0, 1, 2], [3, 4], [5, 6]])
  }

  function OnLine(): Placement {
    [Point(0.0, 0.0), Point(0.0, 0.0), Point(100.0, 0.0), Point(100.0, 0.0)]
  }

  /** The two pins pull to 0 as hard as the other two nets pull to 100, so all of the line is in the range; but at 0
      two nets are long and at 100 one. */
  lemma {:induction false} TwoPinsMiss(k: nat)
    requires k >= 2
    ensures Misses(k, LINE, TwoPins(), OnLine(), 0, SORTED, NONE, 4, Point(0.0, 0.0), Point(100.0, 0.0))
  {
    TwoPinsMany(k);
    hide Network.Valid, Network.Hpwl, AtMostPerNet, InMiddle, TwoPins, OnLine;
    TwoPinsMiddle();
    TwoPinsHpwl(0.0);
    TwoPinsHpwl(100.0);
  }

  lemma TwoPinsMany(k: nat)
    requires k >= 2
    ensures TwoPins().Fits(OnLine()) && |OnLine()| == 4 && |TwoPins().nodePins[0]| == 4 && AtMostPerNet(TwoPins(), 0, k)
  {
    TwoPinsFit();
    forall e: nat
      ensures |OnNet(TwoPins(), 0, e)| <= k
    {
      SubsetSize(OnNet(TwoPins(), 0, e), if e == 0 then {0, 1} else {e + 1});
    }
  }

  lemma TwoPinsFit()
    ensures TwoPins().Fits(OnLine())
  {
    var net := TwoPins();
    assert net.nodePins[0][0] == 0 && net.nodePins[0][1] == 1 && net.nodePins[0][2] == 3 && net.nodePins[0][3] == 5;
    assert net.nodePins[1][0] == 2 && net.nodePins[2][0] == 4 && net.nodePins[3][0] == 6;
    assert net.edgePins[0][0] == 0 && net.edgePins[0][1] == 1 && net.edgePins[0][2] == 2;
    assert net.edgePins[1][0] == 3 && net.edgePins[1][1] == 4 && net.edgePins[2][0] == 5 && net.edgePins[2][1] == 6;
  }

  lemma TwoPinsMiddle()
    requires TwoPins().Fits(OnLine()) && |OnLine()| == 4 && |TwoPins().nodePins[0]| == 4
    ensures InMiddle(LINE, TwoPins(), OnLine(), 0, SORTED, NONE, 4, Point(0.0, 0.0))
  {
    hide Network.Valid, Points, Sorted, TwoPins, OnLine, InMiddle;
    TwoPinsPoints();
    Neighbours(SORTED);
    Neighbours(NONE);
    AlreadySorted(LINE, TwoPins(), OnLine(), 0, SORTED, NONE, 4, Point(0.0, 0.0));
  }

  lemma AlreadySorted(chip: Chip, net: Network, pos: Placement, n: nat, xs: seq<real>, ys: seq<real>, m: nat, p: Point)
    requires net.Fits(pos) && n < |pos| && Points(chip, net, pos, n, |net.nodePins[n]|) == (xs, ys)
    requires |xs| == |ys| == 2 * m && m >= 1 && Sorted(xs) && Sorted(ys)
    requires xs[m - 1] <= p.x <= xs[m] && ys[m - 1] <= p.y <= ys[m]
    ensures InMiddle(chip, net, pos, n, xs, ys, m, p)
  {
  }

  lemma {:induction false} Neighbours(s: seq<real>)
    requires forall i :: 0 < i < |s| ==> s[i - 1] <= s[i]
    ensures Sorted(s)
  {
    forall i, j | 0 <= i < j < |s|
      ensures s[i] <= s[j]
    {
      for k := i + 1 to j
        invariant s[i] <= s[k]
      {
      }
    }
  }

  lemma TwoPinsPoints()
    requires TwoPins().Fits(OnLine())
    ensures Points(LINE, TwoPins(), OnLine(), 0, 4) == (SORTED, NONE)
  {
    hide Network.Valid, Points;
    TwoPinsXs();
    PointsInChip(LINE, TwoPins(), OnLine(), 0, 4);
    var ys := Points(LINE, TwoPins(), OnLine(), 0, 4).1;
    assert |ys| == 8 && forall i :: 0 <= i < 8 ==> ys[i] == 0.0;
    assert ys == NONE;
  }

  lemma TwoPinsXs()
    requires TwoPins().Fits(OnLine())
    ensures Points(LINE, TwoPins(), OnLine(), 0, 4).0 == SORTED
  {
    TwoPinsOthers();
    hide Network.Valid, Others;
    var net, pos := TwoPins(), OnLine();
    assert Points(LINE, net, pos, 0, 1).0 == [0.0, 0.0];
    assert Points(LINE, net, pos, 0, 2).0 == [0.0, 0.0, 0.0, 0.0];
    assert Points(LINE, net, pos, 0, 3).0 == [0.0, 0.0, 0.0, 0.0, 100.0, 100.0];
  }

  lemma TwoPinsOthers()
    requires TwoPins().Fits(OnLine())
    ensures Others(TwoPins(), OnLine(), 0, 0) == Box(Span(0.0, 0.0), Span(0.0, 0.0))
    ensures forall e :: 1 <= e <= 2 ==> Others(TwoPins(), OnLine(), e, 0) == Box(Span(100.0, 100.0), Span(0.0, 0.0))
  {
    hide Network.Valid;
    var net, pos := TwoPins(), OnLine();
    assert OthersBox(net, pos, 0, 0, 1) == Box(Empty, Empty) && OthersBox(net, pos, 0, 0, 2) == Box(Empty, Empty);
    assert OthersBox(net, pos, 1, 0, 1) == Box(Empty, Empty) && OthersBox(net, pos, 2, 0, 1) == Box(Empty, Empty);
  }

  lemma {:induction false} TwoPinsHpwl(x: real)
    requires 0.0 <= x <= 100.0 && TwoPins().Fits(OnLine()) && |OnLine()| == 4
    ensures TwoPins().Hpwl(OnLine()[0 := Point(x, 0.0)], MATCH_LIMIT) == x + 1.0 + 2.0 * (100.0 - x)
  {
    hide Network.Valid, Network.HalfPerimeter;
    TwoPinsLengths(x);
    SumOfThree(TwoPins().Lengths(OnLine()[0 := Point(x, 0.0)], MATCH_LIMIT));
  }

  lemma TwoPinsLengths(x: real)
    requires 0.0 <= x <= 100.0 && TwoPins().Fits(OnLine()) && |OnLine()| == 4
    ensures var net, pos := TwoPins(), OnLine()[0 := Point(x, 0.0)];
      net.HalfPerimeter(pos, 0) == x + 1.0 && net.HalfPerimeter(pos, 1) == net.HalfPerimeter(pos, 2) == 100.0 - x
  {
    hide Network.Valid, Network.Xs, Network.Ys, Hull, TwoPins, OnLine;
    TwoPinsCoordinates(x);
    OnLineHulls(x);
  }

  lemma TwoPinsCoordinates(x: real)
    requires TwoPins().Fits(OnLine()) && |OnLine()| == 4
    ensures var net, pos := TwoPins(), OnLine()[0 := Point(x, 0.0)];
      && net.Fits(pos) && |net.edgePins| == 3
      && net.Xs(pos, 0) == [x, x, 0.0] && net.Ys(pos, 0) == [0.0, 1.0, 0.0]
      && net.Xs(pos, 1) == [x, 100.0] && net.Ys(pos, 1) == [0.0, 0.0]
      && net.Xs(pos, 2) == [x, 100.0] && net.Ys(pos, 2) == [0.0, 0.0]
  {
    hide Network.Valid;
  }

  lemma OnLineHulls(x: real)
    requires 0.0 <= x <= 100.0
    ensures Hull([x, x, 0.0]).Width() == x && Hull([0.0, 1.0, 0.0]).Width() == 1.0
    ensures Hull([x, 100.0]).Width() == 100.0 - x && Hull([0.0, 0.0]).Width() == 0.0
  {
    HullUnique([x, x, 0.0], 0.0, x);
    HullUnique([0.0, 1.0, 0.0], 0.0, 1.0);
    HullUnique([x, 100.0], x, 100.0);
    HullUnique([0.0, 0.0], 0.0, 0.0);
  }

  class GlobalSwap {
    const chip: Chip
    const net: Network
    var pos: Placement
    var xpts: seq<real>
    var ypts: seq<real>

    constructor (chip: Chip, net: Network, pos: Placement)
      ensures this.chip == chip && this.net == net && this.pos == pos
    {
      this.chip, this.net, this.pos, xpts, ypts := chip, net, pos, [], [];
    }

    /** The bounding box of a net without one node; fails when there is nobody else on the net. */
    method CalculateEdgeBB(e: nat, nd: nat) returns (ok: bool, bbox: Box)
      requires net.Fits(pos) && e < |net.edgePins|
      ensures bbox == Others(net, pos, e, nd) && (ok <==> bbox.x.Span?)
    {
      bbox := Box(Empty, Empty);
      var count := 0;
      for pe := 0 to |net.edgePins[e]|
        invariant bbox == OthersBox(net, pos, e, nd, pe) && count >= 0 && (count == 0 <==> bbox.x.Empty?)
      {
        var pin := net.edgePins[e][pe];
        if net.pins[pin].node != nd {
          bbox := Box(bbox.x.Add(net.XOf(pos, pin)), bbox.y.Add(net.YOf(pos, pin)));
          count := count + 1;
        }
      }
      ok := count != 0;
    }

    /** The optimal region of a cell: whatever is in the box it returns is in the chip, and no place in the
        chip costs the cell's pins less; with one pin on each net, none gives less wirelength. It fails only
        when none of the cell's nets counts. */
    method GetRange(nd: nat) returns (ok: bool, box: Rectangle)
      requires chip.Valid() && net.Fits(pos) && nd < |pos|
      modifies this`xpts, this`ypts
      ensures ok ==> box.xmin <= box.xmax && box.ymin <= box.ymax
      ensures ok ==> forall p :: box.Has(p) <==> InMiddle(chip, net, pos, nd, xpts, ypts, |xpts| / 2, p)
      ensures ok ==> forall p, q :: box.Has(p) && chip.Has(q) ==> chip.Has(p) && PinCost(net, pos, nd, p) <= PinCost(net, pos, nd, q)
      ensures ok && OnePinPerNet(net, nd) ==> forall p, q :: box.Has(p) && chip.Has(q) ==>
        net.Hpwl(pos[nd := p], MATCH_LIMIT) <= net.Hpwl(pos[nd := q], MATCH_LIMIT)
      ensures !ok ==> Points(chip, net, pos, nd, |net.nodePins[nd]|) == ([], [])
    {
      CollectPoints(nd);
      var t := |xpts|;
      box := Rectangle(0.0, 0.0, 0.0, 0.0);
      if t <= 1 {
        return false, box;
      }
      var mid := t / 2;
      xpts := SortReals(xpts);
      ypts := SortReals(ypts);
      SameLength(xpts, Points(chip, net, pos, nd, |net.nodePins[nd]|).0);
      SameLength(ypts, Points(chip, net, pos, nd, |net.nodePins[nd]|).1);
      box := Rectangle(xpts[mid - 1], xpts[mid], ypts[mid - 1], ypts[mid]);
      forall p, q | box.Has(p) && chip.Has(q)
        ensures chip.Has(p) && PinCost(net, pos, nd, p) <= PinCost(net, pos, nd, q)
        ensures OnePinPerNet(net, nd) ==> net.Hpwl(pos[nd := p], MATCH_LIMIT) <= net.Hpwl(pos[nd := q], MATCH_LIMIT)
      {
        MedianIsOptimal(chip, net, pos, nd, xpts, ypts, mid, p, q);
        if OnePinPerNet(net, nd) {
          MiddleIsShortest(chip, net, pos, nd, xpts, ypts, mid, p, q);
        }
      }
      ok := true;
    }

    lemma SameLength(a: seq<real>, b: seq<real>)
      requires multiset(a) == multiset(b)
      ensures |a| == |b|
    {
      assert |a| == |multiset(a)| == |multiset(b)| == |b|;
    }

    method CollectPoints(nd: nat)
      requires net.Fits(pos) && nd < |pos|
      modifies this`xpts, this`ypts
      ensures (xpts, ypts) == Points(chip, net, pos, nd, |net.nodePins[nd]|)
    {
      xpts, ypts := [], [];
      for n := 0 to |net.nodePins[nd]|
        invariant (xpts, ypts) == Points(chip, net, pos, nd, n)
      {
        var pin := net.pins[net.nodePins[nd][n]];
        var numPins := |net.edgePins[pin.edge]|;
        if numPins > 1 && numPins <= MATCH_LIMIT {
          var ok, bbox := CalculateEdgeBB(pin.edge, nd);
          if ok {
            var r := chip.Pulled(bbox, pin);
            xpts, ypts := xpts + [r.xmin, r.xmax], ypts + [r.ymin, r.ymax];
          }
        }
      }
    }
  }
}
