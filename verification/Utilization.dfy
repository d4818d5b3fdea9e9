/** The utilisation grid of the placement optimiser (detailed_abu.cxx), as a recount: how much of each
    bin the movable cells cover, which bucket that puts the bin in, and what the buckets cost. */
module Utilization {
  import IntMath
  import opened RealMath
  import opened Netlist

  const BUCKETS: nat := 10
  const BIN_AREA_THRESHOLD: real := 0.2
  const FREE_SPACE_THRESHOLD: real := 0.2
  const MIN_OVERLAP: real := 0.00001

  /** The grid, what fixed objects take of each bin, and the cells' sizes. */
  datatype Chip = Chip(minX: real, minY: real, maxX: real, maxY: real, unit: real, numX: nat, numY: nat,
                       fUtil: seq<real>, width: seq<real>, height: seq<real>, movable: seq<bool>, target: real)
  {
    ghost predicate Valid() {
      && unit > 0.0 && numX > 0 && |fUtil| == numX * numY && |width| == |height| == |movable|
    }

    function Bins(): nat {
      |fUtil|
    }

    // ----- bins

    function BinId(j: int, k: int): int {
      j * numX + k
    }

    function Lx(b: nat): real
      requires numX > 0
    {
      minX + (b % numX) as real * unit
    }

    function Ly(b: nat): real
      requires numX > 0
    {
      minY + (b / numX) as real * unit
    }

    function Hx(b: nat): real
      requires numX > 0
    {
      Min(Lx(b) + unit, maxX)
    }

    function Hy(b: nat): real
      requires numX > 0
    {
      Min(Ly(b) + unit, maxY)
    }

    function Area(b: nat): real
      requires numX > 0
    {
      Max((Hx(b) - Lx(b)) * (Hy(b) - Ly(b)), 0.0)
    }

    function Space(b: nat): real
      requires numX > 0 && b < Bins()
    {
      Area(b) - fUtil[b]
    }

    /** How much of bin b cell i covers at p; slivers do not count. */
    function Cover(b: nat, i: nat, p: Point): real
      requires numX > 0 && i < |width| == |height|
    {
      var lx, hx := Max(Lx(b), p.x - 0.5 * width[i]), Min(Hx(b), p.x + 0.5 * width[i]);
      var ly, hy := Max(Ly(b), p.y - 0.5 * height[i]), Min(Hy(b), p.y + 0.5 * height[i]);
      if hx - lx > MIN_OVERLAP && hy - ly > MIN_OVERLAP then (hx - lx) * (hy - ly) else 0.0
    }

    // ----- the range of bins that is looked at for a cell

    function LeftCol(i: nat, p: Point): int
      requires unit > 0.0 && i < |width|
    {
      IntMath.Max(((p.x - 0.5 * width[i] - minX) / unit).Floor, 0)
    }

    function RightCol(i: nat, p: Point): int
      requires unit > 0.0 && i < |width|
    {
      IntMath.Min(((p.x + 0.5 * width[i] - minX) / unit).Floor, numX - 1)
    }

    function BottomRow(i: nat, p: Point): int
      requires unit > 0.0 && i < |height|
    {
      IntMath.Max(((p.y - 0.5 * height[i] - minY) / unit).Floor, 0)
    }

    function TopRow(i: nat, p: Point): int
      requires unit > 0.0 && i < |height|
    {
      IntMath.Min(((p.y + 0.5 * height[i] - minY) / unit).Floor, numY - 1)
    }

    predicate InRange(b: nat, i: nat, p: Point)
      requires unit > 0.0 && numX > 0 && i < |width| == |height|
    {
      LeftCol(i, p) <= b % numX <= RightCol(i, p) && BottomRow(i, p) <= b / numX <= TopRow(i, p)
    }

    /** Bins outside the range are not covered. */
    lemma {:induction false} OutOfRange(b: nat, i: nat, p: Point)
      requires Valid() && b < Bins() && i < |width| && !InRange(b, i, p)
      ensures Cover(b, i, p) == 0.0
    {
      BinOf(b);
      if !(LeftCol(i, p) <= b % numX <= RightCol(i, p)) {
        ApartX(b, i, p);
      } else {
        ApartY(b, i, p);
      }
    }

    lemma {:induction false} ApartX(b: nat, i: nat, p: Point)
      requires Valid() && b < Bins() && i < |width| && b % numX <= numX - 1
      requires !(LeftCol(i, p) <= b % numX <= RightCol(i, p))
      ensures Hx(b) <= p.x - 0.5 * width[i] || p.x + 0.5 * width[i] <= Lx(b)
    {
      NotLeft(p.x - 0.5 * width[i] - minX, unit, b % numX);
      NotRight(p.x + 0.5 * width[i] - minX, unit, b % numX);
    }

    lemma {:induction false} ApartY(b: nat, i: nat, p: Point)
      requires Valid() && b < Bins() && i < |height| && b / numX <= numY - 1
      requires !(BottomRow(i, p) <= b / numX <= TopRow(i, p))
      ensures Hy(b) <= p.y - 0.5 * height[i] || p.y + 0.5 * height[i] <= Ly(b)
    {
      NotLeft(p.y - 0.5 * height[i] - minY, unit, b / numX);
      NotRight(p.y + 0.5 * height[i] - minY, unit, b / numX);
    }

    lemma {:induction false} BinOf(b: nat)
      requires Valid() && b < Bins()
      ensures b % numX <= numX - 1 && b / numX <= numY - 1
    {
      if b / numX >= numY {
        IntMath.MulMono(numY, b / numX, numX);
      }
    }

    /** Column and row of a bin number. */
    lemma {:induction false} BinAt(j: nat, k: nat)
      requires Valid() && j < numY && k < numX
      ensures 0 <= BinId(j, k) < Bins() && BinId(j, k) % numX == k && BinId(j, k) / numX == j
    {
      IntMath.MulMono(j + 1, numY, numX);
      IntMath.MulMono(0, j, numX);
      assert (j + 1) * numX == j * numX + numX;
      IntMath.DivMod(j, k, numX);
    }

    // ----- the recount

    ghost function Covers(pos: Placement, b: nat): (s: seq<real>)
      requires Valid() && |pos| == |width|
      ensures |s| == |pos|
    {
      seq(|pos|, i requires 0 <= i < |pos| => if movable[i] then Cover(b, i, pos[i]) else 0.0)
    }

    ghost function Utils(pos: Placement): (u: seq<real>)
      requires Valid() && |pos| == |width|
      ensures |u| == Bins()
    {
      seq(Bins(), b requires 0 <= b < Bins() => Sum(Covers(pos, b)))
    }

    /** The bucket of a bin covered so much, -1 for a bin that is too small or too full of fixed objects. */
    function BucketId(b: nat, occ: real): (ix: int)
      requires numX > 0 && b < Bins()
      ensures -1 <= ix < BUCKETS
      ensures ix != -1 ==> Area(b) >= 0.0 && Space(b) > 0.0
    {
      if Area(b) <= unit * unit * BIN_AREA_THRESHOLD then -1
      else if Space(b) <= FREE_SPACE_THRESHOLD * Area(b) then -1
      else IntMath.Max(0, IntMath.Min(Trunc(occ / Space(b) * BUCKETS as real), BUCKETS - 1))
    }

    ghost function Bucket(u: seq<real>, ix: int): (s: set<nat>)
      requires numX > 0 && |u| == Bins()
    {
      set b: nat | b < Bins() && BucketId(b, u[b]) == ix
    }

    /** Utilisations relative to the space there is; only meaningful for bins with a bucket. */
    ghost function Ratios(u: seq<real>): (r: seq<real>)
      requires numX > 0 && |u| == Bins()
      ensures |r| == Bins()
    {
      seq(Bins(), b requires 0 <= b < Bins() => if BucketId(b, u[b]) == -1 then 0.0 else u[b] / Space(b))
    }

    /** The buckets and their totals are the recount of utilisations u. */
    ghost predicate Bucketed(u: seq<real>, buckets: seq<set<nat>>, totals: seq<real>)
      requires numX > 0
    {
      && |u| == Bins() && |buckets| == |totals| == BUCKETS
      && forall ix :: 0 <= ix < BUCKETS ==> buckets[ix] == Bucket(u, ix) && totals[ix] == Sum(Masked(Ratios(u), Bucket(u, ix)))
    }

    /** What the buckets above the target cost, from bucket i - 1 down. */
    ghost function FofBelow(buckets: seq<set<nat>>, totals: seq<real>, i: nat): real
      requires |buckets| == |totals| == BUCKETS && i <= BUCKETS
    {
      if i == 0 || i as real / BUCKETS as real <= target then 0.0
      else (if buckets[i - 1] != {} then totals[i - 1] / |buckets[i - 1]| as real else 0.0) + FofBelow(buckets, totals, i - 1)
    }

    ghost function BucketsOf(u: seq<real>): (s: seq<set<nat>>)
      requires numX > 0 && |u| == Bins()
      ensures |s| == BUCKETS
    {
      seq(BUCKETS, ix requires 0 <= ix < BUCKETS => Bucket(u, ix))
    }

    ghost function TotalsOf(u: seq<real>): (s: seq<real>)
      requires numX > 0 && |u| == Bins()
      ensures |s| == BUCKETS
    {
      seq(BUCKETS, ix requires 0 <= ix < BUCKETS => Sum(Masked(Ratios(u), Bucket(u, ix))))
    }

    /** The objective of a placement, counted from scratch. */
    ghost function Cost(pos: Placement): real
      requires Valid() && |pos| == |width|
    {
      FofBelow(BucketsOf(Utils(pos)), TotalsOf(Utils(pos)), BUCKETS)
    }

    /** Whatever is bucketed right costs what the recount costs. */
    lemma BucketedUnique(u: seq<real>, buckets: seq<set<nat>>, totals: seq<real>)
      requires numX > 0 && Bucketed(u, buckets, totals)
      ensures buckets == BucketsOf(u) && totals == TotalsOf(u)
    {
    }

    // ----- cells changing their places

    /** The cells of a move: different, movable ones. */
    ghost predicate Cells(nodes: seq<nat>) {
      && (forall i :: 0 <= i < |nodes| ==> nodes[i] < |width| == |height| == |movable| && movable[nodes[i]])
      && (forall i, j :: 0 <= i < j < |nodes| ==> nodes[i] != nodes[j])
    }

    ghost function CoverSum(b: nat, nodes: seq<nat>, at: seq<Point>, k: nat): real
      requires numX > 0 && k <= |nodes| == |at| && Cells(nodes)
    {
      if k == 0 then 0.0 else CoverSum(b, nodes, at, k - 1) + Cover(b, nodes[k - 1], at[k - 1])
    }

    ghost predicate StandAt(pos: Placement, nodes: seq<nat>, at: seq<Point>) {
      |nodes| == |at| && forall i :: 0 <= i < |nodes| ==> nodes[i] < |pos| && pos[nodes[i]] == at[i]
    }

    /** Moving the first k cells of a move takes their old covers off a bin and puts their new ones on. */
    lemma {:induction false} MoveChanges(pos: Placement, nodes: seq<nat>, cur: seq<Point>, next: seq<Point>, b: nat, k: nat)
      requires Valid() && |pos| == |width| && Cells(nodes) && StandAt(pos, nodes, cur) && |next| == |nodes| && k <= |nodes|
      ensures Sum(Covers(PlaceAt(pos, nodes[..k], next[..k]), b))
        == Sum(Covers(pos, b)) - CoverSum(b, nodes, cur, k) + CoverSum(b, nodes, next, k)
    {
      if k > 0 {
        var before, after := PlaceAt(pos, nodes[..k - 1], next[..k - 1]), PlaceAt(pos, nodes[..k], next[..k]);
        var n := nodes[k - 1];
        MoveChanges(pos, nodes, cur, next, b, k - 1);
        assert nodes[..k][..k - 1] == nodes[..k - 1] && next[..k][..k - 1] == next[..k - 1];
        assert after == before[n := next[k - 1]];
        assert n !in nodes[..k - 1];
        SumUpdate(Covers(before, b), n, Cover(b, n, next[k - 1]));
        assert Covers(after, b) == Covers(before, b)[n := Cover(b, n, next[k - 1])];
      }
    }

    // ----- one bin changing its utilisation

    /** Taking a bin out of its bucket at one utilisation and putting it back at another. */
    lemma {:induction false} Rebucketed(u: seq<real>, b: nat, v: real, ix: int)
      requires numX > 0 && |u| == Bins() && b < Bins() && 0 <= ix < BUCKETS
      ensures Bucket(u[b := v], ix) == (Bucket(u, ix) - {b}) + (if BucketId(b, v) == ix then {b} else {})
      ensures Sum(Masked(Ratios(u[b := v]), Bucket(u[b := v], ix)))
        == Sum(Masked(Ratios(u), Bucket(u, ix)))
           - (if BucketId(b, u[b]) == ix then u[b] / Space(b) else 0.0)
           + (if BucketId(b, v) == ix then v / Space(b) else 0.0)
    {
      var u' := u[b := v];
      var s, s' := Bucket(u, ix), Bucket(u', ix);
      var rest := s - {b};
      assert s' == rest + if BucketId(b, v) == ix then {b} else {};
      TakeOut(Ratios(u), s, b);
      TakeOut(Ratios(u'), s', b);
      assert s' - {b} == rest;
      assert Masked(Ratios(u'), rest) == Masked(Ratios(u), rest);
    }
  }

  lemma {:induction false} TakeOut(r: seq<real>, s: set<nat>, b: nat)
    requires b < |r|
    ensures Sum(Masked(r, s)) == Sum(Masked(r, s - {b})) + if b in s then r[b] else 0.0
  {
    if b in s {
      MaskedAdd(r, s - {b}, b);
      assert s - {b} + {b} == s;
    } else {
      assert s - {b} == s;
    }
  }

  /** A column left of the first one ends before the cell begins. */
  lemma {:induction false} NotLeft(a: real, u: real, k: nat)
    requires u > 0.0
    ensures k < (a / u).Floor ==> k as real * u + u <= a
  {
    if k < (a / u).Floor {
      MulDiv(a, u, k as real + 1.0);
    }
  }

  /** A column right of the last one begins after the cell ends. */
  lemma {:induction false} NotRight(a: real, u: real, k: nat)
    requires u > 0.0
    ensures k > (a / u).Floor ==> a < k as real * u
  {
    if k > (a / u).Floor && k as real * u <= a {
      DivMul(a, u, k as real);
    }
  }

  lemma {:induction false} MulDiv(a: real, u: real, q: real)
    requires u > 0.0 && q <= a / u
    ensures q * u <= a
  {
    assert a / u * u == a;
    assert (a / u - q) * u >= 0.0;
  }

  lemma DivMul(a: real, u: real, q: real)
    requires u > 0.0 && q * u <= a
    ensures q <= a / u
  {
  }
}
