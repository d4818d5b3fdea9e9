/** What the covers of a cell mean (detailed_abu.cxx): the bins tile the chip, and a cell's covers add up to the part
    of it that is in the chip. */
module UtilizationCover {
  import IntMath
  import opened RealMath
  import opened Netlist
  import opened Utilization

  /** The bins reach over the whole chip. */
  ghost predicate Reaching(c: Chip) {
    && c.Valid() && c.minX <= c.maxX && c.minY <= c.maxY
    && c.minX + c.numX as real * c.unit >= c.maxX && c.minY + c.numY as real * c.unit >= c.maxY
  }

  /** How long two intervals overlap. */
  function Common(lo: real, hi: real, lo': real, hi': real): real {
    Max(0.0, Min(hi, hi') - Max(lo, lo'))
  }

  // ----- along one axis

  /** The k-th of the intervals of length unit from min on, cut at max. */
  function Low(min: real, unit: real, k: nat): real {
    min + k as real * unit
  }

  function High(min: real, unit: real, max: real, k: nat): real {
    Min(Low(min, unit, k) + unit, max)
  }

  /** Overlaps of lo to hi with the first n of them. */
  function Shares(min: real, unit: real, max: real, lo: real, hi: real, n: nat): (s: seq<real>)
    ensures |s| == n
  {
    seq(n, k requires 0 <= k < n => Common(Low(min, unit, k), High(min, unit, max, k), lo, hi))
  }

  /** They add up to the overlap with all. */
  lemma {:induction false} SharesAddUp(min: real, unit: real, max: real, lo: real, hi: real, n: nat)
    requires unit > 0.0 && lo <= hi && min <= max
    ensures Sum(Shares(min, unit, max, lo, hi, n)) == Common(min, Min(Low(min, unit, n), max), lo, hi)
  {
    var s := Shares(min, unit, max, lo, hi, n);
    LowNext(min, unit, n);
    if n > 0 {
      SharesAddUp(min, unit, max, lo, hi, n - 1);
      LowNext(min, unit, n - 1);
      assert s[..n - 1] == Shares(min, unit, max, lo, hi, n - 1);
      hide Low;
    }
  }

  lemma LowNext(min: real, unit: real, k: nat)
    requires unit > 0.0
    ensures Low(min, unit, k + 1) == Low(min, unit, k) + unit && Low(min, unit, k) >= min && Low(min, unit, 0) == min
  {
    assert k as real * unit >= 0.0;
  }

  // ----- in both axes

  /** No overlap of the cell with a column or row is a sliver. */
  ghost predicate NoSlivers(c: Chip, i: nat, p: Point)
    requires c.Valid() && i < |c.width|
  {
    && (forall k: nat :: k < c.numX ==> Wide(Common(Low(c.minX, c.unit, k), High(c.minX, c.unit, c.maxX, k), Left(c, i, p), Right(c, i, p))))
    && (forall j: nat :: j < c.numY ==> Wide(Common(Low(c.minY, c.unit, j), High(c.minY, c.unit, c.maxY, j), Bottom(c, i, p), Top(c, i, p))))
  }

  predicate Wide(overlap: real) {
    overlap == 0.0 || overlap > MIN_OVERLAP
  }

  function Left(c: Chip, i: nat, p: Point): real
    requires i < |c.width|
  {
    p.x - 0.5 * c.width[i]
  }

  function Right(c: Chip, i: nat, p: Point): real
    requires i < |c.width|
  {
    p.x + 0.5 * c.width[i]
  }

  function Bottom(c: Chip, i: nat, p: Point): real
    requires i < |c.height|
  {
    p.y - 0.5 * c.height[i]
  }

  function Top(c: Chip, i: nat, p: Point): real
    requires i < |c.height|
  {
    p.y + 0.5 * c.height[i]
  }

  ghost function AllCovers(c: Chip, i: nat, p: Point): (s: seq<real>)
    requires c.Valid() && i < |c.width|
    ensures |s| == c.Bins()
  {
    seq(c.Bins(), b requires 0 <= b < c.Bins() => c.Cover(b, i, p))
  }

  function AreaOf(width: real, height: real): real {
    width * height
  }

  /** What a cell covers of all bins is the part of it that is in the chip. */
  lemma {:induction false} CoversAddUp(c: Chip, i: nat, p: Point)
    requires Reaching(c) && i < |c.width| && c.width[i] >= 0.0 && c.height[i] >= 0.0 && NoSlivers(c, i, p)
    ensures Sum(AllCovers(c, i, p)) == AreaOf(Common(c.minX, c.maxX, Left(c, i, p), Right(c, i, p)),
                                              Common(c.minY, c.maxY, Bottom(c, i, p), Top(c, i, p)))
  {
    hide AreaOf, Sum, AllCovers, Columns, Rows, Common, NoSlivers;
    AxesAddUp(c, i, p);
    CoversAreProducts(c, i, p);
    GridSum(AllCovers(c, i, p), Columns(c, i, p), Rows(c, i, p));
  }

  lemma {:induction false} CoversAreProducts(c: Chip, i: nat, p: Point)
    requires c.Valid() && i < |c.width| && NoSlivers(c, i, p)
    ensures Products(AllCovers(c, i, p), Columns(c, i, p), Rows(c, i, p))
  {
    hide Chip.Cover, NoSlivers, Columns, Rows, AreaOf;
    forall b: nat | b < c.Bins()
      ensures b / c.numX < c.numY && c.Cover(b, i, p) == AreaOf(Columns(c, i, p)[b % c.numX], Rows(c, i, p)[b / c.numX])
    {
      c.BinOf(b);
      CoverIsShare(c, i, p, b);
    }
  }

  /** The bins also begin inside the chip. */
  ghost predicate Tight(c: Chip) {
    && Reaching(c) && c.numY > 0
    && Low(c.minX, c.unit, c.numX - 1) <= c.maxX && Low(c.minY, c.unit, c.numY - 1) <= c.maxY
  }

  ghost function Spaces(c: Chip): (s: seq<real>)
    requires c.Valid()
    ensures |s| == c.Bins()
  {
    seq(c.Bins(), b requires 0 <= b < c.Bins() => c.Space(b))
  }

  ghost function Areas(c: Chip): (s: seq<real>)
    requires c.Valid()
    ensures |s| == c.Bins()
  {
    seq(c.Bins(), b requires 0 <= b < c.Bins() => c.Area(b))
  }

  /** The spaces of all bins and what fixed objects take of them are together the chip. */
  lemma {:induction false} SpacesAddUp(c: Chip)
    requires Tight(c)
    ensures Sum(Spaces(c)) + Sum(c.fUtil) == AreaOf(c.maxX - c.minX, c.maxY - c.minY)
  {
    hide Sum, AreaOf, Areas, Widths, Heights;
    WidthsAddUp(c);
    AreasAreProducts(c);
    GridSum(Areas(c), Widths(c), Heights(c));
    LessFixed(c);
    SumMinus(Areas(c), c.fUtil);
  }

  lemma LessFixed(c: Chip)
    requires c.Valid()
    ensures Spaces(c) == Minus(Areas(c), c.fUtil)
  {
    hide Chip.Area;
  }

  ghost function Widths(c: Chip): (s: seq<real>)
    ensures |s| == c.numX
  {
    Shares(c.minX, c.unit, c.maxX, c.minX, c.maxX, c.numX)
  }

  ghost function Heights(c: Chip): (s: seq<real>)
    ensures |s| == c.numY
  {
    Shares(c.minY, c.unit, c.maxY, c.minY, c.maxY, c.numY)
  }

  lemma WidthsAddUp(c: Chip)
    requires Tight(c)
    ensures Sum(Widths(c)) == c.maxX - c.minX && Sum(Heights(c)) == c.maxY - c.minY
  {
    hide Sum, Shares, Low;
    SharesAddUp(c.minX, c.unit, c.maxX, c.minX, c.maxX, c.numX);
    SharesAddUp(c.minY, c.unit, c.maxY, c.minY, c.maxY, c.numY);
    AtEnd(c.minX, c.unit, c.maxX, c.numX);
    AtEnd(c.minY, c.unit, c.maxY, c.numY);
  }

  lemma {:induction false} AreasAreProducts(c: Chip)
    requires Tight(c)
    ensures Products(Areas(c), Widths(c), Heights(c))
  {
    hide Chip.Area, Widths, Heights, AreaOf, Tight;
    TightValid(c);
    forall b: nat | b < c.Bins()
      ensures b / c.numX < c.numY && c.Area(b) == AreaOf(Widths(c)[b % c.numX], Heights(c)[b / c.numX])
    {
      c.BinOf(b);
      AreaIsProduct(c, b);
    }
  }

  lemma TightValid(c: Chip)
    requires Tight(c)
    ensures c.Valid() && c.numX > 0
  {
  }

  lemma AreaIsProduct(c: Chip, b: nat)
    requires Tight(c) && b < c.Bins() && b % c.numX < c.numX && b / c.numX < c.numY
    ensures c.Area(b) == AreaOf(Widths(c)[b % c.numX], Heights(c)[b / c.numX])
  {
    hide Tight, Widths, Heights, AreaOf, Chip.Lx, Chip.Ly, Chip.Hx, Chip.Hy;
    TightValid(c);
    Sides(c, b);
    var w, h := c.Hx(b) - c.Lx(b), c.Hy(b) - c.Ly(b);
    NotBelow(w, h);
    assert c.Area(b) == Max(w * h, 0.0);
  }

  lemma Sides(c: Chip, b: nat)
    requires Tight(c) && b < c.Bins() && b % c.numX < c.numX && b / c.numX < c.numY
    ensures 0.0 <= c.Hx(b) - c.Lx(b) == Widths(c)[b % c.numX] && 0.0 <= c.Hy(b) - c.Ly(b) == Heights(c)[b / c.numX]
  {
    WidthIs(c, b);
    HeightIs(c, b);
    hide *;
  }

  lemma WidthIs(c: Chip, b: nat)
    requires Tight(c) && b < c.Bins() && b % c.numX < c.numX
    ensures 0.0 <= c.Hx(b) - c.Lx(b) == Widths(c)[b % c.numX]
  {
    InChip(c.minX, c.unit, c.maxX, b % c.numX, c.numX - 1);
    hide Common, Min;
    assert c.Lx(b) == Low(c.minX, c.unit, b % c.numX);
  }

  lemma HeightIs(c: Chip, b: nat)
    requires Tight(c) && b < c.Bins() && b / c.numX < c.numY
    ensures 0.0 <= c.Hy(b) - c.Ly(b) == Heights(c)[b / c.numX]
  {
    InChip(c.minY, c.unit, c.maxY, b / c.numX, c.numY - 1);
    hide Common, Min;
    assert c.Ly(b) == Low(c.minY, c.unit, b / c.numX);
  }

  lemma InChip(min: real, unit: real, max: real, k: nat, last: nat)
    requires unit > 0.0 && k <= last && Low(min, unit, last) <= max
    ensures 0.0 <= High(min, unit, max, k) - Low(min, unit, k) == Common(Low(min, unit, k), High(min, unit, max, k), min, max)
  {
    LowNext(min, unit, k);
    NotLower(min, unit, k, last);
    hide Low;
  }

  lemma NotLower(min: real, unit: real, k: nat, last: nat)
    requires unit > 0.0 && k <= last
    ensures Low(min, unit, k) <= Low(min, unit, last)
  {
    assert (last - k) as real * unit >= 0.0;
    assert last as real * unit == k as real * unit + (last - k) as real * unit;
  }

  lemma NotBelow(w: real, h: real)
    requires w >= 0.0 && h >= 0.0
    ensures Max(w * h, 0.0) == AreaOf(w, h)
  {
  }

  /** The rows of a grid, each as wide as xs, hold the products of a column's and a row's value. */
  ghost predicate Products(s: seq<real>, xs: seq<real>, ys: seq<real>) {
    && |xs| > 0 && |s| == Offset(|ys|, |xs|)
    && forall b: nat :: b < |s| ==> b / |xs| < |ys| && s[b] == AreaOf(xs[b % |xs|], ys[b / |xs|])
  }

  /** Where row j begins. */
  function Offset(j: nat, w: nat): nat {
    j * w
  }

  lemma OffsetNext(j: nat, w: nat)
    ensures Offset(j + 1, w) == Offset(j, w) + w && Offset(0, w) == 0
  {
  }

  lemma AxesAddUp(c: Chip, i: nat, p: Point)
    requires Reaching(c) && i < |c.width| && c.width[i] >= 0.0 && c.height[i] >= 0.0
    ensures Sum(Columns(c, i, p)) == Common(c.minX, c.maxX, Left(c, i, p), Right(c, i, p))
    ensures Sum(Rows(c, i, p)) == Common(c.minY, c.maxY, Bottom(c, i, p), Top(c, i, p))
  {
    hide Sum, Shares, Common;
    SharesAddUp(c.minX, c.unit, c.maxX, Left(c, i, p), Right(c, i, p), c.numX);
    SharesAddUp(c.minY, c.unit, c.maxY, Bottom(c, i, p), Top(c, i, p), c.numY);
    AtEnd(c.minX, c.unit, c.maxX, c.numX);
    AtEnd(c.minY, c.unit, c.maxY, c.numY);
  }

  function Columns(c: Chip, i: nat, p: Point): (s: seq<real>)
    requires i < |c.width|
    ensures |s| == c.numX
  {
    Shares(c.minX, c.unit, c.maxX, Left(c, i, p), Right(c, i, p), c.numX)
  }

  function Rows(c: Chip, i: nat, p: Point): (s: seq<real>)
    requires i < |c.height|
    ensures |s| == c.numY
  {
    Shares(c.minY, c.unit, c.maxY, Bottom(c, i, p), Top(c, i, p), c.numY)
  }

  lemma AtEnd(min: real, unit: real, max: real, n: nat)
    requires min + n as real * unit >= max
    ensures Min(Low(min, unit, n), max) == max
  {
  }

  lemma {:induction false} CoverIsShare(c: Chip, i: nat, p: Point, b: nat)
    requires c.Valid() && b < c.Bins() && i < |c.width| && NoSlivers(c, i, p) && b % c.numX < c.numX && b / c.numX < c.numY
    ensures c.Cover(b, i, p) == AreaOf(Columns(c, i, p)[b % c.numX], Rows(c, i, p)[b / c.numX])
  {
    hide Columns, Rows, Chip.Lx, Chip.Ly, Chip.Hx, Chip.Hy, Max, Min, Common;
    var lx, hx := Max(c.Lx(b), p.x - 0.5 * c.width[i]), Min(c.Hx(b), p.x + 0.5 * c.width[i]);
    var ly, hy := Max(c.Ly(b), p.y - 0.5 * c.height[i]), Min(c.Hy(b), p.y + 0.5 * c.height[i]);
    ColumnIs(c, i, p, b);
    RowIs(c, i, p, b);
    hide NoSlivers;
    WideProduct(hx - lx, hy - ly);
  }

  lemma ColumnIs(c: Chip, i: nat, p: Point, b: nat)
    requires c.Valid() && b < c.Bins() && i < |c.width| && NoSlivers(c, i, p) && b % c.numX < c.numX
    ensures Columns(c, i, p)[b % c.numX] == Max(0.0, Min(c.Hx(b), p.x + 0.5 * c.width[i]) - Max(c.Lx(b), p.x - 0.5 * c.width[i]))
    ensures Wide(Columns(c, i, p)[b % c.numX])
  {
    hide Max, Min, Wide;
    var k: nat := b % c.numX;
    assert c.Lx(b) == Low(c.minX, c.unit, k);
  }

  lemma RowIs(c: Chip, i: nat, p: Point, b: nat)
    requires c.Valid() && b < c.Bins() && i < |c.width| && NoSlivers(c, i, p) && b / c.numX < c.numY
    ensures Rows(c, i, p)[b / c.numX] == Max(0.0, Min(c.Hy(b), p.y + 0.5 * c.height[i]) - Max(c.Ly(b), p.y - 0.5 * c.height[i]))
    ensures Wide(Rows(c, i, p)[b / c.numX])
  {
    hide Max, Min, Wide;
    var j: nat := b / c.numX;
    assert c.Ly(b) == Low(c.minY, c.unit, j);
  }

  lemma WideProduct(a: real, b: real)
    requires Wide(Max(0.0, a)) && Wide(Max(0.0, b))
    ensures Max(0.0, a) * Max(0.0, b) == if a > MIN_OVERLAP && b > MIN_OVERLAP then a * b else 0.0
  {
  }

  /** Products along rows and columns add up to the product of the sums. */
  lemma {:induction false} GridSum(s: seq<real>, xs: seq<real>, ys: seq<real>)
    requires Products(s, xs, ys)
    ensures Sum(s) == AreaOf(Sum(xs), Sum(ys))
  {
    hide Offset, AreaOf, Sum;
    OffsetNext(0, |xs|);
    if ys == [] {
      assert s == [];
      NoRows(xs);
    } else {
      var m := |ys| - 1;
      OffsetNext(m, |xs|);
      var rest, last := s[..Offset(m, |xs|)], s[Offset(m, |xs|)..];
      FewerRows(s, xs, ys);
      GridSum(rest, xs, ys[..m]);
      RowSum(s, xs, ys);
      assert s == rest + last;
      SumConcat(rest, last);
      SumPrefix(ys, m);
      assert ys[..m + 1] == ys;
      Distribute(Sum(xs), Sum(ys[..m]), ys[m]);
    }
  }

  lemma NoRows(xs: seq<real>)
    ensures Sum([]) == 0.0 == AreaOf(Sum(xs), 0.0)
  {
  }

  lemma Distribute(x: real, a: real, b: real)
    ensures AreaOf(x, a + b) == AreaOf(x, a) + AreaOf(x, b)
  {
  }

  lemma FewerRows(s: seq<real>, xs: seq<real>, ys: seq<real>)
    requires Products(s, xs, ys) && ys != [] && Offset(|ys| - 1, |xs|) <= |s|
    ensures Products(s[..Offset(|ys| - 1, |xs|)], xs, ys[..|ys| - 1])
  {
    hide Offset, AreaOf;
    var m, w := |ys| - 1, |xs|;
    forall b: nat | b < Offset(m, w)
      ensures b / w < m
    {
      RowBefore(b, w, m);
    }
  }

  lemma RowBefore(b: nat, w: nat, n: nat)
    requires w > 0 && b < Offset(n, w)
    ensures b / w < n
  {
    if b / w >= n {
      IntMath.MulMono(n, b / w, w);
    }
  }

  /** The last row. */
  lemma {:induction false} RowSum(s: seq<real>, xs: seq<real>, ys: seq<real>)
    requires Products(s, xs, ys) && ys != [] && |s| == Offset(|ys| - 1, |xs|) + |xs|
    ensures Sum(s[Offset(|ys| - 1, |xs|)..]) == AreaOf(Sum(xs), ys[|ys| - 1])
  {
    hide Sum, AreaOf, Offset;
    var m, w := |ys| - 1, |xs|;
    var part := s[Offset(m, w)..];
    forall k: nat | k < w
      ensures part[k] == AreaOf(xs[k], ys[m])
    {
      InRow(m, k, w);
      assert part[k] == s[Offset(m, w) + k];
    }
    Factor(part, xs, ys[m]);
  }

  lemma InRow(m: nat, k: nat, w: nat)
    requires k < w
    ensures (Offset(m, w) + k) / w == m && (Offset(m, w) + k) % w == k
  {
    IntMath.DivMod(m, k, w);
  }

  lemma {:induction false} Factor(s: seq<real>, xs: seq<real>, y: real)
    requires |s| == |xs| && forall k :: 0 <= k < |s| ==> s[k] == AreaOf(xs[k], y)
    ensures Sum(s) == AreaOf(Sum(xs), y)
  {
    if s != [] {
      var n := |s| - 1;
      Factor(s[..n], xs[..n], y);
      assert (Sum(xs[..n]) + xs[n]) * y == Sum(xs[..n]) * y + xs[n] * y;
    }
  }
}
