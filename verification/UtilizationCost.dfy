/** What the utilisation objective means (detailed_abu.cxx), said of the bins themselves: which bins count, how
    full they are, and what that costs. */
module UtilizationCost {
  import opened RealMath
  import opened Netlist
  import opened Utilization

  // ----- which bucket a bin is in

  /** A bin that counts: larger than a fifth of a unit square, and more than a fifth of it free of fixed objects. */
  ghost predicate Usable(c: Chip, b: nat)
    requires c.Valid() && b < c.Bins()
  {
    5.0 * c.Area(b) > c.unit * c.unit && 5.0 * c.Space(b) > c.Area(b)
  }

  /** Covered by so much, the bin is full to this tenth; the last one takes whatever is overfull. */
  ghost predicate InTenth(c: Chip, b: nat, u: real, ix: int)
    requires c.Valid() && b < c.Bins()
  {
    && Usable(c, b) && 0 <= ix < 10
    && (ix > 0 ==> 10.0 * u >= ix as real * c.Space(b)) && (ix < 9 ==> 10.0 * u < (ix + 1) as real * c.Space(b))
  }

  /** A bin that counts is in the bucket of its tenth, and one that does not in none. */
  lemma {:induction false} BucketIsTenth(c: Chip, b: nat, u: real, ix: int)
    requires c.Valid() && b < c.Bins() && 0 <= ix < BUCKETS
    ensures c.BucketId(b, u) == ix <==> InTenth(c, b, u, ix)
    ensures c.BucketId(b, u) == -1 <==> !Usable(c, b)
  {
    hide Chip.Area, Chip.Space, Chip.BucketId, Trunc;
    UsableSpace(c, b);
    BucketWhenUsable(c, b, u);
    if Usable(c, b) {
      hide Usable;
      Tenths(u, c.Space(b), ix);
      if ix > 0 {
        Tenths(u, c.Space(b), ix - 1);
      }
    }
  }

  lemma BucketWhenUsable(c: Chip, b: nat, u: real)
    requires c.Valid() && b < c.Bins()
    ensures if Usable(c, b) then c.Space(b) > 0.0 && c.BucketId(b, u) == Clipped(Trunc(u / c.Space(b) * 10.0)) else c.BucketId(b, u) == -1
  {
    hide Chip.Area, Chip.Space, Trunc;
    UsableSpace(c, b);
    Fifth(c.unit * c.unit);
  }

  lemma Fifth(a: real)
    ensures a * 0.2 * 5.0 == a && 0.2 * a * 5.0 == a
  {
  }

  function Clipped(n: int): int {
    if n < 0 then 0 else if n > 9 then 9 else n
  }

  lemma UsableSpace(c: Chip, b: nat)
    requires c.Valid() && b < c.Bins()
    ensures c.unit * c.unit > 0.0 && (Usable(c, b) ==> c.Area(b) > 0.0 && c.Space(b) > 0.0)
  {
    hide Chip.Area, Chip.Space;
    Squared(c.unit);
  }

  lemma Squared(u: real)
    requires u > 0.0
    ensures u * u > 0.0
  {
  }

  lemma Tenths(u: real, space: real, ix: int)
    requires space > 0.0 && 0 <= ix < 10
    ensures ix > 0 ==> (Trunc(u / space * 10.0) >= ix <==> 10.0 * u >= ix as real * space)
    ensures Trunc(u / space * 10.0) <= ix <==> 10.0 * u < (ix + 1) as real * space
  {
    TenTimes(u, space);
    TenthsOf(u / space * 10.0, u, space, ix);
  }

  lemma TenthsOf(x: real, u: real, space: real, ix: int)
    requires space > 0.0 && 0 <= ix < 10 && x * space == 10.0 * u
    ensures ix > 0 ==> (Trunc(x) >= ix <==> 10.0 * u >= ix as real * space)
    ensures Trunc(x) <= ix <==> 10.0 * u < (ix + 1) as real * space
  {
    var low, high := ix as real, (ix + 1) as real;
    Scale(x, space, low);
    Scale(x, space, high);
    Truncated(x, ix);
    assert Trunc(x) <= ix <==> x < high;
    assert 10.0 * u < high * space <==> x < high;
    assert high * space == (ix + 1) as real * space;
  }

  lemma TenTimes(u: real, space: real)
    requires space > 0.0
    ensures u / space * 10.0 * space == 10.0 * u
  {
    var r := u / space;
    assert r * space == u;
    assert r * 10.0 * space == 10.0 * (r * space);
  }

  lemma Truncated(x: real, n: nat)
    ensures n > 0 ==> (Trunc(x) >= n <==> x >= n as real)
    ensures Trunc(x) <= n <==> x < (n + 1) as real
  {
  }

  lemma Scale(a: real, space: real, k: real)
    requires space > 0.0
    ensures a * space >= k * space <==> a >= k
  {
    assert (a - k) * space == a * space - k * space;
    if a >= k {
      assert (a - k) * space >= 0.0;
    } else {
      assert (k - a) * space > 0.0;
    }
  }

  // ----- what the bins cost

  /** The bins full to this tenth. */
  ghost function Tenth(c: Chip, u: seq<real>, ix: int): (s: set<nat>)
    requires c.Valid() && |u| == c.Bins()
  {
    set b: nat | b < c.Bins() && InTenth(c, b, u[b], ix)
  }

  /** How full every bin is, relative to its space. */
  ghost function Fullness(c: Chip, u: seq<real>): (r: seq<real>)
    requires c.Valid() && |u| == c.Bins()
    ensures |r| == c.Bins()
  {
    seq(c.Bins(), b requires 0 <= b < c.Bins() => if Usable(c, b) && c.Space(b) != 0.0 then u[b] / c.Space(b) else 0.0)
  }

  /** The tenth reaches over the target. */
  predicate Reaches(c: Chip, ix: int) {
    (ix + 1) as real > 10.0 * c.target
  }

  /** What the bins of a tenth cost: their mean fullness, if the tenth reaches over the target and has any. */
  ghost function TenthCost(c: Chip, u: seq<real>, ix: int): real
    requires c.Valid() && |u| == c.Bins()
  {
    var bins := Tenth(c, u, ix);
    if Reaches(c, ix) && bins != {} then Sum(Masked(Fullness(c, u), bins)) / |bins| as real else 0.0
  }

  ghost function TenthCosts(c: Chip, u: seq<real>): (s: seq<real>)
    requires c.Valid() && |u| == c.Bins()
    ensures |s| == BUCKETS
  {
    seq(BUCKETS, ix requires 0 <= ix < BUCKETS => TenthCost(c, u, ix))
  }

  /** The objective adds up the costs of the tenths. */
  lemma {:induction false} CostOfTenths(c: Chip, pos: Placement)
    requires c.Valid() && |pos| == |c.width|
    ensures c.Cost(pos) == Sum(TenthCosts(c, c.Utils(pos)))
  {
    var u := c.Utils(pos);
    CostBelow(c, u, BUCKETS);
    assert TenthCosts(c, u)[..BUCKETS] == TenthCosts(c, u);
  }

  lemma {:induction false} CostBelow(c: Chip, u: seq<real>, i: nat)
    requires c.Valid() && |u| == c.Bins() && i <= BUCKETS
    ensures c.FofBelow(c.BucketsOf(u), c.TotalsOf(u), i) == Sum(TenthCosts(c, u)[..i])
  {
    hide TenthCost, Sum, Chip.Bucket, Chip.Ratios;
    var s := TenthCosts(c, u);
    if i == 0 {
      assert s[..0] == [];
      NoneCosts(s[..0]);
    } else if i as real / BUCKETS as real <= c.target {
      TenthsBelow(c, u, i);
      NoneCosts(s[..i]);
    } else {
      CostBelow(c, u, i - 1);
      SumPrefix(s, i - 1);
      OneTenth(c, u, i - 1);
    }
  }

  lemma NoneCosts(s: seq<real>)
    requires forall k :: 0 <= k < |s| ==> s[k] == 0.0
    ensures Sum(s) == 0.0
  {
    SumZero(s);
  }

  lemma TenthsBelow(c: Chip, u: seq<real>, i: nat)
    requires c.Valid() && |u| == c.Bins() && i <= BUCKETS && i as real / BUCKETS as real <= c.target
    ensures forall k :: 0 <= k < i ==> TenthCosts(c, u)[k] == 0.0
  {
  }

  lemma {:induction false} OneTenth(c: Chip, u: seq<real>, ix: nat)
    requires c.Valid() && |u| == c.Bins() && ix < BUCKETS && (ix + 1) as real / BUCKETS as real > c.target
    ensures var (bins, total) := (c.BucketsOf(u)[ix], c.TotalsOf(u)[ix]);
      TenthCost(c, u, ix) == if bins != {} then total / |bins| as real else 0.0
  {
    hide InTenth, Chip.BucketId, Sum, Chip.Space, Usable;
    forall b: nat | b < c.Bins()
      ensures b in Tenth(c, u, ix) <==> b in c.Bucket(u, ix)
      ensures b in Tenth(c, u, ix) ==> Fullness(c, u)[b] == c.Ratios(u)[b]
    {
      BucketIsTenth(c, b, u[b], ix);
      TenthSpace(c, b, u[b], ix);
    }
    assert Tenth(c, u, ix) == c.Bucket(u, ix);
    assert Masked(Fullness(c, u), Tenth(c, u, ix)) == Masked(c.Ratios(u), c.Bucket(u, ix));
  }

  lemma TenthSpace(c: Chip, b: nat, u: real, ix: int)
    requires c.Valid() && b < c.Bins()
    ensures InTenth(c, b, u, ix) ==> Usable(c, b) && c.Space(b) > 0.0
  {
    UsableSpace(c, b);
  }

  // ----- when that is nothing

  /** The bin is so full that its tenth reaches over the target. */
  ghost predicate Over(c: Chip, b: nat, u: real)
    requires c.Valid() && b < c.Bins()
  {
    exists ix :: InTenth(c, b, u, ix) && Reaches(c, ix)
  }

  /** A placement costs nothing if and only if no bin that anything covers is over the target. */
  lemma {:induction false} CostsNothingIff(c: Chip, pos: Placement)
    requires c.Valid() && |pos| == |c.width|
    ensures c.Cost(pos) == 0.0 <==> forall b: nat :: b < c.Bins() && Over(c, b, c.Utils(pos)[b]) ==> c.Utils(pos)[b] == 0.0
  {
    hide Sum, InTenth, Chip.Utils, Chip.Cost, Usable, Chip.Space;
    var u := c.Utils(pos);
    CostOfTenths(c, pos);
    CoversNotNegative(c, pos);
    var s := TenthCosts(c, u);
    forall ix: nat | ix < BUCKETS
      ensures s[ix] >= 0.0 && (s[ix] == 0.0 <==> !Reaches(c, ix) || forall b :: b in Tenth(c, u, ix) ==> u[b] <= 0.0)
    {
      TenthPositive(c, u, ix);
    }
    ZeroSum(s);
    if b: nat :| b < c.Bins() && Over(c, b, u[b]) && u[b] != 0.0 {
      var ix :| InTenth(c, b, u[b], ix) && Reaches(c, ix);
      assert 0 <= ix < 10 by {
        TenthRange(c, b, u[b], ix);
      }
      assert b in Tenth(c, u, ix) && s[ix] != 0.0;
    } else {
      forall ix: nat | ix < BUCKETS
        ensures s[ix] == 0.0
      {
        forall b | b in Tenth(c, u, ix) && Reaches(c, ix)
          ensures u[b] <= 0.0
        {
          assert InTenth(c, b, u[b], ix);
        }
      }
    }
  }

  lemma TenthRange(c: Chip, b: nat, u: real, ix: int)
    requires c.Valid() && b < c.Bins() && InTenth(c, b, u, ix)
    ensures 0 <= ix < 10
  {
  }

  lemma {:induction false} ZeroSum(s: seq<real>)
    requires forall k :: 0 <= k < |s| ==> s[k] >= 0.0
    ensures Sum(s) >= 0.0 && (Sum(s) == 0.0 <==> forall k :: 0 <= k < |s| ==> s[k] == 0.0)
  {
    if s != [] {
      ZeroSum(s[..|s| - 1]);
    }
  }

  /** Mean fullness is not negative, and nothing only if all of it is. */
  lemma {:induction false} TenthPositive(c: Chip, u: seq<real>, ix: nat)
    requires c.Valid() && |u| == c.Bins() && ix < BUCKETS && forall b :: 0 <= b < |u| ==> u[b] >= 0.0
    ensures TenthCost(c, u, ix) >= 0.0
    ensures TenthCost(c, u, ix) == 0.0 <==> !Reaches(c, ix) || forall b :: b in Tenth(c, u, ix) ==> u[b] <= 0.0
  {
    hide Sum, InTenth, Chip.Space, Usable;
    var bins, f := Tenth(c, u, ix), Fullness(c, u);
    var m := Masked(f, bins);
    forall b: nat | b < |m|
      ensures m[b] >= 0.0 && (m[b] == 0.0 <==> b !in bins || u[b] <= 0.0)
    {
      if b in bins {
        TenthSpace(c, b, u[b], ix);
        RatioSign(u[b], c.Space(b));
      }
    }
    ZeroSum(m);
    if bins != {} {
      RatioSign(Sum(m), |bins| as real);
    }
  }

  lemma RatioSign(a: real, b: real)
    requires a >= 0.0 && b > 0.0
    ensures a / b >= 0.0 && (a / b == 0.0 <==> a == 0.0)
  {
    assert a / b * b == a;
  }

  lemma {:induction false} CoversNotNegative(c: Chip, pos: Placement)
    requires c.Valid() && |pos| == |c.width|
    ensures forall b: nat :: b < c.Bins() ==> c.Utils(pos)[b] >= 0.0
  {
    hide Sum;
    forall b: nat | b < c.Bins()
      ensures Sum(c.Covers(pos, b)) >= 0.0
    {
      forall i | 0 <= i < |pos|
        ensures c.Covers(pos, b)[i] >= 0.0
      {
        CoverNotNegative(c, b, i, pos[i]);
      }
      ZeroSum(c.Covers(pos, b));
    }
  }

  lemma CoverNotNegative(c: Chip, b: nat, i: nat, p: Point)
    requires c.Valid() && b < c.Bins() && i < |c.width|
    ensures c.Cover(b, i, p) >= 0.0
  {
    hide Chip.Lx, Chip.Ly, Chip.Hx, Chip.Hy;
    var lx, hx := Max(c.Lx(b), p.x - 0.5 * c.width[i]), Min(c.Hx(b), p.x + 0.5 * c.width[i]);
    var ly, hy := Max(c.Ly(b), p.y - 0.5 * c.height[i]), Min(c.Hy(b), p.y + 0.5 * c.height[i]);
    if hx - lx > MIN_OVERLAP && hy - ly > MIN_OVERLAP {
      Product(hx - lx, hy - ly);
    }
  }

  lemma Product(a: real, b: real)
    requires a >= 0.0 && b >= 0.0
    ensures a * b >= 0.0
  {
  }

  /** When one bin alone is over the target, a placement costs exactly how full that bin is. */
  lemma {:induction false} OneOver(c: Chip, pos: Placement, b: nat)
    requires c.Valid() && |pos| == |c.width| && b < c.Bins() && Over(c, b, c.Utils(pos)[b])
    requires forall a: nat :: a < c.Bins() && Over(c, a, c.Utils(pos)[a]) ==> a == b
    ensures c.Space(b) > 0.0 && c.Cost(pos) == c.Utils(pos)[b] / c.Space(b)
  {
    hide Sum, InTenth, Chip.Utils, Chip.Cost, Usable, Chip.Space, Fullness;
    var u := c.Utils(pos);
    var ix :| InTenth(c, b, u[b], ix) && Reaches(c, ix);
    TenthRange(c, b, u[b], ix);
    TenthSpace(c, b, u[b], ix);
    CostOfTenths(c, pos);
    var s := TenthCosts(c, u);
    assert b in Tenth(c, u, ix);
    forall k: nat | k < BUCKETS && Reaches(c, k)
      ensures Tenth(c, u, k) == if k == ix then {b} else {}
    {
      forall a | a in Tenth(c, u, k)
        ensures a == b && k == ix
      {
        assert Over(c, a, u[a]);
        TenthOnce(c, b, u[b], k, ix);
      }
    }
    OnlyOne(s, ix);
    OneBinMean(c, u, b);
    assert |{b}| as real == 1.0;
  }

  lemma TenthOnce(c: Chip, b: nat, u: real, ix: int, k: int)
    requires c.Valid() && b < c.Bins() && InTenth(c, b, u, ix) && InTenth(c, b, u, k)
    ensures ix == k
  {
    BucketIsTenth(c, b, u, ix);
    BucketIsTenth(c, b, u, k);
  }

  lemma {:induction false} OnlyOne(s: seq<real>, k: nat)
    requires k < |s| && forall i :: 0 <= i < |s| && i != k ==> s[i] == 0.0
    ensures Sum(s) == s[k]
  {
    SumWithout(s, k);
    NoneCosts(s[..k] + s[k + 1..]);
  }

  lemma {:induction false} OneBinMean(c: Chip, u: seq<real>, b: nat)
    requires c.Valid() && |u| == c.Bins() && b < c.Bins() && Usable(c, b) && c.Space(b) > 0.0
    ensures Sum(Masked(Fullness(c, u), {b})) == u[b] / c.Space(b)
  {
    hide Usable, Chip.Space;
    OnlyOne(Masked(Fullness(c, u), {b}), b);
  }
}
