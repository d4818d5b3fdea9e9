/** The position of a point along the clusterer's space-filling curve (SinkClustering.cpp), in exact
    arithmetic. */
module Theta {
  import opened RealMath

  const EPSILON: real := 1.0 / 4503599627370496.0

  predicate IsOne(pos: real) {
    1.0 - pos < EPSILON
  }

  function Pow2(e: nat): (r: real)
    ensures r >= 1.0
  {
    if e == 0 then 1.0 else 2.0 * Pow2(e - 1)
  }

  /** x is a multiple of 2^-e in the unit interval. */
  ghost predicate Dyadic(x: real, e: nat) {
    0.0 <= x <= 1.0 && Whole(x * Pow2(e))
  }

  /** The number of a quadrant along the curve. */
  function NumVertex(x: int, y: int): (q: int)
    requires 0 <= x <= 1 && 0 <= y <= 1
    ensures 0 <= q < 4
  {
    if x == 0 && y == 0 then 0 else if x == 0 && y == 1 then 1 else if x == 1 && y == 1 then 2 else 3
  }

  function Half(x: real): int {
    if (2.0 * x).Floor < 1 then (2.0 * x).Floor else 1
  }

  function Quadrant(x: real, y: real): (q: int)
    requires 0.0 <= x <= 1.0 && 0.0 <= y <= 1.0
    ensures 0 <= q < 4
  {
    NumVertex(Half(x), Half(y))
  }

  /** Where a coordinate is within its half, seen from the middle. */
  function Fold(x: real): real {
    2.0 * Abs(x - 0.5)
  }

  function Fraction(r: real): (f: real)
    requires r >= 0.0
    ensures 0.0 <= f < 1.0
  {
    r - r.Floor as real
  }

  /** Folding drops the exponent by one. */
  lemma {:induction false} FoldDyadic(x: real, e: nat)
    requires Dyadic(x, e)
    ensures e > 0 ==> Dyadic(Fold(x), e - 1)
    ensures e == 0 ==> Fold(x) == 1.0 && IsOne(Fold(x))
  {
    if e > 0 {
      var b := FoldWhole(x, e);
      hide Fold;
      DyadicBy(Fold(x), e - 1, b);
    }
  }

  lemma DyadicBy(x: real, e: nat, a: int)
    requires 0.0 <= x <= 1.0 && x * Pow2(e) == a as real
    ensures Dyadic(x, e)
  {
  }

  lemma {:induction false} FoldWhole(x: real, e: nat) returns (b: int)
    requires Dyadic(x, e) && e > 0
    ensures 0.0 <= Fold(x) <= 1.0 && Fold(x) * Pow2(e - 1) == b as real
  {
    var a, p := (x * Pow2(e)).Floor, Pow2(e - 1);
    WholePow(e - 1);
    assert x * Pow2(e) == 2.0 * (x * p);
    b := if x >= 0.5 then a - p.Floor else p.Floor - a;
    if x >= 0.5 {
      assert (2.0 * x - 1.0) * p == 2.0 * (x * p) - p;
    } else {
      assert (1.0 - 2.0 * x) * p == p - 2.0 * (x * p);
    }
  }

  lemma {:induction false} WholePow(e: nat)
    ensures Whole(Pow2(e))
  {
    if e > 0 {
      WholePow(e - 1);
      assert Pow2(e) == (2 * Pow2(e - 1).Floor) as real;
    }
  }

  /** The position on the whole curve of position t within a quadrant, run backwards in every other one. */
  function Along(quad: int, t: real): (theta: real)
    requires 0 <= quad < 4 && 0.0 <= t < 1.0
    ensures 0.0 <= theta < 1.0
  {
    Fraction((quad as real + (if quad % 2 == 1 then 1.0 - t else t)) / 4.0 + 7.0 / 8.0)
  }

  /** The recursion ends for every point with power-of-two denominators: the exponent drops at each call,
      and one call after it has reached zero both coordinates are one. */
  function ComputeTheta(x: real, y: real, ghost e: nat): (theta: real)
    requires Dyadic(x, e) && Dyadic(y, e)
    ensures 0.0 <= theta < 1.0
    decreases if IsOne(x) && IsOne(y) then 0 else e + 1
  {
    if IsOne(x) && IsOne(y) then 0.5
    else
      FoldDyadic(x, e);
      FoldDyadic(y, e);
      OneIsDyadic();
      Along(Quadrant(x, y), ComputeTheta(Fold(x), Fold(y), if e == 0 then 0 else e - 1))
  }

  lemma OneIsDyadic()
    ensures Dyadic(1.0, 0)
  {
    assert Whole(1.0 * Pow2(0));
  }

  /** The exponent one computes with does not matter. */
  lemma {:induction false} SameTheta(x: real, y: real, e: nat, f: nat)
    requires Dyadic(x, e) && Dyadic(y, e) && Dyadic(x, f) && Dyadic(y, f)
    ensures ComputeTheta(x, y, e) == ComputeTheta(x, y, f)
    decreases e
  {
    if !(IsOne(x) && IsOne(y)) {
      hide Dyadic, Along, Quadrant, Fold, IsOne;
      FoldDyadic(x, e);
      FoldDyadic(y, e);
      FoldDyadic(x, f);
      FoldDyadic(y, f);
      OneIsDyadic();
      if e > 0 {
        SameTheta(Fold(x), Fold(y), e - 1, if f == 0 then 0 else f - 1);
      }
    }
  }

  /** A part of the circle: a quarter long, from `start`. */
  function OnArc(start: real, t: real): real
    requires start + t / 4.0 >= 0.0
  {
    Fraction(start + t / 4.0)
  }

  /** The curve goes through one quadrant after the other: theta lies on the quadrant's own quarter of the
      circle, which begins at quad / 4 + 7/8. */
  lemma {:induction false} OwnQuarter(x: real, y: real, e: nat) returns (t: real)
    requires Dyadic(x, e) && Dyadic(y, e) && !(IsOne(x) && IsOne(y))
    ensures 0.0 <= t <= 1.0 && ComputeTheta(x, y, e) == OnArc(Quadrant(x, y) as real / 4.0 + 7.0 / 8.0, t)
  {
    FoldDyadic(x, e);
    FoldDyadic(y, e);
    OneIsDyadic();
    var quad, inner := Quadrant(x, y), ComputeTheta(Fold(x), Fold(y), if e == 0 then 0 else e - 1);
    t := if quad % 2 == 1 then 1.0 - inner else inner;
    assert (quad as real + t) / 4.0 + 7.0 / 8.0 == quad as real / 4.0 + 7.0 / 8.0 + t / 4.0;
  }

  // ----- the way of the curve

  /** The curve goes up from the first quadrant, then to the right, then down, and back to the left. */
  lemma QuadrantsInTurn(x: int, y: int, x': int, y': int)
    requires 0 <= x <= 1 && 0 <= y <= 1 && 0 <= x' <= 1 && 0 <= y' <= 1
    ensures NumVertex(x', y') == (NumVertex(x, y) + 1) % 4 <==>
      if x == 0 && y == 0 then x' == 0 && y' == 1
      else if x == 0 then x' == 1 && y' == 1
      else if y == 1 then x' == 1 && y' == 0
      else x' == 0 && y' == 0
    ensures NumVertex(x, y) == 0 <==> x == 0 && y == 0
  {
  }

  lemma HalfIs(x: real)
    requires 0.0 <= x <= 1.0
    ensures Half(x) == if x < 0.5 then 0 else 1
  {
  }

  /** A coordinate is known by its half and by where it is folded to. */
  lemma HalfAndFold(x: real, x': real)
    requires 0.0 <= x <= 1.0 && 0.0 <= x' <= 1.0 && Half(x) == Half(x') && Fold(x) == Fold(x')
    ensures x == x'
  {
    HalfIs(x);
    HalfIs(x');
  }

  lemma SameQuadrant(x: real, y: real, x': real, y': real)
    requires 0.0 <= x <= 1.0 && 0.0 <= y <= 1.0 && 0.0 <= x' <= 1.0 && 0.0 <= y' <= 1.0 && Quadrant(x, y) == Quadrant(x', y')
    ensures Half(x) == Half(x') && Half(y) == Half(y')
  {
    HalfIs(x);
    HalfIs(y);
    HalfIs(x');
    HalfIs(y');
  }

  /** Where on the circle position t of a quadrant is, in quarters from its begin. */
  function Place(quad: int, t: real): real {
    quad as real + if quad % 2 == 1 then 1.0 - t else t
  }

  /** Equal positions are equal places, or the two ends of the curve. */
  lemma AlongPlaces(q: int, t: real, q': int, t': real)
    requires 0 <= q < 4 && 0 <= q' < 4 && 0.0 <= t < 1.0 && 0.0 <= t' < 1.0 && Along(q, t) == Along(q', t')
    ensures Place(q, t) == Place(q', t') || Place(q, t) == Place(q', t') + 4.0 || Place(q, t) + 4.0 == Place(q', t')
  {
    var a, b := Place(q, t) / 4.0 + 7.0 / 8.0, Place(q', t') / 4.0 + 7.0 / 8.0;
    assert a - b == (a.Floor - b.Floor) as real;
    assert 0.0 <= a < 2.0 && 0.0 <= b < 2.0;
  }

  /** Then it is the same position of the same quadrant, or one of the quadrants is odd and the position its end. */
  lemma SamePlace(q: int, t: real, q': int, t': real)
    requires 0 <= q < 4 && 0 <= q' < 4 && 0.0 <= t < 1.0 && 0.0 <= t' < 1.0 && Along(q, t) == Along(q', t')
    ensures (q == q' && t == t') || (q % 2 == 1 && t == 0.0) || (q' % 2 == 1 && t' == 0.0)
  {
    AlongPlaces(q, t, q', t');
  }

  /** Up to 52 binary places only one itself is taken for one. */
  lemma {:induction false} OneExactly(x: real, e: nat)
    requires Dyadic(x, e) && e <= 52
    ensures IsOne(x) <==> x == 1.0
  {
    var w := x * Pow2(e);
    assert Whole(w);
    hide Pow2, Whole;
    if x < 1.0 {
      PowBound(e);
      WholePow(e);
      OffOne(x, Pow2(e), w);
      Divided(1.0 - x, Pow2(e), 4503599627370496.0);
    }
  }

  lemma OffOne(x: real, p: real, w: real)
    requires x < 1.0 && p >= 1.0 && w == x * p && Whole(w) && Whole(p)
    ensures (1.0 - x) * p >= 1.0
  {
    assert (1.0 - x) * p == p - w;
    Positive(1.0 - x, p);
    WholeGap(w, p);
  }

  lemma WholeGap(a: real, b: real)
    requires Whole(a) && Whole(b) && a < b
    ensures b - a >= 1.0
  {
    assert a.Floor < b.Floor;
  }

  lemma Positive(a: real, b: real)
    requires a > 0.0 && b > 0.0
    ensures a * b > 0.0
  {
  }

  lemma Divided(a: real, p: real, m: real)
    requires a * p >= 1.0 && 0.0 < p <= m && a > 0.0
    ensures a >= 1.0 / m
  {
    assert a * m >= a * p;
    assert 1.0 / m * m == 1.0;
    assert (a - 1.0 / m) * m >= 0.0;
  }

  lemma {:induction false} PowBound(e: nat)
    requires e <= 52
    ensures Pow2(e) <= 4503599627370496.0
  {
    PowMono(e, 52);
    assert Pow2(52) == 4503599627370496.0 by {
      PowSum(26, 26);
      PowSum(13, 13);
      assert Pow2(13) == 8192.0;
    }
  }

  lemma {:induction false} PowMono(e: nat, f: nat)
    requires e <= f
    ensures Pow2(e) <= Pow2(f)
  {
    if e < f {
      PowMono(e, f - 1);
    }
  }

  lemma {:induction false} PowSum(e: nat, f: nat)
    ensures Pow2(e + f) == Pow2(e) * Pow2(f)
  {
    if e > 0 {
      PowSum(e - 1, f);
      assert Pow2(e) * Pow2(f) == 2.0 * (Pow2(e - 1) * Pow2(f));
    }
  }

  /** The position of the point within its quadrant. */
  ghost function Inner(x: real, y: real, e: nat): (t: real)
    requires Dyadic(x, e) && Dyadic(y, e) && !(IsOne(x) && IsOne(y))
    ensures 0.0 <= t < 1.0 && ComputeTheta(x, y, e) == Along(Quadrant(x, y), t)
    ensures var d := if e == 0 then 0 else e - 1; Dyadic(Fold(x), d) && Dyadic(Fold(y), d) && t == ComputeTheta(Fold(x), Fold(y), d)
  {
    FoldDyadic(x, e);
    FoldDyadic(y, e);
    OneIsDyadic();
    ComputeTheta(Fold(x), Fold(y), if e == 0 then 0 else e - 1)
  }

  lemma InUnit(x: real, e: nat)
    requires Dyadic(x, e)
    ensures 0.0 <= x <= 1.0
  {
  }

  lemma Corner(x: real)
    requires Dyadic(x, 0)
    ensures x == 0.0 || x == 1.0
  {
  }

  /** Half way round is one corner. */
  lemma {:induction false} HalfWayRound(x: real, y: real, e: nat)
    requires Dyadic(x, e) && Dyadic(y, e) && e <= 52 && ComputeTheta(x, y, e) == 0.5
    ensures x == 1.0 && y == 1.0
    decreases e
  {
    InUnit(x, e);
    InUnit(y, e);
    hide Dyadic, IsOne, Along, Fold, Quadrant;
    OneExactly(x, e);
    OneExactly(y, e);
    if !(IsOne(x) && IsOne(y)) {
      var t := Inner(x, y, e);
      MiddleOfThird(Quadrant(x, y), t);
      HalvesOf(x, y);
      if e == 0 {
        Corner(x);
        Corner(y);
      } else {
        HalfWayRound(Fold(x), Fold(y), e - 1);
        FoldedToOne(x);
        FoldedToOne(y);
      }
    }
  }

  lemma MiddleOfThird(q: int, t: real)
    requires 0 <= q < 4 && 0.0 <= t < 1.0 && Along(q, t) == 0.5
    ensures q == 2 && t == 0.5
  {
  }

  lemma MiddleOfFirst(q: int, t: real)
    requires 0 <= q < 4 && 0.0 <= t < 1.0 && Along(q, t) == 0.0
    ensures q == 0 && t == 0.5
  {
  }

  lemma HalvesOf(x: real, y: real)
    requires 0.0 <= x <= 1.0 && 0.0 <= y <= 1.0
    ensures Quadrant(x, y) == 2 <==> x >= 0.5 && y >= 0.5
    ensures Quadrant(x, y) == 0 <==> x < 0.5 && y < 0.5
  {
    HalfIs(x);
    HalfIs(y);
  }

  lemma FoldedToOne(x: real)
    requires 0.0 <= x <= 1.0 && Fold(x) == 1.0
    ensures x == 0.0 || x == 1.0
  {
  }

  /** The begin is the other corner. */
  lemma {:induction false} BeginOfCurve(x: real, y: real, e: nat)
    requires Dyadic(x, e) && Dyadic(y, e) && e <= 52 && ComputeTheta(x, y, e) == 0.0
    ensures x == 0.0 && y == 0.0
  {
    InUnit(x, e);
    InUnit(y, e);
    hide Dyadic, IsOne, Along, Fold, Quadrant;
    if IsOne(x) && IsOne(y) {
    } else {
      var t := Inner(x, y, e);
      MiddleOfFirst(Quadrant(x, y), t);
      HalvesOf(x, y);
      HalfWayRound(Fold(x), Fold(y), if e == 0 then 0 else e - 1);
      FoldedToOne(x);
      FoldedToOne(y);
    }
  }

  /** The curve is at no point twice: two points with up to 52 binary places and the same theta are one. */
  lemma {:induction false} NoPointTwice(x: real, y: real, x': real, y': real, e: nat)
    requires Dyadic(x, e) && Dyadic(y, e) && Dyadic(x', e) && Dyadic(y', e) && e <= 52
    requires ComputeTheta(x, y, e) == ComputeTheta(x', y', e)
    ensures x == x' && y == y'
    decreases e
  {
    InUnit(x, e);
    InUnit(y, e);
    InUnit(x', e);
    InUnit(y', e);
    hide Dyadic, IsOne, Along, Fold, Quadrant;
    if IsOne(x) && IsOne(y) {
      HalfWayRound(x', y', e);
      OneExactly(x, e);
      OneExactly(y, e);
    } else if IsOne(x') && IsOne(y') {
      HalfWayRound(x, y, e);
      OneExactly(x', e);
      OneExactly(y', e);
    } else {
      var q, q', t, t' := Quadrant(x, y), Quadrant(x', y'), Inner(x, y, e), Inner(x', y', e);
      SamePlace(q, t, q', t');
      NotTheEnd(x, y, e);
      NotTheEnd(x', y', e);
      SameQuadrant(x, y, x', y');
      if e == 0 {
        CornerHalf(x, x');
        CornerHalf(y, y');
      } else {
        NoPointTwice(Fold(x), Fold(y), Fold(x'), Fold(y'), e - 1);
        HalfAndFold(x, x');
        HalfAndFold(y, y');
      }
    }
  }

  lemma CornerHalf(x: real, x': real)
    requires Dyadic(x, 0) && Dyadic(x', 0) && Half(x) == Half(x')
    ensures x == x'
  {
    Corner(x);
    Corner(x');
  }

  /** In an odd quadrant no point is at the end, which is the middle of all. */
  lemma {:induction false} NotTheEnd(x: real, y: real, e: nat)
    requires Dyadic(x, e) && Dyadic(y, e) && e <= 52 && !(IsOne(x) && IsOne(y))
    ensures 0.0 <= x <= 1.0 && 0.0 <= y <= 1.0 && (Quadrant(x, y) % 2 == 1 ==> Inner(x, y, e) != 0.0)
  {
    InUnit(x, e);
    InUnit(y, e);
    hide Dyadic, IsOne, Along, Quadrant;
    if Inner(x, y, e) == 0.0 {
      BeginOfCurve(Fold(x), Fold(y), if e == 0 then 0 else e - 1);
      HalvesOf(x, y);
    }
  }

  const THIRD: real := 1.0 / 3.0

  /** Without power-of-two denominators it need not end: one third folds to itself for ever. No double is
      one third: every finite double has a power-of-two denominator. */
  lemma ThirdNeverEnds()
    ensures Fold(THIRD) == THIRD && !IsOne(THIRD)
  {
  }

  lemma {:induction false} ThirdIsNotDyadic(e: nat)
    ensures !Dyadic(THIRD, e)
  {
    if Dyadic(THIRD, e) {
      FoldDyadic(THIRD, e);
      if e > 0 {
        ThirdIsNotDyadic(e - 1);
      }
    }
  }
}
