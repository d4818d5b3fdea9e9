/** One axis of a net's bounding box. The engines start a box at the extreme doubles and
    shrink it with min and max; `Empty` stands for that starting value, whose width is 0. */
module Intervals {
  import opened RealMath

  datatype Interval = Empty | Span(lo: real, hi: real) {
    function Width(): real {
      match this
      case Empty => 0.0
      case Span(l, h) => h - l
    }

    function Add(x: real): Interval {
      match this
      case Empty => Span(x, x)
      case Span(l, h) => Span(Min(x, l), Max(x, h))
    }

    predicate Contains(x: real) {
      Span? && lo <= x <= hi
    }
  }

  /** The interval left after adding every coordinate in turn to `start`. */
  function Extend(start: Interval, xs: seq<real>): Interval {
    if xs == [] then start else Extend(start, xs[..|xs| - 1]).Add(xs[|xs| - 1])
  }

  function Hull(xs: seq<real>): Interval {
    Extend(Empty, xs)
  }

  lemma {:induction false} ExtendSnoc(start: Interval, xs: seq<real>, x: real)
    ensures Extend(start, xs + [x]) == Extend(start, xs).Add(x)
  {
    assert (xs + [x])[..|xs|] == xs;
  }

  lemma {:induction false} ExtendPrefix(start: Interval, xs: seq<real>, i: nat)
    requires i < |xs|
    ensures Extend(start, xs[..i + 1]) == Extend(start, xs[..i]).Add(xs[i])
  {
    assert xs[..i + 1] == xs[..i] + [xs[i]];
    ExtendSnoc(start, xs[..i], xs[i]);
  }

  /** A hull of a nonempty list is its exact minimum and maximum: it contains every
      coordinate and both ends are coordinates. */
  lemma {:induction false} HullIsRange(xs: seq<real>)
    requires xs != []
    ensures Hull(xs).Span? && Hull(xs).lo in xs && Hull(xs).hi in xs
    ensures forall x :: x in xs ==> Hull(xs).Contains(x)
  {
    var n := |xs| - 1;
    if n > 0 {
      HullIsRange(xs[..n]);
    }
    assert xs == xs[..n] + [xs[n]];
    ExtendSnoc(Empty, xs[..n], xs[n]);
    assert forall x :: x in xs ==> x in xs[..n] || x == xs[n];
  }

  /** Minimum and maximum determine the hull. */
  lemma {:induction false} HullUnique(xs: seq<real>, lo: real, hi: real)
    requires lo in xs && hi in xs
    requires forall x :: x in xs ==> lo <= x <= hi
    ensures Hull(xs) == Span(lo, hi)
  {
    HullIsRange(xs);
  }

  lemma HullOfOne(a: real)
    ensures Hull([a]) == Span(a, a)
  {
    assert [a][..0] == [] && Extend(Empty, [a][..0]) == Empty;
  }

  lemma HullOfTwo(a: real, b: real)
    ensures Hull([a, b]) == Span(Min(a, b), Max(a, b))
  {
    var xs := [a, b];
    assert xs[0] == a && xs[1] == b;
    HullUnique(xs, Min(a, b), Max(a, b));
  }
}
