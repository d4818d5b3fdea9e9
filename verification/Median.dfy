/** Medians: a sum of distances is least between the two middle points, and the distance to an interval is
    half of the distances to its ends. */
module Median {
  import opened RealMath
  import opened Permutations

  ghost function Distances(x: real, s: seq<real>): (d: seq<real>)
    ensures |d| == |s|
  {
    seq(|s|, i requires 0 <= i < |s| => Abs(x - s[i]))
  }

  ghost function Away(x: real, s: seq<real>): real {
    Sum(Distances(x, s))
  }

  ghost predicate Sorted(s: seq<real>) {
    forall i, j :: 0 <= i <= j < |s| ==> s[i] <= s[j]
  }

  lemma {:induction false} AwaySnoc(x: real, s: seq<real>, v: real)
    ensures Away(x, s + [v]) == Away(x, s) + Abs(x - v)
  {
    assert Distances(x, s + [v]) == Distances(x, s) + [Abs(x - v)];
    SumSnoc(Distances(x, s), Abs(x - v));
  }

  /** Taking the first and the last point off. */
  lemma {:induction false} AwayEnds(x: real, s: seq<real>)
    requires |s| >= 2
    ensures Away(x, s) == Abs(x - s[0]) + Away(x, s[1..|s| - 1]) + Abs(x - s[|s| - 1])
  {
    var n := |s| - 1;
    assert s == s[..n] + [s[n]];
    AwaySnoc(x, s[..n], s[n]);
    assert Distances(x, s[..n]) == [Abs(x - s[0])] + Distances(x, s[1..n]);
    SumConcat([Abs(x - s[0])], Distances(x, s[1..n]));
    assert [Abs(x - s[0])][..0] == [];
  }

  /** Nothing is nearer to an even number of points than what lies between the middle two. */
  lemma {:induction false} MiddleIsBest(s: seq<real>, m: nat, x: real, y: real)
    requires Sorted(s) && |s| == 2 * m && m >= 1 && s[m - 1] <= x <= s[m]
    ensures Away(x, s) <= Away(y, s)
    decreases m
  {
    AwayEnds(x, s);
    AwayEnds(y, s);
    var inner := s[1..|s| - 1];
    if m > 1 {
      MiddleIsBest(inner, m - 1, x, y);
    } else {
      assert inner == [];
    }
  }

  /** The order of the points does not matter. */
  lemma {:induction false} AwayPermutation(x: real, s: seq<real>, t: seq<real>)
    requires multiset(s) == multiset(t)
    ensures Away(x, s) == Away(x, t)
  {
    DistancesMultiset(x, s, t);
    SumPermutation(Distances(x, s), Distances(x, t));
  }

  lemma {:induction false} DistancesWithout(x: real, t: seq<real>, k: nat)
    requires k < |t|
    ensures multiset(Distances(x, t)) == multiset(Distances(x, t[..k] + t[k + 1..])) + multiset{Abs(x - t[k])}
  {
    var d := Distances(x, t);
    assert Distances(x, t[..k] + t[k + 1..]) == d[..k] + d[k + 1..];
    MultisetWithout(d, k);
  }

  lemma {:induction false} DistancesMultiset(x: real, s: seq<real>, t: seq<real>)
    requires multiset(s) == multiset(t)
    ensures multiset(Distances(x, s)) == multiset(Distances(x, t))
    decreases |s|
  {
    assert |s| == |multiset(s)| == |multiset(t)| == |t|;
    hide Distances, Abs;
    if s == [] {
      assert t == [];
    } else {
      var n := |s| - 1;
      assert s[n] in multiset(t);
      var k :| 0 <= k < |t| && t[k] == s[n];
      MultisetWithout(t, k);
      MultisetWithout(s, n);
      DistancesMultiset(x, s[..n] + s[n + 1..], t[..k] + t[k + 1..]);
      DistancesWithout(x, s, n);
      DistancesWithout(x, t, k);
    }
  }

  // ----- distance to an interval

  function Gap(x: real, a: real, b: real): real {
    if x < a then a - x else if x > b then x - b else 0.0
  }

  /** The ends of an interval pulled into the chip. */
  function ClampLow(lo: real, hi: real, a: real): real {
    Min(Max(lo, a), hi)
  }

  function ClampHigh(lo: real, hi: real, b: real): real {
    Max(Min(hi, b), lo)
  }

  /** Inside the chip, pulling the ends in shifts the distance by a constant, and then twice the distance
      is the distance to the two ends up to a constant. */
  lemma {:induction false} GapByEnds(lo: real, hi: real, a: real, b: real, x: real, y: real)
    requires a <= b && lo <= x <= hi && lo <= y <= hi
    ensures var p, q := ClampLow(lo, hi, a), ClampHigh(lo, hi, b);
      && lo <= p <= q <= hi
      && 2.0 * (Gap(x, a, b) - Gap(y, a, b)) == (Abs(x - p) + Abs(x - q)) - (Abs(y - p) + Abs(y - q))
  {
  }

  lemma {:induction false} InsertSorted(r: seq<real>, k: nat, v: real)
    requires Sorted(r) && k <= |r|
    requires k > 0 ==> r[k - 1] <= v
    requires k < |r| ==> v <= r[k]
    ensures Sorted(r[..k] + [v] + r[k..])
  {
    var t := r[..k] + [v] + r[k..];
    forall i, j | 0 <= i <= j < |t|
      ensures t[i] <= t[j]
    {
      var p, q := if i < k then i else i - 1, if j < k then j else j - 1;
      if i != k && j != k {
        assert t[i] == r[p] && t[j] == r[q];
      } else if i < k == j {
        assert t[i] == r[i] <= r[k - 1];
      } else if i == k < j {
        assert r[k] <= r[q] == t[j];
      }
    }
  }

  /** Sorting. */
  method SortReals(s: seq<real>) returns (r: seq<real>)
    ensures Sorted(r) && multiset(r) == multiset(s)
  {
    hide Sorted;
    r := [];
    SortedNone();
    for i := 0 to |s|
      invariant Sorted(r) && multiset(r) == multiset(s[..i])
    {
      var k := |r|;
      while k > 0 && r[k - 1] > s[i]
        invariant 0 <= k <= |r| && (k < |r| ==> s[i] <= r[k])
      {
        k := k - 1;
      }
      InsertSorted(r, k, s[i]);
      InsertMultiset(r, k, s[i]);
      assert s[..i + 1] == s[..i] + [s[i]];
      r := r[..k] + [s[i]] + r[k..];
    }
    assert s[..|s|] == s;
  }

  lemma SortedNone()
    ensures Sorted([])
  {
  }
}
