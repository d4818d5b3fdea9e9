/** Which windows a segment is swept by (detailed_interleaving.cxx, dp): for each of its positions, whether a window
    begins there and how far it goes. */
module InterleaveWindows {
  import IntMath

  /** The run of single-height cells around position i: where it begins, */
  function RunStart(single: seq<bool>, i: nat): (a: nat)
    requires i < |single| && single[i]
    ensures a <= i && (forall k :: a <= k <= i ==> single[k]) && (a > 0 ==> !single[a - 1])
  {
    if i > 0 && single[i - 1] then RunStart(single, i - 1) else i
  }

  /** and behind which position it ends. */
  function RunEnd(single: seq<bool>, i: nat): (b: nat)
    requires i < |single| && single[i]
    ensures i < b <= |single| && (forall k :: i <= k < b ==> single[k]) && (b < |single| ==> !single[b])
    decreases |single| - i
  {
    if i + 1 < |single| && single[i + 1] then RunEnd(single, i + 1) else i + 1
  }

  /** Positions first..last - 1. */
  datatype Stretch = Stretch(first: nat, last: nat)

  /** The window started at position i: `size` cells, or what is left of the run; at the run's end it is pulled back to
      `size` cells, if the run has them. */
  function WindowAt(single: seq<bool>, size: nat, i: nat): (w: Stretch)
    requires i < |single| && single[i] && size >= 1
    ensures RunStart(single, i) <= w.first <= i < w.last <= RunEnd(single, i) && w.last <= w.first + size
  {
    var a, b := RunStart(single, i), RunEnd(single, i);
    if i + size < b then Stretch(i, i + size) else Stretch(if b >= a + size then b - size else a, b)
  }

  /** A window is tried from every `step`-th position of a run, if it has at least five cells. */
  predicate Begins(single: seq<bool>, size: nat, step: nat, i: nat)
    requires i < |single| && size >= 1 && step >= 1
  {
    && single[i] && OnStep(i - RunStart(single, i), step)
    && var w := WindowAt(single, size, i); w.last - w.first >= 5
  }

  predicate OnStep(m: nat, step: nat)
    requires step >= 1
  {
    m % step == 0
  }

  lemma FirstStep(step: nat)
    requires step >= 1
    ensures OnStep(0, step)
  {
  }

  /** The windows begun before position n, in order. */
  function Windows(single: seq<bool>, size: nat, step: nat, n: nat): (ws: seq<Stretch>)
    requires n <= |single| && size >= 1 && step >= 1
    ensures forall k :: 0 <= k < |ws| ==> ws[k].first < ws[k].last <= |single|
  {
    if n == 0 then []
    else Windows(single, size, step, n - 1) + if Begins(single, size, step, n - 1) then [WindowAt(single, size, n - 1)] else []
  }

  /** Between positions where none begins there are no windows. */
  lemma {:induction false} NoWindows(single: seq<bool>, size: nat, step: nat, a: nat, b: nat)
    requires a <= b <= |single| && size >= 1 && step >= 1 && forall k :: a <= k < b ==> !Begins(single, size, step, k)
    ensures Windows(single, size, step, b) == Windows(single, size, step, a)
  {
    if a < b {
      NoWindows(single, size, step, a, b - 1);
    }
  }

  lemma NoRun(single: seq<bool>, size: nat, step: nat, a: nat, b: nat)
    requires a <= b <= |single| && size >= 1 && step >= 1 && forall k :: a <= k < b ==> !single[k]
    ensures Windows(single, size, step, b) == Windows(single, size, step, a)
  {
    NoWindows(single, size, step, a, b);
  }

  lemma NoneYet(single: seq<bool>, size: nat, step: nat)
    requires size >= 1 && step >= 1
    ensures Windows(single, size, step, 0) == []
  {
  }

  lemma TooFew(single: seq<bool>, size: nat, step: nat)
    requires |single| < 5 && size >= 1 && step >= 1
    ensures Windows(single, size, step, |single|) == []
  {
    NoWindows(single, size, step, 0, |single|);
  }

  /** All positions of a run have the same begin and end. */
  lemma {:induction false} RunIs(single: seq<bool>, a: nat, b: nat, i: nat)
    requires a <= i < b <= |single| && (forall k :: a <= k < b ==> single[k])
    requires (a > 0 ==> !single[a - 1]) && (b < |single| ==> !single[b])
    ensures RunStart(single, i) == a && RunEnd(single, i) == b
  {
    var s, e := RunStart(single, i), RunEnd(single, i);
    assert s >= a && e <= b;
    assert s <= a && e >= b;
  }

  /** From one window start of a run to the next. */
  lemma {:induction false} NextWindow(single: seq<bool>, size: nat, step: nat, a: nat, b: nat, i: nat)
    requires a <= i < b <= |single| && (forall k :: a <= k < b ==> single[k]) && size >= 1 && step >= 1
    requires (a > 0 ==> !single[a - 1]) && (b < |single| ==> !single[b]) && OnStep(i - a, step)
    ensures var w := WindowAt(single, size, i); var next := if i + step <= b then i + step else b;
      Windows(single, size, step, next) == if w.last - w.first >= 5 then Windows(single, size, step, i) + [w] else Windows(single, size, step, i)
  {
    hide RunStart, RunEnd, WindowAt, OnStep;
    var next := if i + step <= b then i + step else b;
    RunIs(single, a, b, i);
    forall k | i + 1 <= k < next
      ensures !Begins(single, size, step, k)
    {
      RunIs(single, a, b, k);
      NotMultiple(i - a, k - i, step);
    }
    NoWindows(single, size, step, i + 1, next);
  }

  lemma NotMultiple(m: nat, d: nat, step: nat)
    requires 0 < d < step && OnStep(m, step)
    ensures !OnStep(m + d, step)
  {
    var q := m / step;
    assert m == q * step;
    ModOf(q, d, step);
  }

  lemma ModOf(q: nat, d: nat, step: nat)
    requires d < step
    ensures (q * step + d) % step == d
  {
    IntMath.DivMod(q, d, step);
  }

  // ----- what the windows cover

  /** Cells of a run of at least five are all in some window, if a window is no shorter than the step between two. */
  lemma {:induction false} EveryCellInWindow(single: seq<bool>, size: nat, step: nat, i: nat)
    requires i < |single| && single[i] && size >= step >= 1 && size >= 5 && RunEnd(single, i) - RunStart(single, i) >= 5
    ensures exists w :: w in Windows(single, size, step, |single|) && w.first <= i < w.last
  {
    var a, b := RunStart(single, i), RunEnd(single, i);
    RunIs(single, a, b, i);
    hide RunStart, RunEnd, OnStep;
    var d := LastStart(i - a, step);
    var k := i - d;
    RunIs(single, a, b, k);
    assert Begins(single, size, step, k);
    InWindows(single, size, step, k, |single|);
    assert WindowAt(single, size, k).first <= i < WindowAt(single, size, k).last;
  }

  lemma LastStart(m: nat, step: nat) returns (d: nat)
    requires step >= 1
    ensures d < step && d <= m && OnStep(m - d, step)
  {
    var q := m / step;
    d := m % step;
    assert m - d == q * step;
    ModOf(q, 0, step);
  }

  lemma {:induction false} InWindows(single: seq<bool>, size: nat, step: nat, i: nat, n: nat)
    requires i < n <= |single| && size >= 1 && step >= 1 && Begins(single, size, step, i)
    ensures WindowAt(single, size, i) in Windows(single, size, step, n)
  {
    if i + 1 < n {
      InWindows(single, size, step, i, n - 1);
    }
  }
}
