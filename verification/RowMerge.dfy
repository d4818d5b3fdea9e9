/** Subrows of one height (architecture.cxx): their intervals are merged, and the gaps get filler. */
module RowMerge {
  import opened Permutations

  datatype Segment = Segment(lo: real, hi: real) {
    predicate Has(x: real) {
      lo <= x <= hi
    }
  }

  /** A blocked stretch of a row, by its centre and width. */
  datatype Filler = Filler(x: real, y: real, width: real, height: real) {
    predicate Inside(at: real) {
      x - 0.5 * width < at < x + 0.5 * width
    }
  }

  datatype Row = Row(left: real, bottom: real, height: real, numSites: int, siteSpacing: real) {
    function Right(): real {
      left + numSites as real * siteSpacing
    }

    function CenterY(): real {
      bottom + 0.5 * height
    }
  }

  // ----- merging intervals

  ghost predicate InSome(s: seq<Segment>, x: real) {
    exists i :: 0 <= i < |s| && s[i].Has(x)
  }

  ghost predicate Proper(s: seq<Segment>) {
    forall i :: 0 <= i < |s| ==> s[i].lo <= s[i].hi
  }

  predicate Before(a: Segment, b: Segment) {
    if a.lo == b.lo then a.hi < b.hi else a.lo < b.lo
  }

  ghost predicate Sorted(s: seq<Segment>) {
    forall i, j :: 0 <= i < j < |s| ==> s[i].lo <= s[j].lo
  }

  /** From left to right with room in between. */
  ghost predicate Separated(s: seq<Segment>) {
    Proper(s) && forall i, j :: 0 <= i < j < |s| ==> s[i].hi < s[j].lo
  }

  method SortSegments(s: seq<Segment>) returns (r: seq<Segment>)
    ensures Sorted(r) && multiset(r) == multiset(s)
  {
    r := [];
    for i := 0 to |s|
      invariant Sorted(r) && multiset(r) == multiset(s[..i])
    {
      var k := |r|;
      while k > 0 && Before(s[i], r[k - 1])
        invariant 0 <= k <= |r| && (k < |r| ==> s[i].lo <= r[k].lo)
      {
        k := k - 1;
      }
      Insert(r, k, s[i]);
      InsertMultiset(r, k, s[i]);
      assert s[..i + 1] == s[..i] + [s[i]];
      r := r[..k] + [s[i]] + r[k..];
    }
    assert s[..|s|] == s;
  }

  lemma {:induction false} Insert(r: seq<Segment>, k: nat, v: Segment)
    requires Sorted(r) && k <= |r|
    requires k > 0 ==> r[k - 1].lo <= v.lo
    requires k < |r| ==> v.lo <= r[k].lo
    ensures Sorted(r[..k] + [v] + r[k..])
  {
    var t := r[..k] + [v] + r[k..];
    forall i, j | 0 <= i < j < |t|
      ensures t[i].lo <= t[j].lo
    {
      var p, q := if i < k then i else i - 1, if j < k then j else j - 1;
      if i != k && j != k {
        assert t[i] == r[p] && t[j] == r[q];
      } else if i < k {
        assert t[i] == r[i] && t[j] == v && r[i].lo <= r[k - 1].lo;
      } else {
        assert t[i] == v && t[j] == r[q] && r[k].lo <= r[q].lo;
      }
    }
  }

  /** The merged intervals, on a stack. */
  method Merge(s: seq<Segment>) returns (stack: seq<Segment>)
    requires s != [] && Sorted(s) && Proper(s)
    ensures stack != [] && Separated(stack)
    ensures forall x :: InSome(stack, x) <==> InSome(s, x)
  {
    stack := [s[0]];
    StartMerge(s);
    for i := 1 to |s|
      invariant stack != [] && Merged(s[..i], stack)
    {
      var top := stack[|stack| - 1];
      ghost var was := stack;
      if top.hi < s[i].lo {
        stack := stack + [s[i]];
      } else {
        if top.hi < s[i].hi {
          top := Segment(top.lo, s[i].hi);
        }
        stack := stack[..|stack| - 1] + [top];
      }
      MergeStep(s, i, was, stack);
    }
    assert s[..|s|] == s;
  }

  /** The stack holds the union of the first intervals. */
  ghost predicate Merged(s: seq<Segment>, stack: seq<Segment>) {
    && s != [] && stack != [] && Separated(stack) && (forall x :: InSome(stack, x) <==> InSome(s, x))
    && stack[|stack| - 1].lo <= s[|s| - 1].lo
  }

  lemma StartMerge(s: seq<Segment>)
    requires s != [] && Proper(s)
    ensures Merged(s[..1], [s[0]])
  {
    assert s[..1] == [s[0]];
  }

  /** What one more interval does to the stack. */
  function Push(stack: seq<Segment>, v: Segment): seq<Segment>
    requires stack != []
  {
    var top := stack[|stack| - 1];
    if top.hi < v.lo then stack + [v]
    else stack[..|stack| - 1] + [if top.hi < v.hi then Segment(top.lo, v.hi) else top]
  }

  lemma {:induction false} MergeStep(s: seq<Segment>, i: nat, was: seq<Segment>, now: seq<Segment>)
    requires 0 < i < |s| && Sorted(s) && Proper(s) && was != [] && Merged(s[..i], was) && now == Push(was, s[i])
    ensures Merged(s[..i + 1], now)
  {
    var v, top := s[i], was[|was| - 1];
    assert top.lo <= s[i - 1].lo <= v.lo;
    PushSeparated(was, v);
    hide Separated, InSome;
    forall x
      ensures InSome(now, x) <==> InSome(s[..i + 1], x)
    {
      PushUnion(was, v, x);
      InSomeSnoc(s[..i], v, x);
      assert s[..i + 1] == s[..i] + [v];
    }
  }

  lemma PushSeparated(was: seq<Segment>, v: Segment)
    requires was != [] && Separated(was) && v.lo <= v.hi && was[|was| - 1].lo <= v.lo
    ensures Separated(Push(was, v))
  {
  }

  lemma InSomeSnoc(s: seq<Segment>, v: Segment, x: real)
    ensures InSome(s + [v], x) <==> InSome(s, x) || v.Has(x)
  {
    if InSome(s, x) {
      var k :| 0 <= k < |s| && s[k].Has(x);
      assert (s + [v])[k].Has(x);
    }
    if v.Has(x) {
      assert (s + [v])[|s|].Has(x);
    }
  }

  lemma {:induction false} PushUnion(was: seq<Segment>, v: Segment, x: real)
    requires was != [] && Separated(was) && v.lo <= v.hi && was[|was| - 1].lo <= v.lo
    ensures InSome(Push(was, v), x) <==> InSome(was, x) || v.Has(x)
  {
    var now, n := Push(was, v), |was| - 1;
    if InSome(was, x) {
      var k :| 0 <= k <= n && was[k].Has(x);
      assert now[k].Has(x);
    }
    if v.Has(x) {
      assert now[|now| - 1].Has(x);
    }
    if InSome(now, x) {
      var k :| 0 <= k < |now| && now[k].Has(x);
      assert k <= n ==> was[k].Has(x) || v.Has(x);
    }
  }

  // ----- filling the gaps

  ghost predicate InFiller(fillers: seq<Filler>, x: real) {
    exists f :: 0 <= f < |fillers| && fillers[f].Inside(x)
  }

  /** Between xmin and `end` every place is in one of the intervals or inside a filler, never both, and
      fillers do not overlap. */
  ghost predicate Tiles(xmin: real, end: real, merged: seq<Segment>, fillers: seq<Filler>) {
    && (forall x {:trigger InSome(merged, x)} :: xmin < x < end ==> (InSome(merged, x) <==> !InFiller(fillers, x)))
    && (forall f, x {:trigger fillers[f].Inside(x)} :: 0 <= f < |fillers| && fillers[f].Inside(x) ==> xmin < x < end)
    && (forall f, g, x {:trigger fillers[f].Inside(x), fillers[g].Inside(x)} ::
          0 <= f < g < |fillers| && fillers[f].Inside(x) ==> !fillers[g].Inside(x))
  }

  function Between(lo: real, hi: real, y: real, height: real): (f: Filler)
    ensures forall x :: f.Inside(x) <==> lo < x < hi
  {
    Filler(0.5 * (lo + hi), y, hi - lo, height)
  }

  lemma InFillerSnoc(fillers: seq<Filler>, f: Filler, x: real)
    ensures InFiller(fillers + [f], x) <==> InFiller(fillers, x) || f.Inside(x)
  {
    if InFiller(fillers, x) {
      var k :| 0 <= k < |fillers| && fillers[k].Inside(x);
      assert (fillers + [f])[k].Inside(x);
    }
    if f.Inside(x) {
      assert (fillers + [f])[|fillers|].Inside(x);
    }
  }

  /** A filler from where the tiling ends. */
  lemma {:induction false} TileGap(xmin: real, end: real, merged: seq<Segment>, fillers: seq<Filler>, f: Filler, next: real)
    requires Tiles(xmin, end, merged, fillers) && xmin <= end < next
    requires forall x :: f.Inside(x) <==> end < x < next
    requires forall x :: InSome(merged, x) ==> x <= end
    requires end == xmin || InSome(merged, end)
    ensures Tiles(xmin, next, merged, fillers + [f])
  {
    forall x | xmin < x < next
      ensures InSome(merged, x) <==> !InFiller(fillers + [f], x)
    {
      InFillerSnoc(fillers, f, x);
    }
  }

  /** An interval from where the tiling ends. */
  lemma {:induction false} TileSegment(xmin: real, end: real, merged: seq<Segment>, fillers: seq<Filler>, v: Segment)
    requires Tiles(xmin, end, merged, fillers) && xmin <= end == v.lo <= v.hi
    ensures Tiles(xmin, v.hi, merged + [v], fillers)
  {
    forall x | xmin < x < v.hi
      ensures InSome(merged + [v], x) <==> !InFiller(fillers, x)
    {
      InSomeSnoc(merged, v, x);
    }
  }

  lemma UpToLast(merged: seq<Segment>)
    requires merged != [] && Separated(merged)
    ensures forall x :: InSome(merged, x) ==> x <= merged[|merged| - 1].hi
    ensures InSome(merged, merged[|merged| - 1].hi)
  {
    assert merged[|merged| - 1].Has(merged[|merged| - 1].hi);
  }

  /** Fillers left of, between and right of the intervals. */
  method FillGaps(xmin: real, xmax: real, merged: seq<Segment>, y: real, height: real) returns (fillers: seq<Filler>)
    requires merged != [] && Separated(merged) && xmin <= merged[0].lo && merged[|merged| - 1].hi <= xmax
    ensures Tiles(xmin, xmax, merged, fillers)
    ensures forall f :: f in fillers ==> f.y == y && f.height == height
  {
    hide Tiles, InSome, InFiller, Filler.Inside;
    fillers := [];
    NothingTiled(xmin);
    if xmin < merged[0].lo {
      fillers := [Between(xmin, merged[0].lo, y, height)];
      TileGap(xmin, xmin, [], [], fillers[0], merged[0].lo);
      assert [] + [fillers[0]] == fillers;
    }
    TileSegment(xmin, merged[0].lo, [], fillers, merged[0]);
    assert [] + [merged[0]] == merged[..1];
    for i := 1 to |merged|
      invariant Tiles(xmin, merged[i - 1].hi, merged[..i], fillers)
      invariant forall f :: f in fillers ==> f.y == y && f.height == height
    {
      if merged[i].lo > merged[i - 1].hi {
        var f := Between(merged[i - 1].hi, merged[i].lo, y, height);
        UpToLast(merged[..i]);
        TileGap(xmin, merged[i - 1].hi, merged[..i], fillers, f, merged[i].lo);
        fillers := fillers + [f];
      }
      TileSegment(xmin, merged[i].lo, merged[..i], fillers, merged[i]);
      assert merged[..i + 1] == merged[..i] + [merged[i]];
    }
    assert merged[..|merged|] == merged;
    if xmax > merged[|merged| - 1].hi {
      var f := Between(merged[|merged| - 1].hi, xmax, y, height);
      UpToLast(merged);
      TileGap(xmin, merged[|merged| - 1].hi, merged, fillers, f, xmax);
      fillers := fillers + [f];
    }
  }

  lemma NothingTiled(xmin: real)
    ensures Tiles(xmin, xmin, [], []) && forall x :: !InSome([], x)
  {
  }
}
