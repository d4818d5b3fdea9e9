/** When the greedy choice of fillers misses nothing (FillerPlacement.cpp): a finite test on the widths. */
module FillersExact {
  import opened Fillers
  import IntMath

  /** Whether some masters fill the gap, tried out. */
  predicate CanFill(l: Library, gap: int)
    requires l.Valid()
    decreases if gap > 0 then gap else 0
  {
    gap > 0 && exists k :: 0 <= k < |l.masters| && (l.Width(k) == gap || CanFill(l, gap - l.Width(k)))
  }

  /** Up to the bound, taking the widest master that goes leaves nothing of a gap, or again a gap that some
      masters fill. */
  predicate SafeUpTo(l: Library, bound: int)
    requires l.Valid()
  {
    forall gap, k :: 1 <= gap <= bound && 0 <= k < |l.masters| && CanFill(l, gap) && l.Widest(gap, k) ==>
      gap == l.Width(k) || CanFill(l, gap - l.Width(k))
  }

  /** The greedy choice fills every gap that can be filled at all if and only if it does so safely up to the
      square of the widest master. */
  lemma {:induction false} CompleteExactlyWhen(l: Library)
    requires l.Valid()
    ensures (forall gap: nat :: gap >= 1 && l.Fillable(gap) ==> l.Greedy(gap, 0, 0).Some?)
      <==> SafeUpTo(l, l.Width(0) * l.Width(0))
  {
    l.CompleteIffSafe();
    forall gap: int
      ensures CanFill(l, gap) <==> l.Fillable(gap)
    {
      CanFillMeans(l, gap);
    }
    var bound := l.Width(0) * l.Width(0);
    if SafeUpTo(l, bound) {
      forall gap: int, k: nat | k < |l.masters| && l.Fillable(gap) && l.Widest(gap, k) && gap != l.Width(k)
        ensures l.Fillable(gap - l.Width(k))
      {
        if gap > bound {
          BigGapsTakeWidest(l, gap, k);
          Exchange(l, gap);
        }
      }
    }
  }

  /** Not every library passes: with widths 4 and 3 the greedy choice leaves 2 of a gap of 6, which two
      threes fill. */
  lemma {:induction false} FourAndThreeFail()
    ensures var l := Library([4, 3], 1);
      l.Valid() && l.Fillable(6) && l.Greedy(6, 0, 0).None? && !SafeUpTo(l, l.Width(0) * l.Width(0))
  {
    var l := Library([4, 3], 1);
    FourThenStuck(l);
    TwoThrees(l);
    var gap: nat := 6;
    assert l.Fillable(gap) && l.Greedy(gap, 0, 0).None?;
    CompleteExactlyWhen(l);
  }

  lemma FourThenStuck(l: Library)
    requires l == Library([4, 3], 1)
    ensures l.Valid() && l.Greedy(6, 0, 0).None?
  {
    assert l.Width(0) == 4 && l.Width(1) == 3;
    assert l.Goes(6, 0, 0) && !l.Goes(6, 4, 0) && !l.Goes(6, 4, 1);
    assert l.Greedy(6, 4, 2).None?;
    assert l.Greedy(6, 4, 1).None?;
    assert l.Greedy(6, 4, 0).None?;
  }

  lemma TwoThrees(l: Library)
    requires l == Library([4, 3], 1)
    ensures l.Fillable(6)
  {
    assert [1, 1][..1] == [1] && [1][..0] == [];
    assert l.Width(1) == 3 && l.Total([]) == 0 && l.Total([1]) == 3 && l.Total([1, 1]) == 6;
  }

  // ----- trying out is right

  lemma {:induction false} CanFillMeans(l: Library, gap: int)
    requires l.Valid()
    ensures CanFill(l, gap) <==> l.Fillable(gap)
    decreases if gap > 0 then gap else 0
  {
    if CanFill(l, gap) {
      var k :| 0 <= k < |l.masters| && (l.Width(k) == gap || CanFill(l, gap - l.Width(k)));
      if l.Width(k) == gap {
        FilledBy(l, [], k);
      } else {
        CanFillMeans(l, gap - l.Width(k));
        FilledBy(l, Filling(l, gap - l.Width(k)), k);
      }
    }
    if l.Fillable(gap) {
      var f := Filling(l, gap);
      var k := f[|f| - 1];
      l.TotalAtLeast(f);
      l.TotalAtLeast(f[..|f| - 1]);
      if l.Width(k) != gap {
        assert l.Total(f[..|f| - 1]) == gap - l.Width(k);
        CanFillMeans(l, gap - l.Width(k));
      }
    }
  }

  ghost function Filling(l: Library, gap: int): (f: seq<nat>)
    requires l.Valid() && l.Fillable(gap)
    ensures f != [] && (forall i :: 0 <= i < |f| ==> f[i] < |l.masters|) && l.Total(f) == gap
  {
    var f: seq<nat> :| f != [] && (forall i :: 0 <= i < |f| ==> f[i] < |l.masters|) && l.Total(f) == gap;
    f
  }

  lemma FilledBy(l: Library, f: seq<nat>, k: nat)
    requires l.Valid() && k < |l.masters| && forall i :: 0 <= i < |f| ==> f[i] < |l.masters|
    ensures l.Fillable(l.Total(f) + l.Width(k))
  {
    assert (f + [k])[..|f|] == f;
    assert l.Total(f + [k]) == l.Total(f) + l.Width(k);
  }

  // ----- big gaps

  lemma BigGapsTakeWidest(l: Library, gap: int, k: nat)
    requires l.Valid() && gap > l.Width(0) * l.Width(0) && k < |l.masters| && l.Widest(gap, k)
    ensures k == 0 && gap > l.Width(0)
  {
    l.Smallest();
    l.Descending(0, |l.masters| - 1);
    Square(l.Width(0));
    assert l.Goes(gap, 0, 0);
  }

  lemma Square(w: nat)
    ensures w >= 1 ==> w * w >= w
    ensures w >= 2 ==> w * w >= 2 * w
  {
  }

  /** In a filling of a big gap some stretch totals a multiple of the widest master, and can be exchanged for
      that many of it; so one of it can be taken first. */
  lemma {:induction false} Exchange(l: Library, gap: int)
    requires l.Valid() && l.Fillable(gap) && gap > l.Width(0) * l.Width(0) && gap > l.Width(0)
    ensures l.Fillable(gap - l.Width(0))
  {
    hide Library.Total, Library.Width, Library.Fillable;
    var f, w := Filling(l, gap), l.Width(0);
    ManyMasters(l, f);
    var i, j := SameRemainder(l, f);
    Pieces(l, f, i, j);
    l.TotalAtLeast(f[i..j]);
    var m := Multiple(l.Total(f[..i]), l.Total(f[..j]), w);
    Refill(l, f[..i] + f[j..], m, gap - w);
  }

  lemma Refill(l: Library, f: seq<nat>, m: nat, gap: int)
    requires l.Valid() && m >= 1 && (forall i :: 0 <= i < |f| ==> f[i] < |l.masters|)
    requires l.Total(f) + m * l.Width(0) == gap + l.Width(0) && gap > 0
    ensures l.Fillable(gap)
  {
    var c := seq(m - 1, _ => 0);
    Copies(l, m - 1);
    TotalConcat(l, f, c);
    l.TotalAtLeast(f + c);
  }

  /** Each master fills at most the widest one's width. */
  lemma {:induction false} ManyMasters(l: Library, f: seq<nat>)
    requires l.Valid() && forall i :: 0 <= i < |f| ==> f[i] < |l.masters|
    ensures l.Total(f) <= |f| * l.Width(0)
  {
    if f != [] {
      ManyMasters(l, f[..|f| - 1]);
      l.Descending(0, f[|f| - 1]);
    }
  }

  /** Of more prefixes than there are remainders two agree. */
  lemma {:induction false} SameRemainder(l: Library, f: seq<nat>) returns (i: nat, j: nat)
    requires l.Valid() && (forall i :: 0 <= i < |f| ==> f[i] < |l.masters|) && l.Total(f) > l.Width(0) * l.Width(0)
    ensures i < j <= |f| && l.Total(f[..i]) % l.Width(0) == l.Total(f[..j]) % l.Width(0)
  {
    var w := l.Width(0);
    ManyMasters(l, f);
    Cancel(w, |f|);
    var s := seq(|f| + 1, k requires 0 <= k <= |f| => l.Total(f[..k]) % w);
    i, j := Pigeonhole(s, w);
  }

  lemma Cancel(w: nat, n: nat)
    requires n * w > w * w
    ensures n > w
  {
    if n <= w {
      IntMath.MulMono(n, w, w);
      assert false;
    }
  }

  lemma Multiple(a: int, b: int, w: int) returns (m: nat)
    requires w > 0 && a % w == b % w && a < b
    ensures m >= 1 && b - a == m * w
  {
    var p, q := a / w, b / w;
    assert a == p * w + a % w && b == q * w + b % w;
    if q <= p {
      IntMath.MulMono(q, p, w);
      assert false;
    }
    m := q - p;
  }

  /** Among more numbers than there are values two are equal. */
  lemma {:induction false} Pigeonhole(s: seq<int>, n: nat) returns (i: nat, j: nat)
    requires |s| > n && forall k :: 0 <= k < |s| ==> 0 <= s[k] < n
    ensures i < j < |s| && s[i] == s[j]
  {
    assert 0 <= s[0] < n;
    if p: nat :| p < |s| && s[p] == n - 1 {
      if q: nat :| q < |s| && q != p && s[q] == n - 1 {
        i, j := if p < q then p else q, if p < q then q else p;
      } else {
        var t := s[..p] + s[p + 1..];
        i, j := Pigeonhole(t, n - 1);
        i, j := if i < p then i else i + 1, if j < p then j else j + 1;
      }
    } else {
      i, j := Pigeonhole(s, n - 1);
    }
  }

  lemma {:induction false} TotalConcat(l: Library, f: seq<nat>, g: seq<nat>)
    requires l.Valid() && (forall i :: 0 <= i < |f| ==> f[i] < |l.masters|) && forall i :: 0 <= i < |g| ==> g[i] < |l.masters|
    ensures l.Total(f + g) == l.Total(f) + l.Total(g)
  {
    if g == [] {
      assert f + g == f;
    } else {
      TotalConcat(l, f, g[..|g| - 1]);
      assert (f + g)[..|f + g| - 1] == f + g[..|g| - 1];
    }
  }

  lemma Pieces(l: Library, f: seq<nat>, i: nat, j: nat)
    requires l.Valid() && i <= j <= |f| && forall i :: 0 <= i < |f| ==> f[i] < |l.masters|
    ensures l.Total(f[..j]) == l.Total(f[..i]) + l.Total(f[i..j])
    ensures l.Total(f[..i] + f[j..]) == l.Total(f) - l.Total(f[i..j])
  {
    assert f[..j] == f[..i] + f[i..j] && f == f[..j] + f[j..];
    TotalConcat(l, f[..i], f[i..j]);
    TotalConcat(l, f[..j], f[j..]);
    TotalConcat(l, f[..i], f[j..]);
  }

  lemma {:induction false} Copies(l: Library, m: nat)
    requires l.Valid()
    ensures l.Total(seq(m, _ => 0)) + l.Width(0) == (m + 1) * l.Width(0)
  {
    assert (m + 1) * l.Width(0) == m * l.Width(0) + l.Width(0);
    if m > 0 {
      Copies(l, m - 1);
      assert seq(m, _ => 0)[..m - 1] == seq(m - 1, _ => 0);
    }
  }
}
