/** Arithmetic shared by the wirelength engines: extrema, sums over sequences of
    reals, and what a sum does when one entry, or the order of entries, changes. */
module RealMath {

  function Min(a: real, b: real): real {
    if a <= b then a else b
  }

  function Max(a: real, b: real): real {
    if a >= b then a else b
  }

  function Abs(a: real): real {
    if a < 0.0 then -a else a
  }

  /** C's conversion to int: towards zero. */
  function Trunc(r: real): int {
    if r >= 0.0 then r.Floor else -((-r).Floor)
  }

  predicate Whole(r: real) {
    r == r.Floor as real
  }

  /** Sum of all entries, from the left. */
  function Sum(s: seq<real>): real {
    if s == [] then 0.0 else Sum(s[..|s| - 1]) + s[|s| - 1]
  }

  lemma {:induction false} SumSnoc(s: seq<real>, v: real)
    ensures Sum(s + [v]) == Sum(s) + v
  {
    assert (s + [v])[..|s|] == s;
  }

  /** What a loop that adds up entries from the left needs at each step. */
  lemma {:induction false} SumPrefix(s: seq<real>, i: nat)
    requires i < |s|
    ensures Sum(s[..i + 1]) == Sum(s[..i]) + s[i]
  {
    assert s[..i + 1] == s[..i] + [s[i]];
    SumSnoc(s[..i], s[i]);
  }

  lemma {:induction false} SumConcat(a: seq<real>, b: seq<real>)
    ensures Sum(a + b) == Sum(a) + Sum(b)
  {
    if b == [] {
      assert a + b == a;
    } else {
      var b' := b[..|b| - 1];
      SumConcat(a, b');
      assert a + b == (a + b') + [b[|b| - 1]];
      SumSnoc(a + b', b[|b| - 1]);
    }
  }

  lemma {:induction false} SumUpdate(s: seq<real>, i: nat, v: real)
    requires i < |s|
    ensures Sum(s[i := v]) == Sum(s) - s[i] + v
  {
    var n := |s| - 1;
    if i == n {
      assert s[i := v][..n] == s[..n];
    } else {
      SumUpdate(s[..n], i, v);
      assert s[i := v][..n] == s[..n][i := v];
    }
  }

  lemma {:induction false} SumZero(s: seq<real>)
    requires forall i :: 0 <= i < |s| ==> s[i] == 0.0
    ensures Sum(s) == 0.0
  {
    if s != [] {
      SumZero(s[..|s| - 1]);
    }
  }

  /** Entrywise difference. */
  function Minus(a: seq<real>, b: seq<real>): (d: seq<real>)
    requires |a| == |b|
    ensures |d| == |a|
    ensures forall i :: 0 <= i < |a| ==> d[i] == a[i] - b[i]
  {
    seq(|a|, i requires 0 <= i < |a| => a[i] - b[i])
  }

  lemma {:induction false} SumMinus(a: seq<real>, b: seq<real>)
    requires |a| == |b|
    ensures Sum(Minus(a, b)) == Sum(a) - Sum(b)
  {
    if a != [] {
      var n := |a| - 1;
      SumMinus(a[..n], b[..n]);
      assert Minus(a, b)[..n] == Minus(a[..n], b[..n]);
    }
  }

  lemma {:induction false} SumMonotone(a: seq<real>, b: seq<real>)
    requires |a| == |b|
    requires forall i :: 0 <= i < |a| ==> a[i] <= b[i]
    ensures Sum(a) <= Sum(b)
  {
    if a != [] {
      SumMonotone(a[..|a| - 1], b[..|a| - 1]);
    }
  }

  /** Two pairs of lists with the same entrywise differences have the same difference of sums. */
  lemma {:induction false} SumSameChange(a: seq<real>, b: seq<real>, c: seq<real>, d: seq<real>)
    requires |a| == |b| == |c| == |d|
    requires forall i :: 0 <= i < |a| ==> a[i] - b[i] == c[i] - d[i]
    ensures Sum(a) - Sum(b) == Sum(c) - Sum(d)
  {
    SumMinus(a, b);
    SumMinus(c, d);
    assert Minus(a, b) == Minus(c, d);
  }

  /** The entries whose index is in `keep`, with 0.0 elsewhere. */
  function Masked(s: seq<real>, keep: set<nat>): (m: seq<real>)
    ensures |m| == |s|
    ensures forall i: nat :: i < |s| ==> m[i] == if i in keep then s[i] else 0.0
  {
    seq(|s|, i requires 0 <= i < |s| => if i in keep then s[i] else 0.0)
  }

  lemma {:induction false} MaskedNone(s: seq<real>)
    ensures Sum(Masked(s, {})) == 0.0
  {
    SumZero(Masked(s, {}));
  }

  lemma {:induction false} MaskedAll(s: seq<real>, keep: set<nat>)
    requires forall i: nat :: i < |s| ==> i in keep
    ensures Masked(s, keep) == s
  {
  }

  /** Marking one more index adds exactly that entry. */
  lemma {:induction false} MaskedAdd(s: seq<real>, keep: set<nat>, i: nat)
    requires i < |s| && i !in keep
    ensures Sum(Masked(s, keep + {i})) == Sum(Masked(s, keep)) + s[i]
  {
    SumUpdate(Masked(s, keep), i, s[i]);
    assert Masked(s, keep + {i}) == Masked(s, keep)[i := s[i]];
  }

  /** If two lists agree outside `keep`, their sums differ by the masked sums alone. */
  lemma {:induction false} MaskedChange(a: seq<real>, b: seq<real>, keep: set<nat>)
    requires |a| == |b|
    requires forall i: nat :: i < |a| && i !in keep ==> a[i] == b[i]
    ensures Sum(Masked(a, keep)) - Sum(Masked(b, keep)) == Sum(a) - Sum(b)
  {
    SumSameChange(Masked(a, keep), Masked(b, keep), a, b);
  }

  lemma {:induction false} SumWithout(s: seq<real>, k: nat)
    requires k < |s|
    ensures Sum(s) == Sum(s[..k] + s[k + 1..]) + s[k]
  {
    assert s == (s[..k] + [s[k]]) + s[k + 1..];
    SumConcat(s[..k] + [s[k]], s[k + 1..]);
    SumSnoc(s[..k], s[k]);
    SumConcat(s[..k], s[k + 1..]);
  }

  lemma {:induction false} MultisetWithout<T>(s: seq<T>, k: nat)
    requires k < |s|
    ensures multiset(s[..k] + s[k + 1..]) == multiset(s) - multiset{s[k]}
  {
    assert s == s[..k] + [s[k]] + s[k + 1..];
  }

  /** A sum does not depend on the order of its entries. */
  lemma {:induction false} SumPermutation(a: seq<real>, b: seq<real>)
    requires multiset(a) == multiset(b)
    ensures Sum(a) == Sum(b)
    decreases |a|
  {
    assert |a| == |multiset(a)| == |multiset(b)| == |b|;
    if a != [] {
      var n := |a| - 1;
      assert a[n] in multiset(b);
      var k :| 0 <= k < |b| && b[k] == a[n];
      MultisetWithout(a, n);
      MultisetWithout(b, k);
      assert a[..n] + a[n + 1..] == a[..n];
      SumPermutation(a[..n], b[..k] + b[k + 1..]);
      SumWithout(b, k);
    }
  }

  lemma {:induction false} SumOfThree(s: seq<real>)
    requires |s| == 3
    ensures Sum(s) == s[0] + s[1] + s[2]
  {
    assert s[..2] == [s[0], s[1]] && s[..2][..1] == [s[0]] && [s[0]][..0] == [];
    assert Sum([]) == 0.0 && Sum([s[0]]) == s[0];
  }
}
