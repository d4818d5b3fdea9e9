/** Lists of n different numbers below n, and reading a list through one. */
module Permutations {
  import opened RealMath

  ghost predicate Distinct<T>(s: seq<T>) {
    forall i, j :: 0 <= i < j < |s| ==> s[i] != s[j]
  }

  ghost predicate Permutes(f: seq<nat>, n: nat) {
    && |f| == n && (forall k :: 0 <= k < n ==> f[k] < n)
    && (forall j, k :: 0 <= j < k < n ==> f[j] != f[k])
  }

  /** A list read through a permutation is a rearrangement of the list. */
  lemma {:induction false} Rearranged<T>(s: seq<T>, t: seq<T>, f: seq<nat>)
    requires |s| == |t| && Permutes(f, |s|)
    requires forall i :: 0 <= i < |s| ==> t[i] == s[f[i]]
    ensures multiset(s) == multiset(t)
  {
    if s != [] {
      var n := |s| - 1;
      var k := f[n];
      var s' := s[..k] + s[k + 1..];
      var f' := seq(n, i requires 0 <= i < n => if f[i] < k then f[i] else f[i] - 1);
      Squeeze(f, f', n, k);
      forall i | 0 <= i < n
        ensures t[..n][i] == s'[f'[i]]
      {
        assert f[i] != k;
      }
      Rearranged(s', t[..n], f');
      MultisetWithout(s, k);
      assert t == t[..n] + [t[n]];
    }
  }

  lemma {:induction false} Squeeze(f: seq<nat>, f': seq<int>, n: nat, k: nat)
    requires Permutes(f, n + 1) && f[n] == k && |f'| == n
    requires forall i :: 0 <= i < n ==> f'[i] == if f[i] < k then f[i] else f[i] - 1
    ensures (forall i :: 0 <= i < n ==> 0 <= f'[i] < n)
    ensures (forall i, j :: 0 <= i < j < n ==> f'[i] != f'[j])
  {
    forall i | 0 <= i < n
      ensures 0 <= f'[i] < n
    {
      assert f[i] != f[n];
    }
    forall i, j | 0 <= i < j < n
      ensures f'[i] != f'[j]
    {
      assert f[i] != f[j] && f[i] != f[n] && f[j] != f[n];
    }
  }

  lemma InsertMultiset<T>(r: seq<T>, k: nat, v: T)
    requires k <= |r|
    ensures multiset(r[..k] + [v] + r[k..]) == multiset(r) + multiset{v}
  {
    assert r == r[..k] + r[k..];
  }

  lemma {:induction false} CountOnce(q: seq<nat>, v: nat)
    requires forall j, k :: 0 <= j < k < |q| ==> q[j] != q[k]
    ensures multiset(q)[v] <= 1
  {
    if q != [] {
      var n := |q| - 1;
      CountOnce(q[..n], v);
      assert q == q[..n] + [q[n]];
    }
  }

  lemma {:induction false} CountTwice(r: seq<nat>, j: nat, k: nat)
    requires j < k < |r| && r[j] == r[k]
    ensures multiset(r)[r[j]] >= 2
  {
    assert r == r[..k] + [r[k]] + r[k + 1..];
    assert r[..k][j] == r[j];
    assert r[j] in multiset(r[..k]);
  }

  /** A rearrangement of a permutation is a permutation. */
  lemma {:induction false} PermutesByMultiset(q: seq<nat>, r: seq<nat>, n: nat)
    requires Permutes(q, n) && multiset(q) == multiset(r)
    ensures Permutes(r, n)
  {
    assert |r| == |multiset(r)| == |multiset(q)| == |q|;
    forall k | 0 <= k < n
      ensures r[k] < n
    {
      assert r[k] in multiset(q);
    }
    forall j, k | 0 <= j < k < n
      ensures r[j] != r[k]
    {
      if r[j] == r[k] {
        CountOnce(q, r[j]);
        CountTwice(r, j, k);
      }
    }
  }

  ghost function Count(n: nat): (s: seq<nat>)
    ensures |s| == n && forall i :: 0 <= i < n ==> s[i] == i
  {
    if n == 0 then [] else Count(n - 1) + [n - 1]
  }

  /** A permutation hits every number below n. */
  lemma {:induction false} PermutesAll(f: seq<nat>, n: nat)
    requires Permutes(f, n)
    ensures forall i :: 0 <= i < n ==> i in f
  {
    Rearranged(Count(n), f, f);
    forall i | 0 <= i < n
      ensures i in f
    {
      assert Count(n)[i] == i;
      assert i in Count(n);
      assert i in multiset(Count(n));
    }
  }

  lemma {:induction false} SubsetSize<T>(a: set<T>, b: set<T>)
    requires a <= b
    ensures |a| <= |b|
  {
    assert b == a + (b - a);
  }
}
