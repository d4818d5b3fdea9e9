/** Integer arithmetic as the tools do it: division toward zero, division rounding up, sums, and the little
    that has to be known about them. */
module IntMath {

  function Max(a: int, b: int): int {
    if a >= b then a else b
  }

  function Min(a: int, b: int): int {
    if a <= b then a else b
  }

  function Abs(a: int): int {
    if a < 0 then -a else a
  }

  function Total(s: seq<nat>): nat {
    if s == [] then 0 else Total(s[..|s| - 1]) + s[|s| - 1]
  }

  lemma TotalSnoc(s: seq<nat>, k: nat)
    requires k < |s|
    ensures Total(s[..k + 1]) == Total(s[..k]) + s[k]
  {
    assert s[..k + 1][..k] == s[..k];
  }

  lemma {:induction false} TotalZero(s: seq<nat>)
    requires forall i :: 0 <= i < |s| ==> s[i] == 0
    ensures Total(s) == 0
  {
    if s != [] {
      TotalZero(s[..|s| - 1]);
    }
  }

  lemma {:induction false} TotalUpdate(s: seq<nat>, i: nat)
    requires i < |s|
    ensures Total(s[i := s[i] + 1]) == Total(s) + 1
  {
    var n := |s| - 1;
    if i == n {
      assert s[i := s[i] + 1][..n] == s[..n];
    } else {
      TotalUpdate(s[..n], i);
      assert s[i := s[i] + 1][..n] == s[..n][i := s[i] + 1];
    }
  }

  /** Integer division as C does it, toward zero. */
  function TruncDiv(a: int, b: int): int
    requires b > 0
  {
    if a >= 0 then a / b else -((-a) / b)
  }

  function DivCeil(a: int, b: int): int
    requires b > 0
  {
    -((-a) / b)
  }

  lemma {:induction false} DivMultiple(k: int, b: int)
    requires k >= 0 && b > 0
    ensures k * b >= 0 && TruncDiv(k * b, b) == k
  {
    NonNegative(k, b);
    DivUnique(k * b, k, 0, b);
  }

  lemma {:induction false} NonNegative(a: int, b: int)
    requires a >= 0 && b >= 0
    ensures a * b >= 0
  {
  }

  lemma {:induction false} DivShift(a: int, k: int, b: int)
    requires b > 0
    ensures (a - k * b) / b == a / b - k
  {
    var q, r := a / b, a % b;
    assert a - k * b == (q - k) * b + r;
    DivUnique(a - k * b, q - k, r, b);
  }

  lemma {:induction false} AtLeast(k: int, b: int)
    requires k >= 1 && b > 0
    ensures k * b >= b
  {
  }

  lemma {:induction false} Distribute(p: int, q: int, b: int)
    ensures (p - q) * b == p * b - q * b
  {
  }

  lemma {:induction false} DivUnique(a: int, q: int, r: int, b: int)
    requires b > 0 && a == q * b + r && 0 <= r < b
    ensures a / b == q
  {
    var p := a / b;
    assert p * b <= a < p * b + b;
    Distribute(p, q, b);
    Distribute(q, p, b);
    if p > q {
      AtLeast(p - q, b);
    } else if p < q {
      AtLeast(q - p, b);
    }
  }

  lemma {:induction false} CeilShift(a: int, k: int, b: int)
    requires b > 0
    ensures DivCeil(a + k * b, b) == DivCeil(a, b) + k
  {
    DivShift(-a, k, b);
    assert -(a + k * b) == -a - k * b;
  }

  lemma {:induction false} CeilPositive(a: int, b: int)
    requires a > 0 && b > 0
    ensures DivCeil(a, b) >= 1
  {
  }

  lemma {:induction false} DivMod(q: nat, r: nat, b: nat)
    requires r < b
    ensures (q * b + r) / b == q && (q * b + r) % b == r
  {
    DivUnique(q * b + r, q, r, b);
  }

  lemma {:induction false} MulMono(a: int, b: int, c: nat)
    requires a <= b
    ensures a * c <= b * c
  {
  }

  /** A quotient rounded up is at most n exactly when n pieces of length b reach a. */
  lemma {:induction false} CeilBound(a: int, b: int, n: int)
    requires b > 0
    ensures n < DivCeil(a, b) <==> n * b < a
  {
    var q := (-a) / b;
    assert q * b <= -a < q * b + b;
    if n < -q {
      MulMono(n + 1, -q, b);
      assert (n + 1) * b == n * b + b && -q * b == -(q * b);
    } else {
      MulMono(-q, n, b);
      assert -q * b == -(q * b);
    }
  }

  /** A quotient rounded down is at least n exactly when n pieces of length b fit into a. */
  lemma {:induction false} FloorBound(a: int, b: int, n: int)
    requires b > 0
    ensures n <= a / b <==> n * b <= a
  {
    var q := a / b;
    assert q * b <= a < q * b + b;
    if n <= q {
      MulMono(n, q, b);
    } else {
      MulMono(q + 1, n, b);
      assert (q + 1) * b == q * b + b;
    }
  }
}
