/** Numbers: bytes, the smaller of two, and multiplication facts stated where the solver can use them. */
module Arith {
  type Byte = x: int | 0 <= x < 256

  function Min(a: nat, b: nat): nat {
    if a <= b then a else b
  }

  function Max(a: nat, b: nat): nat {
    if a <= b then b else a
  }

  lemma OneMore(more: nat, n: nat)
    ensures (1 + more) * n == n + more * n
    ensures (0 + more) * n == more * n
  {
  }

  lemma {:induction false} MultiplesApart(a: nat, b: nat, n: nat)
    ensures a < b ==> a * n + n <= b * n
    ensures a <= b ==> a * n <= b * n
    decreases b
  {
    if a < b {
      MultiplesApart(a, b - 1, n);
      OneMore(b - 1, n);
    }
  }

  lemma DivModUnique(x: nat, n: nat, q: nat, r: nat)
    requires 0 < n && x == q * n + r && r < n
    ensures x / n == q && x % n == r
  {
    var q', r' := x / n, x % n;
    assert x == q' * n + r' && 0 <= r' < n;
    MultiplesApart(q', q, n);
    MultiplesApart(q, q', n);
  }

  lemma DivStep(x: nat, n: nat)
    requires 0 < n
    ensures (x + n) / n == x / n + 1
  {
    OneMore(x / n, n);
    DivModUnique(x + n, n, x / n + 1, x % n);
  }

  lemma DivBounds(x: nat, n: nat)
    requires 0 < n
    ensures 0 <= x / n && (x / n) * n <= x < (x / n + 1) * n
  {
    OneMore(x / n, n);
  }

  lemma DivSmall(x: nat, n: nat)
    requires x < n
    ensures x / n == 0
  {
    DivModUnique(x, n, 0, x);
  }
}
