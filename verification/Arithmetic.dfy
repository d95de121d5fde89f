/** Facts about products and remainders that the solver does not find by itself. */
module Arithmetic {

  lemma {:induction false} MulOrder(n: nat, a: int, b: int)
    requires a > b
    ensures n * a >= n * b + n
    decreases a - b
  {
    if a == b + 1 {
    } else {
      MulOrder(n, a - 1, b);
      assert n * a == n * (a - 1) + n;
    }
  }

  lemma ModUnique(x: nat, n: nat, q: nat, r: nat)
    requires n > 0 && x == n * q + r && r < n
    ensures x / n == q && x % n == r
  {
    if x / n > q { MulOrder(n, x / n, q); }
    if q > x / n { MulOrder(n, q, x / n); }
    assert x == n * (x / n) + x % n;
  }

  /** The remainder by repeated subtraction, which keeps division out of the solver's way. */
  function Wrap(p: nat, n: nat): (r: nat)
    requires n > 0
    ensures r < n
  {
    if p < n then p else Wrap(p - n, n)
  }

  lemma {:induction false} WrapIsModulo(p: nat, n: nat)
    requires n > 0
    ensures Wrap(p, n) == p % n
    decreases p
  {
    if p < n {
      ModUnique(p, n, 0, p);
    } else {
      WrapIsModulo(p - n, n);
      var q, r := (p - n) / n, (p - n) % n;
      assert p - n == n * q + r && n * (q + 1) == n * q + n;
      ModUnique(p, n, q + 1, r);
    }
  }

  /** Stepping forward by at most one period wraps around at most once. */
  lemma {:induction false} WrapOffset(p: nat, d: nat, n: nat)
    requires n > 0 && d <= n
    ensures Wrap(p + d, n) == if Wrap(p, n) + d < n then Wrap(p, n) + d else Wrap(p, n) + d - n
    decreases p
  {
    if p >= n {
      WrapOffset(p - n, d, n);
      assert p + d - n == (p - n) + d;
    }
  }

  /** The low 32 bits of a two's complement number. */
  function Low32(n: int): (low: nat)
    ensures low < 0x1_0000_0000 && (0 <= n < 0x1_0000_0000 ==> low == n)
  {
    n % 0x1_0000_0000
  }
}
