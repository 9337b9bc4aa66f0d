/** Facts about integer division that the calendar and paging proofs share. */
module Arith {

  lemma MulSucc(a: int, n: int)
    ensures (a + 1) * n == a * n + n
  {
  }

  /** Division by n is fixed by the quotient and remainder it leaves. */
  lemma DivUnique(x: int, n: int, q: int, r: int)
    requires n > 0 && 0 <= r < n && x == q * n + r
    ensures x / n == q && x % n == r
  {
    var d := x / n - q;
    assert d * n == r - x % n by {
      assert x == (x / n) * n + x % n;
      assert (x / n) * n - q * n == d * n;
    }
  }

  /** One more than p passes a multiple of n exactly when it is one. */
  lemma DivSucc(p: int, n: int)
    requires n > 0
    ensures (p + 1) / n == p / n + (if (p + 1) % n == 0 then 1 else 0)
  {
    var q, r := p / n, p % n;
    assert p == q * n + r;
    if r == n - 1 {
      MulSucc(q, n);
      DivUnique(p + 1, n, q + 1, 0);
    } else {
      DivUnique(p + 1, n, q, r + 1);
    }
  }
}
