/** Facts about products, quotients and remainders that the solver does not find by itself. */
module Arithmetic {

  lemma ProductMonotone(a: nat, b: nat, n: nat)
    requires a <= b
    ensures a * n <= b * n
  {
  }

  /** Quotient and remainder are unique. */
  lemma DivModUnique(x: nat, q: nat, r: nat, n: nat)
    requires r < n && x == q * n + r
    ensures x / n == q && x % n == r
  {
    assert x == (x / n) * n + x % n;
    if x / n < q {
      ProductMonotone(x / n + 1, q, n);
    } else if q < x / n {
      ProductMonotone(q + 1, x / n, n);
    }
  }

  lemma ModPlusMultiple(x: nat, q: nat, n: nat)
    requires n > 0
    ensures (x + q * n) % n == x % n
  {
    assert x == (x / n) * n + x % n;
    assert (x / n + q) * n == (x / n) * n + q * n;
    DivModUnique(x + q * n, x / n + q, x % n, n);
  }

  lemma ModPlusMod(a: nat, b: nat, n: nat)
    requires n > 0
    ensures (a % n + b) % n == (a + b) % n
  {
    ModPlusMultiple(a % n + b, a / n, n);
    assert a == (a / n) * n + a % n;
  }

  lemma WrapOnce(x: nat, n: nat)
    requires n > 0 && x < 2 * n
    ensures x % n == if x < n then x else x - n
  {
    DivModUnique(x, if x < n then 0 else 1, if x < n then x else x - n, n);
  }

  lemma NextDivMod(j: nat, n: nat)
    requires n > 0
    ensures if j % n + 1 < n then (j + 1) % n == j % n + 1 && (j + 1) / n == j / n
            else (j + 1) % n == 0 && (j + 1) / n == j / n + 1
  {
    assert j == (j / n) * n + j % n;
    if j % n + 1 < n {
      DivModUnique(j + 1, j / n, j % n + 1, n);
    } else {
      assert j + 1 == (j / n + 1) * n;
      DivModUnique(j + 1, j / n + 1, 0, n);
    }
  }
}
