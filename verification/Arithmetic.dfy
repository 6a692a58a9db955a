/**
  Facts about products, quotients and remainders that the solver does not find itself.
 */
module Arithmetic {
  predicate PowerOfTwo(n: nat)
    decreases n
  {
    n == 1 || (n > 0 && n % 2 == 0 && PowerOfTwo(n / 2))
  }

  lemma DivMod(a: nat, c: nat)
    requires c > 0
    ensures (a / c) * c + a % c == a && 0 <= a % c < c
  {
  }

  lemma MulMono(a: nat, b: nat, c: nat)
    requires a <= b
    ensures a * c <= b * c
  {
  }

  lemma MulLess(a: nat, b: nat, c: nat)
    requires a * c < b * c
    ensures a < b
  {
  }

  lemma Distributes(a: nat, b: nat)
    requires b > 0
    ensures a * b == a * (b - 1) + a
  {
  }

  lemma MulPlusOne(q: nat, n: nat)
    ensures (q + 1) * n == q * n + n
  {
  }

  lemma MulStep(a: nat, b: nat, m: nat)
    ensures a < b ==> a * m + m <= b * m
  {
    if a < b {
      MulMono(a + 1, b, m);
      assert (a + 1) * m == a * m + m;
    }
  }

  lemma DivModUnique(a: nat, m: nat, q: nat, r: nat)
    requires m > 0 && a == q * m + r && r < m
    ensures a / m == q && a % m == r
  {
    var q' := a / m;
    assert a == q' * m + a % m;
    MulStep(q, q', m);
    MulStep(q', q, m);
  }

  lemma Successor(k: nat, n: nat, q: nat, r: nat)
    requires k == q * n + r && r < n
    ensures (k + 1) / n == (if r + 1 < n then q else q + 1) && (k + 1) % n == if r + 1 < n then r + 1 else 0
  {
    if r + 1 < n {
      DivModUnique(k + 1, n, q, r + 1);
    } else {
      MulPlusOne(q, n);
      DivModUnique(k + 1, n, q + 1, 0);
    }
  }

  lemma QuotientBound(a: nat, b: nat, c: nat)
    requires c > 0 && a < b * c
    ensures a / c < b
  {
    DivMod(a, c);
    MulLess(a / c, b, c);
  }

  lemma DivMonotone(a: nat, b: nat, c: nat)
    requires c > 0 && a <= b
    ensures a / c <= b / c
  {
    DivMod(a, c);
    DivMod(b, c);
    MulStep(b / c, a / c, c);
  }

  lemma ModZero(q: nat, m: nat)
    requires m > 0
    ensures (q * m) % m == 0
  {
    DivModUnique(q * m, m, q, 0);
  }

  lemma SubsetSize(a: set<nat>, b: set<nat>)
    requires a <= b
    ensures |a| <= |b|
  {
    assert b == a + (b - a);
  }

  /** Keeps multiplication out of the loops. */
  predicate Product(p: int, a: int, b: int) {
    p == a * b
  }

  lemma ProductStart(a: nat, b: nat)
    ensures Product(a * b, a, b)
  {
  }

  lemma ProductStep(p: int, a: nat, b: nat)
    requires Product(p, a, b) && b > 0
    ensures p >= a && Product(p - a, a, b - 1)
  {
    Distributes(a, b);
  }

  lemma ProductDone(p: int, a: nat)
    requires Product(p, a, 0)
    ensures p == 0
  {
  }
}
