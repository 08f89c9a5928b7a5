// Division by a positive number that is not a constant.
module Quotients {

  lemma QuotientBounds(n: int, d: int)
    requires 0 <= n && 0 < d
    ensures 0 <= n / d && n / d * d <= n < (n / d + 1) * d
  {
    assert n == n / d * d + n % d;
  }

  lemma QuotientIsUnique(n: int, d: int, q: int)
    requires 0 < d && 0 <= n && q * d <= n < (q + 1) * d
    ensures n / d == q
  {
    QuotientBounds(n, d);
    MultipleOrder(q, n / d + 1, d);
    MultipleOrder(n / d, q + 1, d);
  }

  lemma MultipleOrder(a: int, b: int, d: int)
    requires 0 < d && a * d < b * d
    ensures a < b
  {
  }

  lemma ShiftQuotient(n: int, d: int)
    requires 0 < d <= n
    ensures n / d == (n - d) / d + 1
  {
    QuotientBounds(n - d, d);
    PhaseShift(0, (n - d) / d, d);
    PhaseShift(0, (n - d) / d + 1, d);
    QuotientIsUnique(n, d, (n - d) / d + 1);
  }

  lemma PhaseShift(cursor: int, k: int, step: int)
    ensures cursor + step + k * step == cursor + (k + 1) * step
  {
  }

  lemma QuotientOfSmall(n: int, d: int)
    requires 0 <= n < d
    ensures n / d == 0
  {
  }

  lemma {:induction false} MultipleRemainder(k: int, d: int)
    requires 0 < d && 0 <= k
    ensures k * d % d == 0
    decreases k
  {
    if k > 0 {
      MultipleRemainder(k - 1, d);
      var m := (k - 1) * d;
      assert k * d == m + d;
      RemainderStep(m, d);
    }
  }

  lemma RemainderStep(m: int, d: int)
    requires 0 < d && m % d == 0 && 0 <= m
    ensures (m + d) % d == 0
  {
    QuotientBounds(m, d);
    QuotientBounds(m + d, d);
    ShiftQuotient(m + d, d);
    var a, b := m / d, (m + d) / d;
    assert b * d == a * d + d;
  }

  lemma QuotientShift(a: int, k: int, n: int)
    requires 0 < n && 0 <= a && 0 <= k
    ensures (a + k * n) / n == a / n + k
  {
    QuotientBounds(a, n);
    var q := a / n;
    assert (q + k) * n == q * n + k * n;
    assert (q + k + 1) * n == (q + 1) * n + k * n;
    QuotientIsUnique(a + k * n, n, q + k);
  }

  lemma QuotientIsZero(a: int, n: int)
    requires 0 < n && 0 <= a
    ensures a / n == 0 <==> a < n
  {
    QuotientBounds(a, n);
    if a / n == 0 { PhaseShift(0, 0, n); } else if a < n { QuotientOfSmall(a, n); }
  }
}
