/** Products and quotients of variables, which the solver is not to meet elsewhere. */
module Arithmetic {

  function Abs(n: int): nat { if n < 0 then -n else n }

  lemma Distribute(a: int, b: int, n: int)
    ensures (a + b) * n == a * n + b * n && n * (a + b) == n * a + n * b
  {
  }

  lemma {:induction false} TimesNatural(a: nat, b: nat)
    ensures a * b >= 0
  {
    if b > 0 {
      TimesNatural(a, b - 1);
      Distribute(b - 1, 1, a);
    }
  }

  lemma TimesMonotone(k: int, a: int, b: int)
    requires k >= 0 && a <= b
    ensures k * a <= k * b
  {
    TimesNatural(k, b - a);
    Distribute(a, b - a, k);
  }

  lemma TimesNext(k: int, a: int, b: int)
    requires k >= 0 && a < b
    ensures k * a + k <= k * b
  {
    TimesMonotone(k, a + 1, b);
    Distribute(a, 1, k);
  }

  lemma SameQuotient(s: int, q: int, r: int, p: int, m: int)
    requires 0 <= r < s && 0 <= m < s && s * q + r == s * p + m
    ensures q == p && r == m
  {
    if q < p { TimesNext(s, q, p); }
    if p < q { TimesNext(s, p, q); }
  }

  lemma DivUnique(s: int, q: int, r: int, n: int)
    requires 0 <= r < s && n == s * q + r
    ensures n / s == q && n % s == r
  {
    SameQuotient(s, q, r, n / s, n % s);
  }
}
