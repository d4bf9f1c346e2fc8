/** Division and powers of two. */
module Arithmetic {

  predicate IsPow2(n: nat) { n == 1 || (n > 0 && n % 2 == 0 && IsPow2(n / 2)) }

  /** Quotient and remainder are unique. */
  lemma DivModOf(x: nat, q: nat, m: nat, n: nat)
    requires m < n && x == n * q + m
    ensures x / n == q && x % n == m
  {
    var q', m' := x / n, x % n;
    assert x == n * q' + m';
    var d := q - q';
    assert n * d == m' - m;
    assert d >= 1 ==> n * d >= n;
    assert d <= -1 ==> n * d + n <= 0;
  }

  lemma MultipleMod(a: nat, k: nat)
    requires a > 0
    ensures (a * k) % a == 0
  {
    DivModOf(a * k, k, 0, a);
  }

  lemma AddMultiple(x: nat, k: nat, a: nat)
    requires a > 0
    ensures (x + a * k) % a == x % a
  {
    var q, m := x / a, x % a;
    assert x == a * q + m;
    assert a * (q + k) == a * q + a * k;
    DivModOf(x + a * k, q + k, m, a);
  }

  lemma ModSucc(i: nat, n: nat)
    requires n > 0
    ensures (i % n + 1) % n == (i + 1) % n
  {
    var q, m := i / n, i % n;
    assert i == n * q + m;
    if m + 1 < n {
      DivModOf(i + 1, q, m + 1, n);
      DivModOf(m + 1, 0, m + 1, n);
    } else {
      assert i + 1 == n * (q + 1);
      DivModOf(i + 1, q + 1, 0, n);
      DivModOf(m + 1, 1, 0, n);
    }
  }

  /** Equal remainders at a distance below `n` mean equal numbers. */
  lemma ModInjective(i: nat, j: nat, n: nat)
    requires n > 0 && i <= j < i + n && i % n == j % n
    ensures i == j
  {
    var d := j - i;
    assert i == n * (i / n) + i % n && j == n * (j / n) + j % n;
    var q := j / n - i / n;
    assert d == n * q;
    assert q >= 1 ==> n * q >= n;
    assert q <= -1 ==> n * q + n <= 0;
  }
}
