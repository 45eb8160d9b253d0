/** Remainders by a divisor that is not a constant. */
module Modulo {
  lemma {:induction false} TimesMonotone(n: nat, j: nat, k: nat)
    requires j <= k
    ensures n * j <= n * k
  {
    if j < k {
      TimesMonotone(n, j, k - 1);
      assert n * k == n * (k - 1) + n;
    }
  }

  lemma OnlyQuotient(n: nat, q: nat, s: nat, k: nat, r: nat)
    requires n * q + s == n * k + r && s < n
    ensures k <= q
  {
    assert n * (q + 1) == n * q + n;
    if q < k {
      TimesMonotone(n, q + 1, k);
    }
  }

  lemma Remainder(n: nat, k: nat, r: nat)
    requires r < n
    ensures (n * k + r) / n == k && (n * k + r) % n == r
  {
    var b := n * k + r;
    var q := b / n;
    assert b == n * q + b % n;
    OnlyQuotient(n, q, b % n, k, r);
    OnlyQuotient(n, k, r, q, b % n);
  }

  lemma AddMultiple(n: nat, k: nat, x: nat)
    requires n > 0
    ensures (n * k + x) % n == x % n
  {
    var q, r := x / n, x % n;
    assert x == n * q + r;
    assert n * k + x == n * (k + q) + r;
    Remainder(n, k + q, r);
  }

  /** Two numbers less than n apart have different remainders. */
  lemma CloseDiffer(t: nat, u: nat, n: nat)
    requires n > 0 && t < u < t + n
    ensures t % n != u % n
  {
    var q, p := t / n, u / n;
    assert t == n * q + t % n && u == n * p + u % n;
    assert n * (q + 1) == n * q + n;
    if p <= q {
      TimesMonotone(n, p, q);
    } else {
      TimesMonotone(n, q + 1, p);
    }
  }

  lemma SameRemainder(t: nat, u: nat, n: nat)
    requires n > 0 && t <= u < t + n && t % n == u % n
    ensures t == u
  {
    if t < u {
      CloseDiffer(t, u, n);
    }
  }
}
