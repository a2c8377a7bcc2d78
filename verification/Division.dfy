/** Quotients and remainders by a variable divisor. */
module Division {
  /** A number is divided in one way only. */
  lemma QuotientOf(x: nat, q: nat, n: nat, r: nat)
    requires r < n && x == q * n + r
    ensures x / n == q && x % n == r
  {
    var p, m := x / n, x % n;
    assert (p - q) * n == r - m by {
      assert x == p * n + m;
      assert (p - q) * n == p * n - q * n;
    }
    Multiple(p - q, n);
  }

  lemma {:induction false} Multiple(d: int, n: int)
    requires n > 0
    ensures d > 0 ==> d * n >= n
    ensures d < 0 ==> d * n <= -n
    decreases if d < 0 then -d else d
  {
    if d > 1 {
      Multiple(d - 1, n);
      Distribute(d - 1, 1, n);
    } else if d < -1 {
      Multiple(d + 1, n);
      Distribute(d + 1, -1, n);
    }
  }

  lemma Distribute(c: int, d: int, n: int)
    ensures (c + d) * n == c * n + d * n
  {
  }

  lemma Divides(x: nat, n: nat)
    requires n > 0
    ensures x == x / n * n + x % n
  {
  }

  lemma Parts(s: nat, k: nat, t: nat, n: nat, r: nat)
    ensures (s * k + t) * n + r == s * (n * k) + (t * n + r)
  {
    Distribute(s * k, t, n);
    assert s * k * n == s * (k * n);
    assert k * n == n * k;
  }

  lemma Below(t: nat, k: nat, n: nat, r: nat)
    requires t < k && r < n
    ensures t * n + r < n * k
  {
    Multiple(k - t, n);
    assert (k - t) * n == k * n - t * n;
  }

  /** Dividing twice is dividing by the product. */
  lemma Nested(x: nat, n: nat, k: nat)
    requires n > 0 && k > 0
    ensures n * k > 0 && x / (n * k) == x / n / k
  {
    Divides(x, n);
    Divides(x / n, k);
    var s, t, r := x / n / k, x / n % k, x % n;
    Parts(s, k, t, n, r);
    Below(t, k, n, r);
    QuotientOf(x, s, n * k, t * n + r);
  }

  lemma QuotientBelow(x: nat, q: nat, k: nat, n: nat)
    requires n > 0 && q * n <= x < k * n
    ensures q < k
  {
    assert (q - k) * n == q * n - k * n;
    Multiple(q - k, n);
  }
}
