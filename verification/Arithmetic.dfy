/** Facts about division that the models share. */
module Arithmetic {
  lemma MulSucc(k: int, c: int)
    ensures (k + 1) * c == k * c + c
  {
  }

  /** Quotient and remainder are unique. */
  lemma OneQuotient(c: int, q: int, r: int, q': int, r': int)
    requires 0 <= r < c && 0 <= r' < c && c * q + r == c * q' + r'
    ensures q == q'
  {
    var d := q - q';
    assert c * q == c * (q' + d) == c * q' + c * d;
    if d >= 1 {
    } else if d <= -1 {
    }
  }

  lemma Quotient(a: nat, c: nat, q: nat, r: nat)
    requires c > 0 && r < c && a == c * q + r
    ensures a / c == q
  {
    OneQuotient(c, q, r, a / c, a % c);
  }

  lemma DivStep(a: nat, c: nat)
    requires c > 0 && a >= c
    ensures a / c == (a - c) / c + 1
  {
    var q, r := (a - c) / c, (a - c) % c;
    assert c * (q + 1) == c * q + c;
    OneQuotient(c, q + 1, r, a / c, a % c);
  }

  /** Dividing the successor: the quotient steps when the remainder is at its last value. */
  lemma DivSucc(a: nat, c: nat)
    requires c > 0
    ensures (a + 1) / c == if a % c == c - 1 then a / c + 1 else a / c
    ensures a / c * c + a % c == a
  {
    var q, r := a / c, a % c;
    assert c * (q + 1) == c * q + c;
    if r == c - 1 {
      Quotient(a + 1, c, q + 1, 0);
    } else {
      Quotient(a + 1, c, q, r + 1);
    }
  }

  lemma MulAssoc(a: int, b: int, c: int)
    ensures (a * b) * c == a * (b * c)
  {
  }

  lemma MulMinus(a: int, b: int, c: int)
    ensures (a - b) * c == a * c - b * c
  {
  }

  lemma MulLess(a: int, b: int, c: int)
    requires a < b && c > 0
    ensures a * c < b * c
  {
  }

  lemma Remainder(a: int, n: int, q: int, r: int)
    requires 0 <= r < n && a == q * n + r
    ensures a % n == r
  {
    assert a == n * (a / n) + a % n;
    OneQuotient(n, q, r, a / n, a % n);
  }

  lemma ModAtMost(a: nat, n: nat)
    requires n > 0
    ensures a % n <= a
  {
    assert a == n * (a / n) + a % n;
    assert n * (a / n) >= 0;
  }

  /** Taking the remainder away leaves a multiple. */
  lemma ModDrop(a: nat, n: nat)
    requires n > 0
    ensures (a - a % n) % n == 0
  {
    var r := a % n;
    assert a == n * (a / n) + r;
    Remainder(a - r, n, a / n, 0);
  }

  /** Whole multiples of the divisor do not change the remainder. */
  lemma ModShift(a: nat, n: nat, k: nat)
    requires n > 0
    ensures (n * k + a) % n == a % n
  {
    var q, r := a / n, a % n;
    assert a == n * q + r;
    assert (k + q) * n == n * k + n * q;
    Remainder(n * k + a, n, k + q, r);
  }

  /** Scaling both sides scales the remainder. */
  lemma ModScale(a: nat, n: nat, p: nat)
    requires n > 0 && p > 0
    ensures n * p > 0 && (a * p) % (n * p) == (a % n) * p
  {
    var q, r := a / n, a % n;
    assert a == q * n + r;
    MulAssoc(q, n, p);
    assert a * p == q * (n * p) + r * p;
    MulLess(r, n, p);
    MulLess(0, n, p);
    Remainder(a * p, n * p, q, r * p);
  }
}
