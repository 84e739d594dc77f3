/** Quotients and remainders by products, for address arithmetic. */
module Division {

  lemma ProductGrows(d: nat, a: nat, b: nat)
    requires a < b
    ensures d * a + d <= d * b
  {
    assert d * (b - a - 1) >= 0;
  }

  lemma QuotientIs(n: nat, d: nat, q: nat, r: nat)
    requires d > 0 && r < d && n == d * q + r
    ensures n / d == q && n % d == r
  {
    var e := n / d;
    assert n == d * e + n % d;
    if e < q {
      ProductGrows(d, e, q);
    } else if q < e {
      ProductGrows(d, q, e);
    }
  }

  /** Dividing by a product is dividing twice. */
  lemma DivideTwice(n: nat, x: nat, y: nat)
    requires x > 0 && y > 0
    ensures x * y > 0 && n / (x * y) == n / x / y
  {
    var m := n / x;
    var k, s, r := m / y, m % y, n % x;
    TwoDigits(n, x, y, m, k, s, r);
    QuotientIs(n, x * y, k, x * s + r);
  }

  lemma TwoDigits(n: nat, x: nat, y: nat, m: nat, k: nat, s: nat, r: nat)
    requires n == x * m + r && r < x && m == y * k + s && s < y
    ensures x * y > 0 && n == (x * y) * k + (x * s + r) && x * s + r < x * y
  {
    Distribute(x, y, k, s);
    ProductGrows(x, s, y);
  }

  /** The remainder by a product has two digits. */
  lemma RemainderTwice(n: nat, x: nat, y: nat)
    requires x > 0 && y > 0
    ensures x * y > 0 && n % (x * y) == x * (n / x % y) + n % x
  {
    var m := n / x;
    var k, s, r := m / y, m % y, n % x;
    TwoDigits(n, x, y, m, k, s, r);
    QuotientIs(n, x * y, k, x * s + r);
  }

  lemma Distribute(x: nat, y: nat, k: nat, r: nat)
    ensures x * (y * k + r) == (x * y) * k + x * r
  {
  }

  lemma SmallQuotient(w: nat, c: nat, n: nat)
    requires c > 0 && w < n * c
    ensures w / c < n
  {
    var q := w / c;
    assert w == c * q + w % c;
    assert c * q < c * n;
  }

  /** The upper and lower digit of the remainder by a square. */
  lemma RemainderBySquare(n: nat, p: nat)
    requires p > 0
    ensures p * p > 0 && n % (p * p) / p == n / p % p && n % (p * p) % p == n % p
  {
    RemainderTwice(n, p, p);
    QuotientIs(n % (p * p), p, n / p % p, n % p);
  }

  lemma QuotientGrows(a: nat, b: nat, d: nat)
    requires d > 0 && a <= b
    ensures a / d <= b / d
  {
    if b / d < a / d {
      ProductGrows(d, b / d, a / d);
    }
  }
}
