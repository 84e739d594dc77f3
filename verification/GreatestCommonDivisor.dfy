/** The greatest common divisor, and which residues the multiples of a number reach. */
module GreatestCommonDivisor {
  import opened Division

  function Gcd(a: nat, b: nat): (g: nat)
    ensures a > 0 || b > 0 ==> g > 0
    decreases b
  {
    if b == 0 then a else Gcd(b, a % b)
  }

  lemma {:induction false} GcdDivides(a: nat, b: nat) returns (c: nat, d: nat)
    ensures a == Gcd(a, b) * c && b == Gcd(a, b) * d
    decreases b
  {
    if b == 0 {
      c, d := 1, 0;
    } else {
      var e, f := GcdDivides(b, a % b);
      var g := Gcd(a, b);
      c, d := e * (a / b) + f, e;
      assert a == b * (a / b) + a % b;
      Distribute(g, e, a / b, f);
      assert b * (a / b) == (g * e) * (a / b);
    }
  }

  lemma {:induction false} Bezout(a: nat, b: nat) returns (s: int, u: int)
    ensures s * a + u * b == Gcd(a, b)
    decreases b
  {
    if b == 0 {
      s, u := 1, 0;
    } else {
      var s', u' := Bezout(b, a % b);
      s, u := u', s' - (a / b) * u';
      BezoutStep(a, b, a / b, a % b, s', u');
    }
  }

  lemma BezoutStep(a: int, b: int, q: int, r: int, s: int, u: int)
    requires a == b * q + r
    ensures u * a + (s - q * u) * b == s * b + u * r
  {
    assert u * a == u * (b * q) + u * r;
    assert (s - q * u) * b == s * b - (q * u) * b;
    assert u * (b * q) == (q * u) * b;
  }

  /** Among the first `long` multiples of `short` one is congruent to any given multiple of their divisor. */
  lemma ReachesResidue(long: nat, short: nat, k: int) returns (n: nat, m: int)
    requires long > 0
    ensures n < long && n * short + k * Gcd(long, short) == m * long
  {
    var g := Gcd(long, short);
    var s, u := Bezout(long, short);
    var t := -(k * u);
    n := t % long;
    var q := t / long;
    assert t == long * q + n;
    m := k * s - q * short;
    Congruence(long, short, g, k, s, u, q, n, m);
  }

  lemma Congruence(long: int, short: int, g: int, k: int, s: int, u: int, q: int, n: int, m: int)
    requires s * long + u * short == g && -(k * u) == long * q + n && m == k * s - q * short
    ensures n * short + k * g == m * long
  {
    assert n * short == -(k * u) * short - (long * q) * short;
    assert k * g == k * (s * long) + k * (u * short);
    assert m * long == (k * s) * long - (q * short) * long;
    assert (k * u) * short == k * (u * short);
    assert (k * s) * long == k * (s * long);
    assert (long * q) * short == (q * short) * long;
  }
}
