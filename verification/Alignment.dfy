/** Powers of two and rounding up to them. */
module Alignment {
  import opened Division

  predicate IsPow2(n: nat) {
    n == 1 || (n > 1 && n % 2 == 0 && IsPow2(n / 2))
  }

  /** The smaller of two powers of two divides the larger. */
  lemma {:induction false} Pow2Divides(a: nat, c: nat)
    requires IsPow2(a) && IsPow2(c) && a <= c
    ensures c % a == 0
  {
    if a > 1 {
      Pow2Divides(a / 2, c / 2);
      var half, k := a / 2, c / 2 / (a / 2);
      assert c / 2 == half * k;
      assert c == a * k;
      QuotientIs(c, a, k, 0);
    }
  }

  /** Products of powers of two are powers of two. */
  lemma {:induction false} TimesPow2(a: nat, b: nat)
    requires IsPow2(a) && IsPow2(b)
    ensures IsPow2(a * b)
  {
    if a > 1 {
      TimesPow2(a / 2, b);
      Doubled(a, a / 2, b);
      TwicePow2(a / 2 * b);
      hide IsPow2;
    }
  }

  lemma Doubled(a: nat, half: nat, b: nat)
    requires a == 2 * half
    ensures a * b == 2 * (half * b)
  {
  }

  lemma TwicePow2(n: nat)
    requires IsPow2(n)
    ensures IsPow2(2 * n)
  {
    assert 2 * n / 2 == n;
  }

  /** What `(value + align - 1) & !(align - 1)` is when `align` is a power of two: the low bits are cleared. */
  function RoundUp(value: nat, align: nat): (r: nat)
    requires align >= 1
    ensures value <= r < value + align
    ensures r % align == 0
  {
    var sum := value + (align - 1);
    RoundedIsMultiple(sum, align);
    sum - sum % align
  }

  lemma RoundedIsMultiple(sum: nat, align: nat)
    requires align >= 1
    ensures sum - sum % align >= 0 && (sum - sum % align) % align == 0
  {
    QuotientIs(sum - sum % align, align, sum / align, 0);
  }

  /** Multiples of a multiple are multiples. */
  lemma MultipleOf(x: nat, c: nat, a: nat)
    requires a > 0 && c > 0 && c % a == 0 && x % c == 0
    ensures x % a == 0
  {
    var k, l := x / c, c / a;
    assert x == c * k && c == a * l;
    assert x == a * (l * k);
    QuotientIs(x, a, l * k, 0);
  }

  lemma SumOfMultiples(x: nat, y: nat, c: nat)
    requires c > 0 && x % c == 0 && y % c == 0
    ensures (x + y) % c == 0
  {
    var k, l := x / c, y / c;
    assert x == c * k && y == c * l;
    assert x + y == c * (k + l);
    QuotientIs(x + y, c, k + l, 0);
  }
}
