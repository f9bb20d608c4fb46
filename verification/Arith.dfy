/** The few facts about products and quotients the other modules need. */
module Arith {

  lemma DivModParts(n: nat, base: nat)
    requires base >= 1
    ensures n == base * (n / base) + n % base
    ensures 0 <= n % base < base && 0 <= n / base
    ensures n > 0 && base >= 2 ==> n / base < n
  {
  }

  lemma MulAtLeast(a: nat, b: nat)
    requires b >= 1
    ensures a * b >= a
  {
    assert a * b == a * (b - 1) + a;
  }

  lemma MulMonotone(a: nat, x: nat, y: nat)
    requires x <= y
    ensures a * x <= a * y
  {
    assert a * y == a * x + a * (y - x);
  }

  lemma QuotientUnique(base: nat, q: nat, r: nat, q': nat, r': nat)
    requires r < base && r' < base
    requires base * q + r == base * q' + r'
    ensures q == q' && r == r'
  {
    if q < q' {
      MulAtLeast(base, q' - q);
    } else if q > q' {
      MulAtLeast(base, q - q');
    }
  }

  lemma DigitSplit(d: nat, q: nat, base: nat)
    requires base >= 2 && d < base
    ensures (d + base * q) % base == d
    ensures (d + base * q) / base == q
  {
    var n := d + base * q;
    DivModParts(n, base);
    QuotientUnique(base, n / base, n % base, q, d);
  }

  lemma Distribute(base: nat, mul: nat, d: nat, v: nat, q: nat, r: nat, carry: nat)
    requires carry + d * mul == base * q + r
    ensures r + base * (mul * v + q) == mul * (d + base * v) + carry
  {
    assert base * (mul * v + q) == base * (mul * v) + base * q;
    assert base * (mul * v) == mul * (base * v);
    assert mul * (d + base * v) == mul * d + mul * (base * v);
  }

  lemma MulAssoc(a: nat, b: nat, c: nat)
    ensures a * (b * c) == (a * b) * c
  {
  }
}
