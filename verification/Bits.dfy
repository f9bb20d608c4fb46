/** The bit operations the source applies to non-negative numbers, on unbounded integers. Masks and
    shifts of single bytes by constants are written `%` and `/` where they are used. */
module Bits {
  import opened Arith

  const TWO31: nat := 0x8000_0000
  const TWO32: nat := 0x1_0000_0000

  function Pow2(k: nat): nat {
    if k == 0 then 1 else 2 * Pow2(k - 1)
  }

  function And(a: nat, b: nat): nat {
    if a == 0 || b == 0 then 0
    else (if a % 2 == 1 && b % 2 == 1 then 1 else 0) + 2 * And(a / 2, b / 2)
  }

  function Or(a: nat, b: nat): nat
    decreases a + b
  {
    if a == 0 && b == 0 then 0
    else (if a % 2 == 1 || b % 2 == 1 then 1 else 0) + 2 * Or(a / 2, b / 2)
  }

  /** A 32-bit pattern read as a signed number. */
  function ToInt32(bits: nat): int {
    var u := bits % TWO32;
    if u < TWO31 then u else u - TWO32
  }

  lemma {:induction false} OrZero(b: nat)
    ensures Or(0, b) == b
  {
    if b > 0 { OrZero(b / 2); }
  }

  /** `|` of patterns that share no bit is `+`. */
  lemma {:induction false} OrDisjoint(a: nat, b: nat, s: nat)
    requires a < Pow2(s)
    ensures Or(a, b * Pow2(s)) == a + b * Pow2(s)
  {
    if s == 0 {
      OrZero(b);
    } else {
      var c := b * Pow2(s - 1);
      assert b * Pow2(s) == 2 * c;
      OrDisjoint(a / 2, b, s - 1);
      if !(a == 0 && 2 * c == 0) {
        assert Or(a, 2 * c) == a % 2 + 2 * Or(a / 2, c);
      }
    }
  }

  lemma {:induction false} OrBelow(a: nat, b: nat, s: nat)
    requires a < Pow2(s) && b < Pow2(s)
    ensures Or(a, b) < Pow2(s)
  {
    if s > 0 && !(a == 0 && b == 0) {
      OrBelow(a / 2, b / 2, s - 1);
    }
  }

  lemma {:induction false} Pow2Add(j: nat, k: nat)
    ensures Pow2(j + k) == Pow2(j) * Pow2(k)
    decreases j
  {
    if j > 0 {
      Pow2Add(j - 1, k);
      MulAssoc(2, Pow2(j - 1), Pow2(k));
    }
  }

  lemma {:induction false} Pow2Monotone(j: nat, k: nat)
    requires j <= k
    ensures 1 <= Pow2(j) <= Pow2(k)
    decreases k
  {
    if j < k { Pow2Monotone(j, k - 1); }
    else if j > 0 { Pow2Monotone(j - 1, j - 1); }
  }

  lemma Pow2Values()
    ensures Pow2(4) == 16 && Pow2(7) == 128 && Pow2(8) == 256 && Pow2(16) == 0x1_0000
    ensures Pow2(31) == TWO31 && Pow2(32) == TWO32
  {
    Pow2Add(8, 8);
    Pow2Add(16, 16);
    Pow2Add(1, 31);
  }

  /** Keeping the bits from k up drops the remainder modulo 2^k. */
  lemma {:induction false} AndHighMask(q: nat, r: nat, k: nat, n: nat)
    requires k <= n && r < Pow2(k) && q * Pow2(k) + r < Pow2(n)
    ensures Pow2(n) >= Pow2(k)
    ensures And(q * Pow2(k) + r, Pow2(n) - Pow2(k)) == q * Pow2(k)
  {
    hide Pow2, And;
    Pow2Monotone(k, n);
    if k == 0 {
      AllMask(q, r, n);
    } else if k == n {
      TopMask(q, r, k);
    } else {
      PowerBelow(k, n);
      HalfFits(q, r, Pow2(k - 1), Pow2(n - 1));
      AndHighMask(q, r / 2, k - 1, n - 1);
      DoubleMask(q, r, Pow2(k - 1), Pow2(n - 1));
    }
  }

  /** From the mask one bit shorter to this one. */
  lemma DoubleMask(q: nat, r: nat, p: nat, t: nat)
    requires t >= p && And(q * p + r / 2, t - p) == q * p
    ensures And(q * (2 * p) + r, 2 * t - 2 * p) == q * (2 * p)
  {
    hide And;
    DoubleProduct(q, p);
    HighMaskStep(q * p + r / 2, r % 2, t - p);
    assert 2 * (q * p + r / 2) + r % 2 == q * (2 * p) + r;
  }

  /** With k == 0 everything is kept. */
  lemma AllMask(q: nat, r: nat, n: nat)
    requires r < Pow2(0) && q * Pow2(0) + r < Pow2(n)
    ensures Pow2(n) >= Pow2(0) && And(q * Pow2(0) + r, Pow2(n) - Pow2(0)) == q * Pow2(0)
  {
    hide And;
    AndAllOnes(q, n);
  }

  /** With no bits left above k nothing is kept. */
  lemma TopMask(q: nat, r: nat, k: nat)
    requires q * Pow2(k) + r < Pow2(k)
    ensures And(q * Pow2(k) + r, Pow2(k) - Pow2(k)) == q * Pow2(k)
  {
    hide Pow2;
    if q >= 1 { MulAtLeast(Pow2(k), q); }
  }

  lemma PowerBelow(k: nat, n: nat)
    requires 1 <= k < n
    ensures Pow2(k) == 2 * Pow2(k - 1) && Pow2(n) == 2 * Pow2(n - 1) && Pow2(n - 1) >= Pow2(k - 1) >= 1
  {
    Pow2Monotone(k - 1, n - 1);
  }

  lemma HalfFits(q: nat, r: nat, p: nat, t: nat)
    requires r < 2 * p && q * (2 * p) + r < 2 * t
    ensures r / 2 < p && q * p + r / 2 < t
    ensures 2 * (q * p + r / 2) + r % 2 == q * (2 * p) + r
  {
    DoubleProduct(q, p);
  }

  lemma DoubleProduct(q: nat, p: nat)
    ensures q * (2 * p) == 2 * (q * p)
  {
  }

  lemma HighMaskStep(half: nat, bit: nat, m: nat)
    requires bit < 2
    ensures And(2 * half + bit, 2 * m) == 2 * And(half, m)
  {
    var a := 2 * half + bit;
    if a > 0 && m > 0 { AndEven(a, m); }
  }

  lemma AndEven(a: nat, m: nat)
    requires a > 0 && m > 0
    ensures And(a, 2 * m) == 2 * And(a / 2, m)
  {
    var b := 2 * m;
    assert b % 2 == 0 && b / 2 == m;
  }

  lemma {:induction false} AndAllOnes(a: nat, n: nat)
    requires a < Pow2(n)
    ensures Pow2(n) >= 1 && And(a, Pow2(n) - 1) == a
  {
    Pow2Monotone(0, n);
    if a > 0 {
      AndAllOnes(a / 2, n - 1);
      assert Pow2(n) - 1 == 2 * (Pow2(n - 1) - 1) + 1;
    }
  }
}
