/** Positional notation. The base-conversion loops of the address codec keep a growing list of
    digits, least significant first; this module says what such a list means and when it is the
    only list with that meaning. */
module Digits {
  import opened Arith

  function Pow(b: nat, e: nat): nat {
    if e == 0 then 1 else b * Pow(b, e - 1)
  }

  /** The number a little-endian digit list stands for. */
  function Val(ds: seq<nat>, base: nat): nat {
    if ds == [] then 0 else ds[0] + base * Val(ds[1..], base)
  }

  /** The number a big-endian digit list stands for, read from left to right. */
  function BigEndian(ds: seq<nat>, base: nat): nat {
    if ds == [] then 0 else base * BigEndian(ds[..|ds| - 1], base) + ds[|ds| - 1]
  }

  /** Every digit is below the base and the most significant one is not zero. */
  ghost predicate Canonical(ds: seq<nat>, base: nat) {
    && (forall i :: 0 <= i < |ds| ==> ds[i] < base)
    && (ds != [] ==> ds[|ds| - 1] != 0)
  }

  /** The canonical digits of a number. */
  function Of(n: nat, base: nat): seq<nat>
    requires base >= 2
    decreases n
  {
    if n == 0 then [] else (DivModParts(n, base); [n % base] + Of(n / base, base))
  }

  lemma {:induction false} OfIsCanonical(n: nat, base: nat)
    requires base >= 2
    ensures Canonical(Of(n, base), base)
    ensures Val(Of(n, base), base) == n
    decreases n
  {
    if n > 0 {
      DivModParts(n, base);
      OfIsCanonical(n / base, base);
      assert Of(n, base)[1..] == Of(n / base, base);
      if n / base == 0 {
        assert base * (n / base) == 0;
        assert n % base == n;
      }
    }
  }

  /** Canonical digit lists are determined by their value. */
  lemma {:induction false} CanonicalIsOf(ds: seq<nat>, base: nat)
    requires base >= 2 && Canonical(ds, base)
    ensures ds == Of(Val(ds, base), base)
  {
    if ds != [] {
      var v := Val(ds[1..], base);
      CanonicalIsOf(ds[1..], base);
      DigitSplit(ds[0], v, base);
      CanonicalPositive(ds, base);
      assert ds == [ds[0]] + ds[1..];
    }
  }

  /** `mul` times the number plus a carry, computed digit by digit from the least significant end,
      the final carry being pushed as new digits. */
  function MulAdd(ds: seq<nat>, base: nat, mul: nat, carry: nat): seq<nat>
    requires base >= 2
  {
    if ds == [] then Of(carry, base)
    else
      var t := carry + ds[0] * mul;
      [t % base] + MulAdd(ds[1..], base, mul, t / base)
  }

  lemma {:induction false} MulAddValue(ds: seq<nat>, base: nat, mul: nat, carry: nat)
    requires base >= 2
    ensures Val(MulAdd(ds, base, mul, carry), base) == mul * Val(ds, base) + carry
  {
    if ds == [] {
      OfIsCanonical(carry, base);
    } else {
      var t := carry + ds[0] * mul;
      var r := MulAdd(ds[1..], base, mul, t / base);
      var v := Val(ds[1..], base);
      MulAddValue(ds[1..], base, mul, t / base);
      DivModParts(t, base);
      assert MulAdd(ds, base, mul, carry)[1..] == r;
      Distribute(base, mul, ds[0], v, t / base, t % base, carry);
    }
  }

  lemma {:induction false} MulAddCanonical(ds: seq<nat>, base: nat, mul: nat, carry: nat)
    requires base >= 2 && mul >= 1 && Canonical(ds, base)
    ensures Canonical(MulAdd(ds, base, mul, carry), base)
  {
    if ds == [] {
      OfIsCanonical(carry, base);
    } else {
      var t := carry + ds[0] * mul;
      DivModParts(t, base);
      MulAddCanonical(ds[1..], base, mul, t / base);
      if |ds| == 1 {
        assert ds[0] * mul > 0;
        LowOrHigh(t, base);
      }
    }
  }

  lemma LowOrHigh(t: nat, base: nat)
    requires base >= 2 && t > 0
    ensures t / base == 0 ==> t % base != 0
  {
    DivModParts(t, base);
  }

  /** One step of the conversion loop: multiply the number by `mul`, add the next input digit. */
  lemma MulAddOf(n: nat, base: nat, mul: nat, carry: nat)
    requires base >= 2 && mul >= 1
    ensures MulAdd(Of(n, base), base, mul, carry) == Of(mul * n + carry, base)
  {
    OfIsCanonical(n, base);
    MulAddValue(Of(n, base), base, mul, carry);
    MulAddCanonical(Of(n, base), base, mul, carry);
    CanonicalIsOf(MulAdd(Of(n, base), base, mul, carry), base);
  }

  lemma {:induction false} CanonicalPositive(ds: seq<nat>, base: nat)
    requires base >= 2 && Canonical(ds, base) && ds != []
    ensures Val(ds, base) > 0
  {
    if |ds| > 1 {
      CanonicalPositive(ds[1..], base);
      assert base * Val(ds[1..], base) > 0;
    }
  }

  function Reverse<T>(s: seq<T>): (r: seq<T>)
    ensures |r| == |s|
    ensures forall i :: 0 <= i < |s| ==> r[i] == s[|s| - 1 - i]
  {
    seq(|s|, i requires 0 <= i < |s| => s[|s| - 1 - i])
  }

  lemma ReverseTwice<T>(s: seq<T>)
    ensures Reverse(Reverse(s)) == s
  {
    var r := Reverse(s);
    assert forall i :: 0 <= i < |s| ==> Reverse(r)[i] == r[|s| - 1 - i] == s[i];
  }

  lemma {:induction false} BigEndianIsReversedVal(ds: seq<nat>, base: nat)
    ensures BigEndian(ds, base) == Val(Reverse(ds), base)
  {
    if ds != [] {
      BigEndianIsReversedVal(ds[..|ds| - 1], base);
      assert Reverse(ds)[1..] == Reverse(ds[..|ds| - 1]);
    }
  }

  /** A big-endian list without a leading zero is the reverse of the canonical digits of its value. */
  lemma BigEndianDigits(ds: seq<nat>, base: nat)
    requires base >= 2
    requires forall i :: 0 <= i < |ds| ==> ds[i] < base
    requires ds != [] ==> ds[0] != 0
    ensures Reverse(Of(BigEndian(ds, base), base)) == ds
  {
    BigEndianIsReversedVal(ds, base);
    CanonicalIsOf(Reverse(ds), base);
    ReverseTwice(ds);
  }

  /** The other direction: reading the reversed canonical digits gives the number back. */
  lemma BigEndianOfDigits(n: nat, base: nat)
    requires base >= 2
    ensures BigEndian(Reverse(Of(n, base)), base) == n
    ensures n > 0 ==> Of(n, base) != [] && Reverse(Of(n, base))[0] != 0
  {
    OfIsCanonical(n, base);
    ReverseTwice(Of(n, base));
    BigEndianIsReversedVal(Reverse(Of(n, base)), base);
  }

  lemma {:induction false} ValBelow(ds: seq<nat>, base: nat)
    requires base >= 2
    requires forall i :: 0 <= i < |ds| ==> ds[i] < base
    ensures Val(ds, base) < Pow(base, |ds|)
  {
    if ds != [] {
      ValBelow(ds[1..], base);
      var v, p := Val(ds[1..], base), Pow(base, |ds| - 1);
      MulMonotone(base, v + 1, p);
      assert base * (v + 1) == base * v + base;
    }
  }

  lemma {:induction false} ValAtLeast(ds: seq<nat>, base: nat)
    requires base >= 2 && Canonical(ds, base) && ds != []
    ensures Pow(base, |ds| - 1) <= Val(ds, base)
  {
    if |ds| > 1 {
      ValAtLeast(ds[1..], base);
      MulMonotone(base, Pow(base, |ds| - 2), Val(ds[1..], base));
    }
  }

  lemma {:induction false} PowMonotone(b: nat, e: nat, f: nat)
    requires b >= 1 && e <= f
    ensures 1 <= Pow(b, e) <= Pow(b, f)
    decreases f
  {
    if e < f {
      PowMonotone(b, e, f - 1);
      assert b * Pow(b, f - 1) >= Pow(b, f - 1);
    } else if e > 0 {
      PowMonotone(b, e - 1, e - 1);
      assert b * Pow(b, e - 1) >= 1;
    }
  }
}
