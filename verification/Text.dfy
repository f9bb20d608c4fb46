/** JavaScript strings as sequences of UTF-16 code units, with the number formats the source prints
    and reads. */
module Text {
  import opened Arith
  import opened Bytes

  type Unit = x: int | 0 <= x < 0x1_0000

  type Text = seq<Unit>

  /** A literal of the source. */
  function Ascii(s: string): (t: Text)
    ensures |t| == |s|
  {
    seq(|s|, i requires 0 <= i < |s| => s[i] as int % 0x1_0000)
  }

  const ZERO: Unit := 48

  predicate IsDigit(u: Unit) { 48 <= u <= 57 }

  // ---------------------------------------------------------------------------------------------
  // Decimal
  // ---------------------------------------------------------------------------------------------

  /** The decimal digits of a number. */
  function Decimal(n: nat): (t: Text)
    ensures t != [] && forall i :: 0 <= i < |t| ==> IsDigit(t[i])
  {
    if n < 10 then [48 + n] else Decimal(n / 10) + [48 + n % 10]
  }

  function DecimalInt(n: int): (t: Text)
    ensures t != []
  {
    if n < 0 then [45] + Decimal(-n) else Decimal(n)
  }

  /** The value of a run of digits. */
  function DecimalValue(t: Text): nat
    requires forall i :: 0 <= i < |t| ==> IsDigit(t[i])
  {
    if t == [] then 0
    else
      assert IsDigit(t[|t| - 1]);
      10 * DecimalValue(t[..|t| - 1]) + t[|t| - 1] - 48
  }

  lemma {:induction false} DecimalValueOf(n: nat)
    ensures DecimalValue(Decimal(n)) == n
  {
    if n >= 10 {
      DecimalValueOf(n / 10);
      assert Decimal(n)[..|Decimal(n)| - 1] == Decimal(n / 10);
    } else {
      assert Decimal(n)[..0] == [];
    }
  }

  /** How many digits stand at the front. */
  function DigitRun(t: Text): (k: nat)
    ensures k <= |t| && forall i :: 0 <= i < k ==> IsDigit(t[i])
    ensures k < |t| ==> !IsDigit(t[k])
  {
    if t == [] || !IsDigit(t[0]) then 0 else 1 + DigitRun(t[1..])
  }

  lemma DigitRunUnique(t: Text, k: nat)
    requires k <= |t| && forall i :: 0 <= i < k ==> IsDigit(t[i])
    requires k < |t| ==> !IsDigit(t[k])
    ensures DigitRun(t) == k
  {
  }

  // ---------------------------------------------------------------------------------------------
  // Hexadecimal
  // ---------------------------------------------------------------------------------------------

  function HexDigit(d: nat): (u: Unit)
    requires d < 16
  {
    if d < 10 then 48 + d else 87 + d
  }

  /** The value of a hexadecimal digit, either case. */
  function HexDigitValue(u: Unit): (r: Option<nat>)
    ensures r.Some? ==> r.value < 16
  {
    if 48 <= u <= 57 then Some(u - 48)
    else if 97 <= u <= 102 then Some(u - 87)
    else if 65 <= u <= 70 then Some(u - 55)
    else None
  }

  predicate IsHex(t: Text) {
    forall i :: 0 <= i < |t| ==> HexDigitValue(t[i]).Some?
  }

  function HexValue(t: Text): nat
    requires IsHex(t)
  {
    if t == [] then 0 else 16 * HexValue(t[..|t| - 1]) + HexDigitValue(t[|t| - 1]).value
  }

  /** `n.toString(16)`. */
  function Hex(n: nat): (t: Text)
    ensures t != [] && IsHex(t)
  {
    if n < 16 then [HexDigit(n)] else Hex(n / 16) + [HexDigit(n % 16)]
  }

  lemma {:induction false} HexValueOf(n: nat)
    ensures HexValue(Hex(n)) == n
  {
    if n >= 16 {
      HexValueOf(n / 16);
      assert Hex(n)[..|Hex(n)| - 1] == Hex(n / 16);
    } else {
      assert Hex(n)[..0] == [];
    }
  }

  lemma {:induction false} HexLength(n: nat)
    requires n < 0x1_0000
    ensures |Hex(n)| <= 4
  {
    if n >= 16 {
      assert |Hex(n / 16)| <= 3 by {
        if n / 16 >= 16 {
          assert |Hex(n / 256)| <= 2 by {
            if n / 256 >= 16 { assert |Hex(n / 4096)| == 1; }
          }
          assert n / 16 / 16 == n / 256;
        }
      }
    }
  }

  // ---------------------------------------------------------------------------------------------
  // Splitting and joining
  // ---------------------------------------------------------------------------------------------

  /** `t.split(sep)` for a one-unit separator: never empty. */
  function Split(t: Text, sep: Unit): (r: seq<Text>)
    ensures r != []
  {
    if t == [] then [[]]
    else
      var rest := Split(t[1..], sep);
      if t[0] == sep then [[]] + rest else [[t[0]] + rest[0]] + rest[1..]
  }

  /** `parts.join(sep)`. */
  function Join(parts: seq<Text>, sep: Unit): Text {
    if parts == [] then []
    else if |parts| == 1 then parts[0]
    else parts[0] + [sep] + Join(parts[1..], sep)
  }

  ghost predicate Without(t: Text, u: Unit) {
    forall i :: 0 <= i < |t| ==> t[i] != u
  }

  ghost predicate AllWithout(parts: seq<Text>, u: Unit) {
    forall i :: 0 <= i < |parts| ==> Without(parts[i], u)
  }

  lemma {:induction false} SplitPlain(t: Text, sep: Unit)
    requires Without(t, sep)
    ensures Split(t, sep) == [t]
  {
    if t != [] {
      SplitPlain(t[1..], sep);
      assert t == [t[0]] + t[1..];
    }
  }

  lemma {:induction false} SplitFirst(t: Text, sep: Unit, rest: Text)
    requires Without(t, sep)
    ensures Split(t + [sep] + rest, sep) == [t] + Split(rest, sep)
  {
    var all := t + [sep] + rest;
    if t == [] {
      assert all[1..] == rest;
    } else {
      SplitFirst(t[1..], sep, rest);
      assert all[1..] == t[1..] + [sep] + rest;
      assert t == [t[0]] + t[1..];
      assert ([t[1..]] + Split(rest, sep))[1..] == Split(rest, sep);
    }
  }

  /** Splitting a join gives the parts back. */
  lemma {:induction false} SplitJoin(parts: seq<Text>, sep: Unit)
    requires parts != [] && AllWithout(parts, sep)
    ensures Split(Join(parts, sep), sep) == parts
  {
    if |parts| == 1 {
      SplitPlain(parts[0], sep);
    } else {
      SplitJoin(parts[1..], sep);
      SplitFirst(parts[0], sep, Join(parts[1..], sep));
    }
  }

  /** The first separator of a text is found at the same place however the text is written. */
  lemma FirstSeparator(a: Text, b: Text, c: Text, d: Text, sep: Unit)
    requires Without(a, sep) && Without(c, sep)
    requires a + [sep] + b == c + [sep] + d
    ensures a == c && b == d
  {
    var l, r := a + [sep] + b, c + [sep] + d;
    assert l[|a|] == sep && r[|c|] == sep;
    assert |a| == |c|;
    assert a == l[..|a|] && c == r[..|c|];
    assert b == l[|a| + 1..] && d == r[|c| + 1..];
  }
}
