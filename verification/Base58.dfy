/** lib/ed25519.js: the Solana address encoding. `base58` and `base58decode` are loops over a digit
    list updated in place; each is proved against a closed form, and the closed forms are proved to
    be inverse to each other. */
module Base58 {
  import opened Arith
  import opened Bytes
  import opened Digits

  /** The alphabet as the source spells it; `Letter` is the same table given by ranges. */
  const ALPHABET: string := "123456789" + "ABCDEFGH" + "JKLMN" + "PQRSTUVWXYZ" + "abcdefghijk" + "mnopqrstuvwxyz"

  function Letter(d: nat): (c: char)
    requires d < 58
  {
    if d < 9 then '1' + d as char
    else if d < 17 then 'A' + (d - 9) as char
    else if d < 22 then 'J' + (d - 17) as char
    else if d < 33 then 'P' + (d - 22) as char
    else if d < 44 then 'a' + (d - 33) as char
    else 'm' + (d - 44) as char
  }

  lemma LetterIsAlphabet()
    ensures |ALPHABET| == 58
    ensures forall d: nat :: d < 58 ==> ALPHABET[d] == Letter(d)
  {
    assert forall d: nat :: d < 9 ==> "123456789"[d] as int == '1' as int + d;
    assert forall d: nat :: d < 8 ==> "ABCDEFGH"[d] as int == 'A' as int + d;
    assert forall d: nat :: d < 5 ==> "JKLMN"[d] as int == 'J' as int + d;
    assert forall d: nat :: d < 11 ==> "PQRSTUVWXYZ"[d] as int == 'P' as int + d;
    assert forall d: nat :: d < 11 ==> "abcdefghijk"[d] as int == 'a' as int + d;
    assert forall d: nat :: d < 14 ==> "mnopqrstuvwxyz"[d] as int == 'm' as int + d;
  }

  /** The decoder's lookup table. */
  function IndexOf(c: char): (r: Option<nat>)
    ensures r.Some? ==> r.value < 58 && Letter(r.value) == c
    ensures forall d: nat :: d < 58 && Letter(d) == c ==> r == Some(d)
  {
    if '1' <= c <= '9' then Some((c - '1') as nat)
    else if 'A' <= c <= 'H' then Some((c - 'A') as nat + 9)
    else if 'J' <= c <= 'N' then Some((c - 'J') as nat + 17)
    else if 'P' <= c <= 'Z' then Some((c - 'P') as nat + 22)
    else if 'a' <= c <= 'k' then Some((c - 'a') as nat + 33)
    else if 'm' <= c <= 'z' then Some((c - 'm') as nat + 44)
    else None
  }

  predicate InAlphabet(s: string) {
    forall i :: 0 <= i < |s| ==> IndexOf(s[i]).Some?
  }

  function LeadingZeros(b: seq<nat>): (z: nat)
    ensures z <= |b|
    ensures forall i :: 0 <= i < z ==> b[i] == 0
    ensures z < |b| ==> b[z] != 0
  {
    if b == [] || b[0] != 0 then 0 else 1 + LeadingZeros(b[1..])
  }

  /** Base conversion that keeps leading zeros: both directions of the codec are instances. */
  function Convert(b: seq<nat>, base: nat, to: nat): seq<nat>
    requires to >= 2
  {
    var z := LeadingZeros(b);
    Repeat(0, z) + Reverse(Of(BigEndian(b[z..], base), to))
  }

  ghost predicate DigitsBelow(b: seq<nat>, base: nat) {
    forall i :: 0 <= i < |b| ==> b[i] < base
  }

  lemma LeadingZerosUnique(b: seq<nat>, z: nat)
    requires z <= |b|
    requires forall i :: 0 <= i < z ==> b[i] == 0
    requires z < |b| ==> b[z] != 0
    ensures LeadingZeros(b) == z
  {
  }

  lemma ConvertBelow(b: seq<nat>, base: nat, to: nat)
    requires to >= 2
    ensures DigitsBelow(Convert(b, base, to), to)
  {
    OfIsCanonical(BigEndian(b[LeadingZeros(b)..], base), to);
  }

  /** A converted list shows its own leading zeros and value. */
  lemma ConvertParts(b: seq<nat>, base: nat, to: nat)
    requires to >= 2
    ensures var z := LeadingZeros(b); var r := Convert(b, base, to);
      && LeadingZeros(r) == z
      && BigEndian(r[z..], to) == BigEndian(b[z..], base)
  {
    var z := LeadingZeros(b);
    var v := BigEndian(b[z..], base);
    var r := Convert(b, base, to);
    BigEndianOfDigits(v, to);
    assert r[z..] == Reverse(Of(v, to));
    LeadingZerosUnique(r, z);
  }

  /** Converting back gives the digits that went in, leading zeros included. */
  lemma ConvertRoundTrip(b: seq<nat>, base: nat, to: nat)
    requires base >= 2 && to >= 2 && DigitsBelow(b, base)
    ensures Convert(Convert(b, base, to), to, base) == b
  {
    hide LeadingZeros, BigEndian, Of;
    var z := LeadingZeros(b);
    ConvertParts(b, base, to);
    BigEndianDigits(b[z..], base);
    assert b == Repeat(0, z) + b[z..];
  }

  /** The address of a byte string: one '1' per leading zero byte, then the base-58 digits. */
  function Encode(b: seq<Byte>): (s: string)
    ensures InAlphabet(s)
  {
    ConvertBelow(b, 256, 58);
    var ds := Convert(b, 256, 58);
    seq(|ds|, i requires 0 <= i < |ds| => Letter(ds[i]))
  }

  function Indices(s: string): (r: seq<nat>)
    requires InAlphabet(s)
    ensures |r| == |s| && forall i :: 0 <= i < |s| ==> r[i] < 58 && Letter(r[i]) == s[i]
  {
    seq(|s|, i requires 0 <= i < |s| => IndexOf(s[i]).value)
  }

  datatype DecodeError = InvalidCharacter(c: char)

  /** First character, from the left, that the decoder's table does not know. */
  function FirstBad(s: string): (r: Option<char>)
    ensures r.None? <==> InAlphabet(s)
    ensures r.Some? ==> r.value in s && IndexOf(r.value).None?
  {
    if s == [] then None
    else if IndexOf(s[0]).None? then Some(s[0])
    else
      assert s == [s[0]] + s[1..];
      FirstBad(s[1..])
  }

  function Decode(s: string): (r: Result<seq<Byte>, DecodeError>)
  {
    if FirstBad(s).Some? then Err(InvalidCharacter(FirstBad(s).value))
    else
      ConvertBelow(Indices(s), 58, 256);
      Ok(Convert(Indices(s), 58, 256))
  }

  /** Decoding an encoded byte string gives it back: every byte sequence, leading zeros included. */
  lemma DecodeEncode(b: seq<Byte>)
    ensures Decode(Encode(b)) == Ok(b)
  {
    var ds := Convert(b, 256, 58);
    ConvertBelow(b, 256, 58);
    assert Indices(Encode(b)) == ds;
    ConvertRoundTrip(b, 256, 58);
  }

  /** Encoding a decoded string gives it back: every string over the alphabet; any other string is
      refused. */
  lemma EncodeDecode(s: string)
    ensures Decode(s).Ok? <==> InAlphabet(s)
    ensures Decode(s).Ok? ==> Encode(Decode(s).value) == s
  {
    if InAlphabet(s) {
      ConvertRoundTrip(Indices(s), 58, 256);
    }
  }

  /** Different byte strings have different addresses, so comparing addresses compares bytes. */
  lemma EncodeInjective(a: seq<Byte>, b: seq<Byte>)
    ensures Encode(a) == Encode(b) <==> a == b
  {
    DecodeEncode(a);
    DecodeEncode(b);
  }

  /** After its leading '1's an address has exactly the d digits with 58^(d-1) <= value < 58^d. */
  lemma EncodeDigitCount(b: seq<Byte>)
    ensures var z, v := LeadingZeros(b), BigEndian(b[LeadingZeros(b)..], 256);
      && |Encode(b)| >= z
      && (forall i :: 0 <= i < z ==> Encode(b)[i] == '1')
      && (|Encode(b)| > z ==> Encode(b)[z] != '1')
      && v < Pow(58, |Encode(b)| - z)
      && (|Encode(b)| > z ==> Pow(58, |Encode(b)| - z - 1) <= v)
  {
    hide LeadingZeros, BigEndian, Of, Val, Pow;
    var z := LeadingZeros(b);
    var v := BigEndian(b[z..], 256);
    OfIsCanonical(v, 58);
    ValBelow(Of(v, 58), 58);
    var ds := Convert(b, 256, 58);
    ConvertBelow(b, 256, 58);
    if |ds| > z {
      ValAtLeast(Of(v, 58), 58);
      assert ds[z] != 0;
      assert IndexOf(Encode(b)[z]) == Some(ds[z]);
    }
  }

  lemma {:induction false} PowersAgainst(a: nat)
    requires a <= 32
    ensures Pow(256, a) <= Pow(58, a + 12)
    decreases 32 - a
  {
    if a == 32 {
      LargePowers();
    } else {
      PowersAgainst(a + 1);
      assert Pow(256, a + 1) == 256 * Pow(256, a);
      assert Pow(58, a + 13) == 58 * Pow(58, a + 12);
    }
  }

  /** 256^32 <= 58^44, from 256^8 <= 58^11. */
  lemma LargePowers()
    ensures Pow(256, 32) <= Pow(58, 44)
  {
    var p, q := Pow(256, 8), Pow(58, 11);
    PowAdd(256, 8, 8);
    PowAdd(58, 11, 11);
    PowAdd(256, 16, 16);
    PowAdd(58, 22, 22);
    assert Pow(256, 4) == 0x1_0000_0000;
    PowAdd(256, 4, 4);
    assert Pow(58, 4) == 11316496;
    assert Pow(58, 3) == 195112;
    PowAdd(58, 4, 4);
    PowAdd(58, 8, 3);
    assert p <= q;
    MulMonotone(p, p, q);
    MulMonotone(q, p, q);
    assert p * p <= q * q;
    MulMonotone(p * p, p * p, q * q);
    MulMonotone(q * q, p * p, q * q);
  }

  lemma {:induction false} PowAdd(b: nat, e: nat, f: nat)
    ensures Pow(b, e + f) == Pow(b, e) * Pow(b, f)
    decreases e
  {
    if e > 0 {
      PowAdd(b, e - 1, f);
      MulAssoc(b, Pow(b, e - 1), Pow(b, f));
    }
  }

  lemma {:induction false} PowBaseMonotone(a: nat, b: nat, e: nat)
    requires 1 <= a <= b
    ensures Pow(a, e) <= Pow(b, e)
  {
    if e > 0 {
      PowBaseMonotone(a, b, e - 1);
      MulMonotone(a, Pow(a, e - 1), Pow(b, e - 1));
      MulMonotone(Pow(b, e - 1), a, b);
    }
  }

  /** A 32-byte key has an address of 32 to 44 characters. */
  lemma AddressLength(key: seq<Byte>)
    requires |key| == 32
    ensures 32 <= |Encode(key)| <= 44
  {
    hide LeadingZeros, BigEndian, Pow, Encode;
    var z := LeadingZeros(key);
    var v := BigEndian(key[z..], 256);
    var d := |Encode(key)| - z;
    EncodeDigitCount(key);
    ValueBounds(key);
    if d > 44 - z {
      PowersAgainst(32 - z);
      PowMonotone(58, 44 - z, d - 1);
      assert false;
    }
    if z < 32 && d <= 31 - z {
      PowBaseMonotone(58, 256, 31 - z);
      PowMonotone(58, d, 31 - z);
      assert false;
    }
  }

  lemma ValueBounds(b: seq<Byte>)
    ensures var z := LeadingZeros(b); var v := BigEndian(b[z..], 256);
      && v < Pow(256, |b| - z)
      && (z < |b| ==> Pow(256, |b| - z - 1) <= v)
  {
    hide BigEndian, Pow, LeadingZeros;
    TailBounds(b[LeadingZeros(b)..], 256);
  }

  lemma TailBounds(b: seq<nat>, base: nat)
    requires base >= 2 && DigitsBelow(b, base)
    requires b != [] ==> b[0] != 0
    ensures BigEndian(b, base) < Pow(base, |b|)
    ensures b != [] ==> Pow(base, |b| - 1) <= BigEndian(b, base)
  {
    BigEndianIsReversedVal(b, base);
    ValBelow(Reverse(b), base);
    if b != [] {
      ValAtLeast(Reverse(b), base);
    }
  }

  lemma CarryStaysSmall(base: nat, mul: nat, carry: nat, digit: nat)
    requires base >= 2 && carry < mul && digit < base
    ensures (carry + digit * mul) / base < mul
  {
    var t := carry + digit * mul;
    DivModParts(t, base);
    if t / base >= mul {
      MulMonotone(base, mul, t / base);
      MulMonotone(mul, digit + 1, base);
      assert false;
    }
  }

  lemma MulAddUnroll(ds: seq<nat>, j: nat, base: nat, mul: nat, carry: nat)
    requires base >= 2 && j < |ds|
    ensures var t := carry + ds[j] * mul;
      MulAdd(ds[j..], base, mul, carry) == [t % base] + MulAdd(ds[j + 1..], base, mul, t / base)
  {
    assert ds[j..][1..] == ds[j + 1..];
  }

  lemma MulAddEmpty(base: nat, mul: nat, carry: nat)
    requires base >= 2
    ensures MulAdd([], base, mul, carry) == Of(carry, base)
  {
  }

  function Replace(s: seq<nat>, j: nat, d: nat, ghost orig: seq<nat>): (r: seq<nat>)
    requires j < |s| == |orig| && s[j..] == orig[j..]
    ensures |r| == |s| && r[..j + 1] == s[..j] + [d] && r[j + 1..] == orig[j + 1..]
  {
    assert s[j + 1..] == s[j..][1..] == orig[j + 1..];
    s[j := d]
  }

  /** The carry loops of both directions: the digit list is multiplied by `mul` in place, `add` comes
      in at the bottom, and what is left of the carry is pushed on top. The carry never reaches
      `mul` (255 when encoding, 57 when decoding). */
  method MultiplyAdd(ds: seq<nat>, base: nat, mul: nat, add: nat) returns (digits: seq<nat>)
    requires base >= 2 && add < mul && DigitsBelow(ds, base)
    ensures digits == MulAdd(ds, base, mul, add)
  {
    hide MulAdd, Of;
    digits := ds;
    var carry: nat := add;
    for j := 0 to |ds|
      invariant |digits| == |ds| && digits[j..] == ds[j..]
      invariant carry < mul
      invariant MulAdd(ds, base, mul, add) == digits[..j] + MulAdd(ds[j..], base, mul, carry)
    {
      assert digits[j] == digits[j..][0] == ds[j];
      CarryStaysSmall(base, mul, carry, digits[j]);
      MulAddUnroll(ds, j, base, mul, carry);
      carry := carry + digits[j] * mul;
      DivModParts(carry, base);
      ghost var front, rest := digits[..j], MulAdd(ds[j + 1..], base, mul, carry / base);
      digits := Replace(digits, j, carry % base, ds);
      assert front + ([carry % base] + rest) == digits[..j + 1] + rest;
      carry := carry / base;
    }
    assert digits[..|ds|] == digits && ds[|ds|..] == [];
    MulAddEmpty(base, mul, carry);
    var top := PushCarry(carry, base);
    digits := digits + top;
  }

  /** The closing `while (carry)` loop: what it pushes. */
  method PushCarry(c: nat, base: nat) returns (top: seq<nat>)
    requires base >= 2
    ensures top == Of(c, base)
  {
    top := [];
    var carry: nat := c;
    while carry != 0
      invariant Of(c, base) == top + Of(carry, base)
    {
      DivModParts(carry, base);
      ghost var rest := Of(carry / base, base);
      assert top + ([carry % base] + rest) == (top + [carry % base]) + rest;
      top := top + [carry % base];
      carry := carry / base;
    }
  }

  /** The digits of the part of the input read so far. */
  ghost function Partial(b: seq<nat>, base: nat, to: nat): seq<nat>
    requires to >= 2
  {
    Of(BigEndian(b, base), to)
  }

  lemma PartialStep(b: seq<nat>, base: nat, to: nat, d: nat)
    requires base >= 2 && to >= 2
    ensures MulAdd(Partial(b, base, to), to, base, d) == Partial(b + [d], base, to)
    ensures DigitsBelow(Partial(b, base, to), to)
  {
    OfIsCanonical(BigEndian(b, base), to);
    MulAddPush(b, base, to, d);
  }

  lemma MulAddPush(b: seq<nat>, base: nat, to: nat, d: nat)
    requires base >= 2 && to >= 2
    ensures MulAdd(Partial(b, base, to), to, base, d) == Partial(b + [d], base, to)
  {
    hide MulAdd, Of, BigEndian;
    MulAddOf(BigEndian(b, base), to, base, d);
    BigEndianPush(b, base, d);
  }

  lemma BigEndianPush(b: seq<nat>, base: nat, d: nat)
    ensures BigEndian(b + [d], base) == base * BigEndian(b, base) + d
  {
    assert (b + [d])[..|b|] == b;
  }

  /** `base58`: count zeros, convert byte by byte, print most significant digit first. */
  method EncodeLoop(buf: seq<Byte>) returns (out: string)
    ensures out == Encode(buf)
  {
    var zeros := 0;
    while zeros < |buf| && buf[zeros] == 0
      invariant zeros <= |buf|
      invariant forall i :: 0 <= i < zeros ==> buf[i] == 0
    {
      zeros := zeros + 1;
    }
    LeadingZerosUnique(buf, zeros);
    var digits: seq<nat> := [];
    ghost var done: seq<nat> := [];
    for i := zeros to |buf|
      invariant done == buf[zeros..i]
      invariant digits == Partial(done, 256, 58)
    {
      PartialStep(done, 256, 58, buf[i]);
      digits := MultiplyAdd(digits, 58, 256, buf[i]);
      done := done + [buf[i]];
    }
    PartialStep(done, 256, 58, 0);
    assert done == buf[zeros..];
    out := PrintDigits(zeros, digits, buf);
  }

  method PrintDigits(zeros: nat, digits: seq<nat>, ghost buf: seq<Byte>) returns (out: string)
    requires DigitsBelow(digits, 58)
    requires Convert(buf, 256, 58) == Repeat(0, zeros) + Reverse(digits)
    ensures out == Encode(buf)
  {
    out := seq(zeros, _ => '1');
    var k := |digits|;
    while k > 0
      invariant 0 <= k <= |digits|
      invariant |out| == zeros + |digits| - k
      invariant forall i :: 0 <= i < zeros ==> out[i] == '1'
      invariant forall i :: zeros <= i < |out| ==> out[i] == Letter(digits[|digits| - 1 - (i - zeros)])
    {
      k := k - 1;
      out := out + [Letter(digits[k])];
    }
    assert |out| == |Encode(buf)|;
    forall i | 0 <= i < |out| ensures out[i] == Encode(buf)[i] {
      if i >= zeros {
        assert Convert(buf, 256, 58)[i] == Reverse(digits)[i - zeros];
      }
    }
  }

  /** `base58decode`: the same conversion the other way, written back to front into a fresh
      buffer; the first unknown character stops it. */
  method DecodeLoop(str: string) returns (r: Result<seq<Byte>, DecodeError>)
    ensures r == Decode(str)
  {
    var zeros := 0;
    while zeros < |str| && str[zeros] == '1'
      invariant zeros <= |str|
      invariant forall i :: 0 <= i < zeros ==> str[i] == '1'
    {
      zeros := zeros + 1;
    }
    var bytes: seq<nat> := [];
    ghost var done: seq<nat> := [];
    for i := zeros to |str|
      invariant |done| == i - zeros
      invariant forall k :: zeros <= k < i ==> IndexOf(str[k]) == Some(done[k - zeros])
      invariant bytes == Partial(done, 58, 256)
    {
      var c := IndexOf(str[i]);
      if c.None? {
        assert IndexOf('1') == Some(0);
        FirstBadAt(str, i);
        return Err(InvalidCharacter(str[i]));
      }
      PartialStep(done, 58, 256, c.value);
      bytes := MultiplyAdd(bytes, 256, 58, c.value);
      done := done + [c.value];
    }
    PartialStep(done, 58, 256, 0);
    LeadingZerosUnique(Indices(str), zeros);
    assert done == Indices(str)[zeros..];
    var out := WriteBackwards(zeros, bytes);
    r := Ok(out);
  }

  method WriteBackwards(zeros: nat, bytes: seq<nat>) returns (r: seq<Byte>)
    requires DigitsBelow(bytes, 256)
    ensures r == Repeat(0, zeros) + Reverse(bytes)
  {
    var out := new Byte[zeros + |bytes|](_ => 0);
    for i := 0 to |bytes|
      invariant forall k :: 0 <= k < zeros ==> out[k] == 0
      invariant forall k :: zeros + |bytes| - i <= k < zeros + |bytes| ==> out[k] == bytes[zeros + |bytes| - 1 - k]
    {
      out[zeros + |bytes| - 1 - i] := bytes[i];
    }
    r := out[..];
  }

  lemma FirstBadAt(s: string, i: nat)
    requires i < |s| && InAlphabet(s[..i]) && IndexOf(s[i]).None?
    ensures FirstBad(s) == Some(s[i])
  {
    if i > 0 {
      assert s[0] == s[..i][0];
      assert s[1..][..i - 1] == s[..i][1..];
      FirstBadAt(s[1..], i - 1);
    }
  }
}
