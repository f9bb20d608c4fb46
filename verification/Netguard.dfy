/** lib/netguard.js: which addresses belong to the host's own networks, on the texts they are given as. */
module Netguard {
  import opened Arith
  import opened Bits
  import opened Bytes
  import opened Text

  const COLON: Unit := 58
  const DOT: Unit := 46
  const PERCENT: Unit := 37
  const OPEN: Unit := 91
  const CLOSE: Unit := 93

  predicate AllDigits(t: Text) {
    forall i :: 0 <= i < |t| ==> IsDigit(t[i])
  }

  // ---------------------------------------------------------------------------------------------
  // IPv4
  // ---------------------------------------------------------------------------------------------

  /** `+text` on decimal digits; other spellings of numbers are not modelled and read as NaN, which
      the 32-bit operations take for 0. */
  function Number(t: Text): nat {
    if AllDigits(t) then DecimalValue(t) else 0
  }

  /** `((a << 8) + o) >>> 0`. */
  function Shifted(a: nat, o: nat): (r: nat)
    ensures r < TWO32
  {
    (ToInt32(a * 256) + o) % TWO32
  }

  function Folded(a: nat, parts: seq<Text>): nat
    decreases |parts|
  {
    if parts == [] then a else Folded(Shifted(a, Number(parts[0])), parts[1..])
  }

  /** `ipToLong`. */
  function ToLong(ip: Text): nat {
    Folded(0, Split(ip, DOT))
  }

  /** `a.b.c.d`. */
  function Dotted(a: nat, b: nat, c: nat, d: nat): Text {
    Join([Decimal(a), Decimal(b), Decimal(c), Decimal(d)], DOT)
  }

  /** `(~0 << (32 - bits)) >>> 0`. */
  function Mask(bits: nat): (r: nat)
    requires bits <= 32
    ensures r < TWO32
  {
    if bits == 0 then 0 else (0 - Pow2(32 - bits)) % TWO32
  }

  /** `v4InCidr`: `&` gives a signed number. */
  predicate InCidr(ip: Text, base: Text, bits: nat)
    requires bits <= 32
  {
    ToInt32(And(ToLong(ip), Mask(bits))) == ToInt32(And(ToLong(base), Mask(bits)))
  }

  predicate IsPrivateV4(ip: Text) {
    || InCidr(ip, Dotted(0, 0, 0, 0), 8)
    || InCidr(ip, Dotted(10, 0, 0, 0), 8)
    || InCidr(ip, Dotted(100, 64, 0, 0), 10)
    || InCidr(ip, Dotted(127, 0, 0, 0), 8)
    || InCidr(ip, Dotted(169, 254, 0, 0), 16)
    || InCidr(ip, Dotted(172, 16, 0, 0), 12)
    || InCidr(ip, Dotted(192, 0, 0, 0), 24)
    || InCidr(ip, Dotted(192, 0, 2, 0), 24)
    || InCidr(ip, Dotted(192, 168, 0, 0), 16)
    || InCidr(ip, Dotted(198, 18, 0, 0), 15)
    || InCidr(ip, Dotted(198, 51, 100, 0), 24)
    || InCidr(ip, Dotted(203, 0, 113, 0), 24)
    || InCidr(ip, Dotted(224, 0, 0, 0), 4)
    || InCidr(ip, Dotted(240, 0, 0, 0), 4)
  }

  /** The special-purpose ranges, as intervals of 32-bit numbers. */
  predicate PrivateAddress(x: nat) {
    || x <= 0x00FF_FFFF
    || 0x0A00_0000 <= x <= 0x0AFF_FFFF
    || 0x6440_0000 <= x <= 0x647F_FFFF
    || 0x7F00_0000 <= x <= 0x7FFF_FFFF
    || 0xA9FE_0000 <= x <= 0xA9FE_FFFF
    || 0xAC10_0000 <= x <= 0xAC1F_FFFF
    || 0xC000_0000 <= x <= 0xC000_00FF
    || 0xC000_0200 <= x <= 0xC000_02FF
    || 0xC0A8_0000 <= x <= 0xC0A8_FFFF
    || 0xC612_0000 <= x <= 0xC613_FFFF
    || 0xC633_6400 <= x <= 0xC633_64FF
    || 0xCB00_7100 <= x <= 0xCB00_71FF
    || 0xE000_0000 <= x
  }

  lemma ShiftedValue(a: nat, o: nat)
    ensures Shifted(a, o) == (a * 256 + o) % TWO32
  {
  }

  lemma {:induction false} FoldedBelow(a: nat, parts: seq<Text>)
    requires a < TWO32
    ensures Folded(a, parts) < TWO32
    decreases |parts|
  {
    if parts != [] { FoldedBelow(Shifted(a, Number(parts[0])), parts[1..]); }
  }

  lemma ToLongBelow(ip: Text)
    ensures ToLong(ip) < TWO32
  {
    FoldedBelow(0, Split(ip, DOT));
  }

  lemma DecimalDigits(n: nat)
    ensures AllDigits(Decimal(n)) && Without(Decimal(n), DOT) && Number(Decimal(n)) == n
  {
    var t := Decimal(n);
    forall i | 0 <= i < |t| ensures t[i] != DOT { assert IsDigit(t[i]); }
    DecimalValueOf(n);
  }

  /** Printing four octets and reading them back gives the 32-bit number. */
  lemma ToLongDotted(a: nat, b: nat, c: nat, d: nat)
    requires a < 256 && b < 256 && c < 256 && d < 256
    ensures ToLong(Dotted(a, b, c, d)) == a * 0x100_0000 + b * 0x1_0000 + c * 0x100 + d
  {
    hide Decimal, Number, Shifted, Split, Join;
    var parts := [Decimal(a), Decimal(b), Decimal(c), Decimal(d)];
    DecimalDigits(a);
    DecimalDigits(b);
    DecimalDigits(c);
    DecimalDigits(d);
    SplitJoin(parts, DOT);
    ShiftedValue(0, a);
    ShiftedValue(a, b);
    ShiftedValue(a * 256 + b, c);
    ShiftedValue((a * 256 + b) * 256 + c, d);
    FoldFour(parts);
  }

  lemma FoldFour(parts: seq<Text>)
    requires |parts| == 4
    ensures Folded(0, parts) ==
      Shifted(Shifted(Shifted(Shifted(0, Number(parts[0])), Number(parts[1])), Number(parts[2])), Number(parts[3]))
  {
    hide Number, Shifted;
    var v := Shifted(0, Number(parts[0]));
    var w := Shifted(v, Number(parts[1]));
    var x := Shifted(w, Number(parts[2]));
    var y := Shifted(x, Number(parts[3]));
    assert parts[1..][1..] == parts[2..] && parts[2..][1..] == parts[3..] && parts[3..][1..] == [];
    assert Folded(x, parts[3..]) == Folded(y, []);
    assert Folded(w, parts[2..]) == Folded(x, parts[3..]);
    assert Folded(v, parts[1..]) == Folded(w, parts[2..]);
  }

  lemma MaskValue(bits: nat)
    requires 1 <= bits <= 32
    ensures Mask(bits) == Pow2(32) - Pow2(32 - bits)
  {
    Pow2Values();
    Pow2Monotone(32 - bits, 31);
  }

  /** x with its remainder modulo p dropped. */
  function Floor(x: nat, p: nat): (r: nat)
    requires p > 0
    ensures r <= x < r + p
  {
    DivModParts(x, p);
    x - x % p
  }

  lemma FloorIsMultiple(x: nat, p: nat)
    requires p > 0
    ensures Floor(x, p) == x / p * p
  {
    DivModParts(x, p);
  }

  lemma Masked(x: nat, bits: nat)
    requires bits <= 32 && x < TWO32
    ensures Pow2(32 - bits) > 0 && And(x, Mask(bits)) == Floor(x, Pow2(32 - bits))
  {
    hide And;
    var p := Pow2(32 - bits);
    Pow2Monotone(0, 32 - bits);
    Pow2Values();
    if bits == 0 {
      Nothing(x);
    } else {
      MaskValue(bits);
      FloorIsMultiple(x, p);
      AndHighMask(x / p, x % p, 32 - bits, 32);
    }
  }

  lemma Nothing(x: nat)
    requires x < TWO32
    ensures And(x, 0) == 0 && Floor(x, TWO32) == 0
  {
  }

  lemma SameFloor(x: nat, y: nat, p: nat)
    requires p > 0
    ensures Floor(x, p) == Floor(y, p) <==> Floor(y, p) <= x < Floor(y, p) + p
  {
    FloorIsMultiple(x, p);
    FloorIsMultiple(y, p);
    if Floor(y, p) <= x < Floor(y, p) + p {
      DivModParts(x, p);
      assert p * (y / p) == y / p * p;
      QuotientUnique(p, x / p, x % p, y / p, x - Floor(y, p));
    }
  }

  /** The shift-and-mask test is membership of an interval: the base with its low bits cleared, and
      2^(32-bits) addresses from there. */
  lemma CidrIsInterval(ip: Text, base: Text, bits: nat)
    requires bits <= 32
    ensures Pow2(32 - bits) > 0
    ensures InCidr(ip, base, bits) <==>
      var low := Floor(ToLong(base), Pow2(32 - bits)); low <= ToLong(ip) < low + Pow2(32 - bits)
  {
    hide And, ToLong, Mask, Floor, Pow2;
    ToLongBelow(ip);
    ToLongBelow(base);
    Masked(ToLong(ip), bits);
    Masked(ToLong(base), bits);
    SameFloor(ToLong(ip), ToLong(base), Pow2(32 - bits));
  }

  /** One aligned range, written with its end. */
  lemma Range(ip: Text, a: nat, b: nat, c: nat, bits: nat, low: nat, size: nat)
    requires a < 256 && b < 256 && c < 256 && bits <= 32
    requires low == a * 0x100_0000 + b * 0x1_0000 + c * 0x100 && size == Pow2(32 - bits) && size > 0 && low % size == 0
    ensures InCidr(ip, Dotted(a, b, c, 0), bits) <==> low <= ToLong(ip) < low + size
  {
    hide InCidr, ToLong, Dotted, Pow2;
    ToLongDotted(a, b, c, 0);
    CidrIsInterval(ip, Dotted(a, b, c, 0), bits);
    assert Floor(low, size) == low;
  }

  lemma Powers()
    ensures Pow2(8) == 0x100 && Pow2(16) == 0x1_0000 && Pow2(17) == 0x2_0000 && Pow2(20) == 0x10_0000
    ensures Pow2(22) == 0x40_0000 && Pow2(24) == 0x100_0000 && Pow2(28) == 0x1000_0000
  {
    Pow2Values();
    Pow2Add(1, 16);
    Pow2Add(4, 16);
    Pow2Add(2, 20);
    Pow2Add(8, 16);
    Pow2Add(4, 24);
    assert Pow2(1) == 2 && Pow2(2) == 4;
  }

  /** On every text, `isPrivateV4` says whether the number it reads lies in one of the ranges. */
  lemma PrivateV4Iff(ip: Text)
    ensures IsPrivateV4(ip) <==> PrivateAddress(ToLong(ip))
  {
    hide InCidr, ToLong, Dotted, Pow2;
    Powers();
    ToLongBelow(ip);
    Range(ip, 0, 0, 0, 8, 0, 0x100_0000);
    Range(ip, 10, 0, 0, 8, 0x0A00_0000, 0x100_0000);
    Range(ip, 100, 64, 0, 10, 0x6440_0000, 0x40_0000);
    Range(ip, 127, 0, 0, 8, 0x7F00_0000, 0x100_0000);
    Range(ip, 169, 254, 0, 16, 0xA9FE_0000, 0x1_0000);
    Range(ip, 172, 16, 0, 12, 0xAC10_0000, 0x10_0000);
    Range(ip, 192, 0, 0, 24, 0xC000_0000, 0x100);
    Range(ip, 192, 0, 2, 24, 0xC000_0200, 0x100);
    Range(ip, 192, 168, 0, 16, 0xC0A8_0000, 0x1_0000);
    Range(ip, 198, 18, 0, 15, 0xC612_0000, 0x2_0000);
    Range(ip, 198, 51, 100, 24, 0xC633_6400, 0x100);
    Range(ip, 203, 0, 113, 24, 0xCB00_7100, 0x100);
    Range(ip, 224, 0, 0, 4, 0xE000_0000, 0x1000_0000);
    Range(ip, 240, 0, 0, 4, 0xF000_0000, 0x1000_0000);
  }

  // ---------------------------------------------------------------------------------------------
  // IPv6
  // ---------------------------------------------------------------------------------------------

  /** `toLowerCase` on ASCII letters. */
  function Lower(t: Text): (r: Text)
    ensures |r| == |t|
  {
    seq(|t|, i requires 0 <= i < |t| => if 65 <= t[i] <= 90 then t[i] + 32 else t[i])
  }

  /** `replace(/^\[|\]$/g, '')`. */
  function Strip(t: Text): Text {
    var a := if t != [] && t[0] == OPEN then t[1..] else t;
    if a != [] && a[|a| - 1] == CLOSE then a[..|a| - 1] else a
  }

  function LastColon(t: Text): (r: Option<nat>)
    ensures r.Some? ==> r.value < |t| && t[r.value] == COLON && Without(t[r.value + 1..], COLON)
    ensures r.None? ==> Without(t, COLON)
    decreases |t|
  {
    if t == [] then None
    else if t[|t| - 1] == COLON then Some(|t| - 1)
    else
      var r := LastColon(t[..|t| - 1]);
      assert r.Some? ==> t[r.value + 1..] == t[..|t| - 1][r.value + 1..] + [t[|t| - 1]];
      r
  }

  /** `\d{1,3}`. */
  predicate OctetText(t: Text) {
    1 <= |t| <= 3 && AllDigits(t)
  }

  predicate DottedParts(parts: seq<Text>) {
    |parts| == 4 && forall i :: 0 <= i < 4 ==> OctetText(parts[i])
  }

  /** The two groups four octets make, in hexadecimal. */
  function HexPair(parts: seq<Text>): Text
    requires DottedParts(parts)
  {
    assert forall i :: 0 <= i < 4 ==> OctetText(parts[i]);
    Hex(Or(DecimalValue(parts[0]) * 256, DecimalValue(parts[1]))) +
      ([COLON] + Hex(Or(DecimalValue(parts[2]) * 256, DecimalValue(parts[3]))))
  }

  predicate Octets(parts: seq<Text>)
    requires DottedParts(parts)
  {
    forall i :: 0 <= i < 4 ==> Number(parts[i]) <= 255
  }

  /** A dotted tail after the last colon is rewritten as two groups; none for an octet above 255. */
  function Undot(x: Text): Option<Text> {
    var i := LastColon(x);
    if i.None? then Some(x)
    else
      var parts := Split(x[i.value + 1..], DOT);
      if !DottedParts(parts) then Some(x)
      else if !Octets(parts) then None
      else Some(x[..i.value + 1] + HexPair(parts))
  }

  /** `split('::')`. */
  function SplitDouble(t: Text): (r: seq<Text>)
    ensures r != []
    decreases |t|
  {
    if |t| < 2 then [t]
    else if t[0] == COLON && t[1] == COLON then [[]] + SplitDouble(t[2..])
    else
      var rest := SplitDouble(t[1..]);
      [[t[0]] + rest[0]] + rest[1..]
  }

  function Groups(half: Text): seq<Text> {
    if half == [] then [] else Split(half, COLON)
  }

  /** The eight group texts, if there are eight. */
  function Hextets(x: Text): Option<seq<Text>> {
    var halves := SplitDouble(x);
    if |halves| > 2 then None
    else
      var head := Groups(halves[0]);
      if |halves| == 1 then (if |head| == 8 then Some(head) else None)
      else
        var tail := Groups(halves[1]);
        if |head| + |tail| > 8 then None else Some(head + Repeat([ZERO], 8 - |head| - |tail|) + tail)
  }

  predicate IsWhite(u: Unit) {
    || 9 <= u <= 13 || u == 32 || u == 160 || u == 0x1680 || 0x2000 <= u <= 0x200A
    || u == 0x2028 || u == 0x2029 || u == 0x202F || u == 0x205F || u == 0x3000 || u == 0xFEFF
  }

  function Trim(t: Text): Text {
    if t != [] && IsWhite(t[0]) then Trim(t[1..]) else t
  }

  /** How many hexadecimal digits stand at the front. */
  function HexRun(t: Text): (k: nat)
    ensures k <= |t| && IsHex(t[..k])
  {
    if t == [] || HexDigitValue(t[0]).None? then 0
    else
      var k := 1 + HexRun(t[1..]);
      assert t[..k] == [t[0]] + t[1..][..k - 1];
      k
  }

  /** `parseInt(t, 16)`; none stands for NaN. */
  function ParseHex(t: Text): Option<int> {
    var a := Trim(t);
    var minus := a != [] && a[0] == 45;
    var b := if a != [] && (a[0] == 45 || a[0] == 43) then a[1..] else a;
    var c := if |b| >= 2 && b[0] == ZERO && (b[1] == 120 || b[1] == 88) then b[2..] else b;
    var k := HexRun(c);
    if k == 0 then None else Some(if minus then 0 - HexValue(c[..k]) else HexValue(c[..k]))
  }

  /** One group as a number, if it is one of 16 bits. */
  function Hextet(t: Text): (r: Option<nat>)
    ensures r.Some? ==> r.value <= 0xFFFF
  {
    if t == [] then Some(0)
    else
      var n := ParseHex(t);
      if n.None? || n.value < 0 || n.value > 0xFFFF then None else Some(n.value)
  }

  function Numbers(hs: seq<Text>): (r: Option<seq<nat>>)
    ensures r.Some? ==> |r.value| == |hs| && forall i :: 0 <= i < |hs| ==> r.value[i] <= 0xFFFF
    decreases |hs|
  {
    if hs == [] then Some([])
    else if Hextet(hs[0]).None? then None
    else
      var rest := Numbers(hs[1..]);
      if rest.None? then None else Some([Hextet(hs[0]).value] + rest.value)
  }

  /** From the lower-cased text without brackets and zone. */
  function ExpandPlain(x: Text): (r: Option<seq<nat>>)
    ensures r.Some? ==> |r.value| == 8 && forall i :: 0 <= i < 8 ==> r.value[i] <= 0xFFFF
  {
    var y := Undot(x);
    if y.None? || Hextets(y.value).None? then None else Numbers(Hextets(y.value).value)
  }

  /** `expandV6`. */
  function ExpandV6(ip: Text): (r: Option<seq<nat>>)
    ensures r.Some? ==> |r.value| == 8 && forall i :: 0 <= i < 8 ==> r.value[i] <= 0xFFFF
  {
    ExpandPlain(Split(Strip(Lower(ip)), PERCENT)[0])
  }

  predicate StartsWith(t: Text, prefix: Text) {
    |prefix| <= |t| && t[..|prefix|] == prefix
  }

  /** What `isPrivateV6` says of eight groups. */
  predicate PrivateGroups(h: seq<nat>)
    requires |h| == 8
  {
    || (forall i :: 0 <= i < 8 ==> if i < 7 then h[i] == 0 else h[i] == 1)
    || (forall i :: 0 <= i < 8 ==> h[i] == 0)
    || And(h[0], 0xFFC0) == 0xFE80
    || And(h[0], 0xFE00) == 0xFC00
    || h[0] >= 0xFF00
    || (h[0] == 0 && h[1] == 0 && h[2] == 0 && h[3] == 0 && h[4] == 0 && (h[5] == 0xFFFF || h[5] == 0)
        && IsPrivateV4(Dotted(h[6] / 256, h[6] % 256, h[7] / 256, h[7] % 256)))
  }

  predicate IsPrivateV6(ip: Text) {
    var h := ExpandV6(ip);
    if h.Some? then PrivateGroups(h.value)
    else
      var x := Lower(ip);
      || x == Ascii("::1") || x == Ascii("::")
      || StartsWith(x, Ascii("fe80")) || StartsWith(x, Ascii("fc")) || StartsWith(x, Ascii("fd"))
  }

  // ---------------------------------------------------------------------------------------------
  // The verdict on an address
  // ---------------------------------------------------------------------------------------------

  lemma GroupMask(x: nat, k: nat, low: nat)
    requires x <= 0xFFFF && k <= 16 && Pow2(k) > 0 && low % Pow2(k) == 0
    ensures Pow2(k) <= Pow2(16)
    ensures And(x, Pow2(16) - Pow2(k)) == low <==> low <= x < low + Pow2(k)
  {
    hide And, Pow2;
    var p := Pow2(k);
    Pow2Values();
    Pow2Monotone(k, 16);
    FloorIsMultiple(x, p);
    AndHighMask(x / p, x % p, k, 16);
    SameFloor(x, low, p);
    assert Floor(low, p) == low;
    hide Floor;
  }

  /** The groups that are refused, as intervals; an embedded IPv4 address gets the verdict it gets on
      its own, `::` and `::1` included. */
  lemma PrivateGroupsIff(h: seq<nat>)
    requires |h| == 8 && forall i :: 0 <= i < 8 ==> h[i] <= 0xFFFF
    ensures PrivateGroups(h) <==>
      || 0xFE80 <= h[0] <= 0xFEBF
      || 0xFC00 <= h[0] <= 0xFDFF
      || 0xFF00 <= h[0]
      || ((forall i :: 0 <= i < 5 ==> h[i] == 0) && (h[5] == 0 || h[5] == 0xFFFF)
          && PrivateAddress(h[6] * 0x1_0000 + h[7]))
  {
    hide And, IsPrivateV4, ToLong, Dotted, Pow2;
    SixNine();
    GroupMask(h[0], 6, 0xFE80);
    GroupMask(h[0], 9, 0xFC00);
    var a, b, c, d := h[6] / 256, h[6] % 256, h[7] / 256, h[7] % 256;
    ToLongDotted(a, b, c, d);
    PrivateV4Iff(Dotted(a, b, c, d));
    assert a * 0x100_0000 + b * 0x1_0000 + c * 0x100 + d == h[6] * 0x1_0000 + h[7];
  }

  lemma SixNine()
    ensures Pow2(6) == 64 && Pow2(9) == 512 && Pow2(16) == 0x1_0000
  {
    Pow2Values();
    Pow2Add(2, 4);
    Pow2Add(1, 8);
    assert Pow2(1) == 2 && Pow2(2) == 4;
  }
}
