/** The texts of IPv6 addresses under section 2.2 of RFC 4291, and what lib/netguard.js makes of them. */
module Spellings {
  import opened Bits
  import opened Bytes
  import opened Text
  import opened Netguard

  /** Groups of hexadecimal digits, with or without a `::` between head and tail, the last two groups
      possibly as a dotted IPv4 address. */
  datatype Spelling = Spelling(head: seq<Text>, gap: bool, tail: seq<Text>, dotted: seq<Text>)

  /** One to four hexadecimal digits of either case, leading zeros allowed. */
  predicate Group(t: Text) {
    1 <= |t| <= 4 && IsHex(t)
  }

  predicate AllGroups(ts: seq<Text>) {
    forall i :: 0 <= i < |ts| ==> Group(ts[i])
  }

  function Count(sp: Spelling): nat {
    |sp.head| + |sp.tail| + if sp.dotted == [] then 0 else 2
  }

  predicate Proper(sp: Spelling) {
    && AllGroups(sp.head) && AllGroups(sp.tail)
    && (sp.dotted == [] || (DottedParts(sp.dotted) && Octets(sp.dotted)))
    && (if sp.gap then Count(sp) <= 8 else Count(sp) == 8 && sp.tail == [])
  }

  function LastPart(sp: Spelling): seq<Text> {
    if sp.dotted == [] then [] else [Join(sp.dotted, DOT)]
  }

  function Write(sp: Spelling): Text {
    if sp.gap then Join(sp.head, COLON) + ([COLON, COLON] + Join(sp.tail + LastPart(sp), COLON))
    else Join(sp.head + LastPart(sp), COLON)
  }

  function Values(ts: seq<Text>): (r: seq<nat>)
    requires AllGroups(ts)
    ensures |r| == |ts|
  {
    seq(|ts|, i requires 0 <= i < |ts| => assert Group(ts[i]); HexValue(ts[i]))
  }

  function DottedValues(parts: seq<Text>): (r: seq<nat>)
    requires parts == [] || DottedParts(parts)
  {
    if parts == [] then []
    else
      assert forall i :: 0 <= i < 4 ==> OctetText(parts[i]);
      [DecimalValue(parts[0]) * 256 + DecimalValue(parts[1]), DecimalValue(parts[2]) * 256 + DecimalValue(parts[3])]
  }

  /** The address a spelling is of: eight groups, zeros where the `::` stands. */
  function Address(sp: Spelling): (r: seq<nat>)
    requires Proper(sp)
    ensures |r| == 8
  {
    Values(sp.head) + (Repeat<nat>(0, 8 - Count(sp)) + (Values(sp.tail) + DottedValues(sp.dotted)))
  }

  // ---------------------------------------------------------------------------------------------
  // Groups
  // ---------------------------------------------------------------------------------------------

  lemma {:induction false} HexRunAll(t: Text)
    requires IsHex(t)
    ensures HexRun(t) == |t|
  {
    if t != [] { HexRunAll(t[1..]); }
  }

  lemma {:induction false} HexValueBelow(t: Text, k: nat)
    requires IsHex(t) && |t| <= k
    ensures HexValue(t) < Pow2(4 * k)
    decreases k
  {
    if t == [] {
      Pow2Monotone(0, 4 * k);
    } else {
      hide HexDigitValue, Pow2;
      HexValueBelow(t[..|t| - 1], k - 1);
      FourMore(4 * (k - 1));
    }
  }

  lemma FourMore(k: nat)
    ensures Pow2(k + 4) == 16 * Pow2(k)
  {
    Pow2Add(4, k);
    assert Pow2(4) == 16 by { Pow2Values(); }
  }

  /** `parseInt(h, 16)` reads a group for what it is. */
  lemma HextetOfGroup(t: Text)
    requires Group(t)
    ensures Hextet(t) == Some(HexValue(t))
  {
    hide HexValue;
    assert HexDigitValue(t[0]).Some?;
    assert Trim(t) == t;
    if |t| >= 2 { assert HexDigitValue(t[1]).Some?; }
    HexRunAll(t);
    assert t[..|t|] == t;
    HexValueBelow(t, 4);
    Pow2Values();
  }

  lemma {:induction false} NumbersOfGroups(ts: seq<Text>)
    requires AllGroups(ts)
    ensures Numbers(ts) == Some(Values(ts))
  {
    if ts != [] {
      HextetOfGroup(ts[0]);
      assert AllGroups(ts[1..]);
      NumbersOfGroups(ts[1..]);
      assert Values(ts) == [HexValue(ts[0])] + Values(ts[1..]);
    }
  }

  lemma ZerosAreGroups(n: nat)
    ensures AllGroups(Repeat([ZERO], n)) && Values(Repeat([ZERO], n)) == Repeat<nat>(0, n)
  {
    assert HexValue([ZERO]) == 0 by { assert [ZERO][..0] == []; }
    assert HexDigitValue(ZERO).Some?;
  }

  /** The units a group is made of. */
  lemma GroupUnits(t: Text)
    requires Group(t)
    ensures t != [] && Without(t, COLON) && Without(t, DOT) && Without(t, OPEN) && Without(t, CLOSE) &&
      Without(t, PERCENT)
  {
    forall i | 0 <= i < |t| ensures t[i] != COLON && t[i] != DOT && t[i] != OPEN && t[i] != CLOSE && t[i] != PERCENT {
      assert HexDigitValue(t[i]).Some?;
    }
  }

  // ---------------------------------------------------------------------------------------------
  // Splitting
  // ---------------------------------------------------------------------------------------------

  /** No two colons in a row, none at either end. */
  ghost predicate SingleColons(t: Text) {
    && (t != [] ==> t[0] != COLON && t[|t| - 1] != COLON)
    && (forall i :: 0 <= i < |t| - 1 ==> !(t[i] == COLON && t[i + 1] == COLON))
  }

  ghost predicate ColonFree(ts: seq<Text>) {
    forall i :: 0 <= i < |ts| ==> ts[i] != [] && Without(ts[i], COLON)
  }

  lemma {:induction false} JoinSingle(ts: seq<Text>)
    requires ColonFree(ts)
    ensures SingleColons(Join(ts, COLON)) && (ts != [] ==> Join(ts, COLON) != [])
  {
    if |ts| > 1 {
      JoinSingle(ts[1..]);
      assert Join(ts, COLON) == ts[0] + [COLON] + Join(ts[1..], COLON);
    }
  }

  lemma {:induction false} SplitDoublePlain(t: Text)
    requires forall i :: 0 <= i < |t| - 1 ==> !(t[i] == COLON && t[i + 1] == COLON)
    ensures SplitDouble(t) == [t]
    decreases |t|
  {
    if |t| >= 2 {
      SplitDoublePlain(t[1..]);
      assert t == [t[0]] + t[1..];
    }
  }

  lemma {:induction false} SplitDoubleAt(a: Text, b: Text)
    requires a != [] ==> a[|a| - 1] != COLON
    requires forall i :: 0 <= i < |a| - 1 ==> !(a[i] == COLON && a[i + 1] == COLON)
    ensures SplitDouble(a + ([COLON, COLON] + b)) == [a] + SplitDouble(b)
    decreases |a|
  {
    var t := a + ([COLON, COLON] + b);
    if a == [] {
      assert t[2..] == b;
    } else {
      assert t[1..] == a[1..] + ([COLON, COLON] + b);
      SplitDoubleAt(a[1..], b);
      assert a == [a[0]] + a[1..];
      assert ([a[1..]] + SplitDouble(b))[1..] == SplitDouble(b);
    }
  }

  lemma GroupsOfJoin(ts: seq<Text>)
    requires AllGroups(ts)
    ensures Groups(Join(ts, COLON)) == ts && ColonFree(ts)
  {
    forall i | 0 <= i < |ts| ensures ts[i] != [] && Without(ts[i], COLON) { GroupUnits(ts[i]); }
    JoinSingle(ts);
    if ts != [] { SplitJoin(ts, COLON); }
  }

  /** Without a dotted part the eight groups come out. */
  lemma HextetsOfWrite(sp: Spelling)
    requires Proper(sp) && sp.dotted == []
    ensures Hextets(Write(sp)) == Some(sp.head + Repeat([ZERO], 8 - Count(sp)) + sp.tail)
  {
    hide SplitDouble, Join, Groups, Group, Repeat;
    var a, b := Join(sp.head, COLON), Join(sp.tail, COLON);
    assert sp.tail + [] == sp.tail && sp.head + [] == sp.head;
    GroupsOfJoin(sp.head);
    GroupsOfJoin(sp.tail);
    JoinSingle(sp.head);
    JoinSingle(sp.tail);
    if sp.gap {
      SplitDoubleAt(a, b);
      SplitDoublePlain(b);
    } else {
      SplitDoublePlain(a);
      assert Repeat([ZERO], 0) == [] && sp.head + [] + [] == sp.head;
    }
  }

  lemma AddressOfGroups(sp: Spelling)
    requires Proper(sp) && sp.dotted == []
    ensures Numbers(sp.head + Repeat([ZERO], 8 - Count(sp)) + sp.tail) == Some(Address(sp))
  {
    hide HexValue, Group, Repeat;
    var z := Repeat([ZERO], 8 - Count(sp));
    ZerosAreGroups(8 - Count(sp));
    NumbersOfGroups(sp.head + z + sp.tail);
    assert Values(sp.head + z + sp.tail) == Values(sp.head) + (Values(z) + (Values(sp.tail) + []));
  }

  // ---------------------------------------------------------------------------------------------
  // The dotted tail
  // ---------------------------------------------------------------------------------------------

  lemma {:induction false} JoinWithout(ts: seq<Text>, sep: Unit, u: Unit)
    requires sep != u && AllWithout(ts, u)
    ensures Without(Join(ts, sep), u)
  {
    if |ts| > 1 {
      assert AllWithout(ts[1..], u);
      JoinWithout(ts[1..], sep, u);
    }
  }

  lemma {:induction false} JoinAppend(ts: seq<Text>, last: seq<Text>, sep: Unit)
    requires ts != [] && last != []
    ensures Join(ts + last, sep) == Join(ts, sep) + ([sep] + Join(last, sep))
  {
    if |ts| == 1 {
      assert (ts + last)[1..] == last;
    } else {
      JoinAppend(ts[1..], last, sep);
      assert (ts + last)[1..] == ts[1..] + last;
      assert Join(ts + last, sep) == ts[0] + [sep] + (Join(ts[1..], sep) + ([sep] + Join(last, sep)));
    }
  }

  lemma {:induction false} LastColonUnique(x: Text, k: nat)
    requires k < |x| && x[k] == COLON && forall i :: k < i < |x| ==> x[i] != COLON
    ensures LastColon(x) == Some(k)
    decreases |x|
  {
    if k < |x| - 1 { LastColonUnique(x[..|x| - 1], k); }
  }

  lemma LastColonAt(p: Text, t: Text)
    requires Without(t, COLON)
    ensures LastColon(p + ([COLON] + t)) == Some(|p|)
  {
    LastColonUnique(p + ([COLON] + t), |p|);
  }

  lemma OctetUnits(parts: seq<Text>)
    requires DottedParts(parts)
    ensures AllWithout(parts, DOT) && AllWithout(parts, COLON)
    ensures Without(Join(parts, DOT), COLON)
  {
    forall i | 0 <= i < |parts| ensures Without(parts[i], DOT) && Without(parts[i], COLON) {
      assert OctetText(parts[i]);
      forall k | 0 <= k < |parts[i]| ensures parts[i][k] != DOT && parts[i][k] != COLON { assert IsDigit(parts[i][k]); }
    }
    JoinWithout(parts, DOT, COLON);
  }

  /** A dotted tail after a colon is rewritten, whatever stands before it. */
  lemma UndotAt(p: Text, parts: seq<Text>)
    requires DottedParts(parts) && Octets(parts)
    ensures Undot(p + ([COLON] + Join(parts, DOT))) == Some(p + ([COLON] + HexPair(parts)))
  {
    hide Join, Split, DottedParts, Octets, HexPair;
    var t := Join(parts, DOT);
    var x := p + ([COLON] + t);
    OctetUnits(parts);
    LastColonAt(p, t);
    assert x[|p| + 1..] == t;
    NotNone(parts);
    SplitJoin(parts, DOT);
    assert x[..|p| + 1] == p + [COLON];
    assert p + [COLON] + HexPair(parts) == p + ([COLON] + HexPair(parts));
  }

  lemma NotNone(parts: seq<Text>)
    requires DottedParts(parts)
    ensures parts != []
  {
  }

  /** Without a dot nothing is rewritten. */
  lemma UndotPlain(x: Text)
    requires Without(x, DOT)
    ensures Undot(x) == Some(x)
  {
    hide Octets, HexPair;
    var i := LastColon(x);
    if i.Some? {
      SplitPlain(x[i.value + 1..], DOT);
    }
  }

  /** The two groups a dotted tail stands for. */
  function PairGroups(parts: seq<Text>): (r: seq<Text>)
    requires DottedParts(parts)
    ensures |r| == 2
  {
    assert forall i :: 0 <= i < 4 ==> OctetText(parts[i]);
    [Hex(Or(DecimalValue(parts[0]) * 256, DecimalValue(parts[1]))),
      Hex(Or(DecimalValue(parts[2]) * 256, DecimalValue(parts[3])))]
  }

  lemma {:induction false} OrCommutes(a: nat, b: nat)
    ensures Or(a, b) == Or(b, a)
    decreases a + b
  {
    if !(a == 0 && b == 0) { OrCommutes(a / 2, b / 2); }
  }

  lemma HexOfPair(a: nat, b: nat)
    requires a <= 255 && b <= 255
    ensures Group(Hex(Or(a * 256, b))) && HexValue(Hex(Or(a * 256, b))) == a * 256 + b
  {
    hide Or, Hex, HexValue;
    Pow2Values();
    OrCommutes(a * 256, b);
    OrDisjoint(b, a, 8);
    HexValueOf(a * 256 + b);
    HexLength(a * 256 + b);
    assert Hex(a * 256 + b) != [];
  }

  lemma PairIsGroups(parts: seq<Text>)
    requires DottedParts(parts) && Octets(parts)
    ensures AllGroups(PairGroups(parts)) && Values(PairGroups(parts)) == DottedValues(parts)
    ensures Join(PairGroups(parts), COLON) == HexPair(parts)
  {
    hide Or, Hex, HexValue, Group, DecimalValue;
    assert forall i :: 0 <= i < 4 ==> OctetText(parts[i]);
    HexOfPair(DecimalValue(parts[0]), DecimalValue(parts[1]));
    HexOfPair(DecimalValue(parts[2]), DecimalValue(parts[3]));
    var g := PairGroups(parts);
    assert g[1..] == [g[1]];
    assert Join(g, COLON) == g[0] + [COLON] + g[1];
    assert g[0] + [COLON] + g[1] == g[0] + ([COLON] + g[1]);
  }

  /** The same address with the dotted part written as two groups. */
  function Undotted(sp: Spelling): Spelling
    requires Proper(sp)
  {
    if sp.dotted == [] then sp
    else if sp.gap then Spelling(sp.head, true, sp.tail + PairGroups(sp.dotted), [])
    else Spelling(sp.head + PairGroups(sp.dotted), false, [], [])
  }

  lemma UndottedAddress(sp: Spelling)
    requires Proper(sp)
    ensures Proper(Undotted(sp)) && Undotted(sp).dotted == [] && Address(Undotted(sp)) == Address(sp)
  {
    hide HexValue, Group, Repeat, DottedParts, Octets;
    if sp.dotted != [] {
      PairIsGroups(sp.dotted);
      var g := PairGroups(sp.dotted);
      if sp.gap {
        assert Values(sp.tail + g) == Values(sp.tail) + Values(g);
      } else {
        assert Values(sp.head + g) == Values(sp.head) + Values(g);
        EmptyParts(sp);
      }
    }
  }

  lemma EmptyParts(sp: Spelling)
    requires Proper(sp) && !sp.gap
    ensures Repeat<nat>(0, 0) == [] && Values(sp.tail) == [] && 8 - Count(sp) == 0
  {
  }

  lemma WithDotted(sp: Spelling)
    requires Proper(sp) && sp.dotted != []
    ensures Undot(Write(sp)) == Some(Write(Undotted(sp)))
  {
    hide Undot, Join, HexPair, DottedParts, Octets, Group;
    var d, g := sp.dotted, PairGroups(sp.dotted);
    var t := Join(d, DOT);
    PairIsGroups(d);
    JoinOne(t);
    if sp.gap {
      var a := Join(sp.head, COLON);
      if sp.tail == [] {
        assert [] + [t] == [t] && [] + g + [] == g;
        Regroup(a, [], t);
        Regroup(a, [], HexPair(d));
        UndotAt(a + ([COLON] + []), d);
      } else {
        JoinAppend(sp.tail, [t], COLON);
        JoinAppend(sp.tail, g, COLON);
        assert sp.tail + g + [] == sp.tail + g;
        var b := Join(sp.tail, COLON);
        var p := a + ([COLON, COLON] + b);
        assert Write(sp) == p + ([COLON] + t);
        assert Write(Undotted(sp)) == p + ([COLON] + HexPair(d));
        UndotAt(p, d);
      }
    } else {
      JoinAppend(sp.head, [t], COLON);
      JoinAppend(sp.head, g, COLON);
      assert sp.head + g + [] == sp.head + g;
      UndotAt(Join(sp.head, COLON), d);
    }
  }

  lemma JoinOne(t: Text)
    ensures Join([t], COLON) == t
  {
  }

  lemma Regroup(a: Text, b: Text, t: Text)
    requires b == []
    ensures a + ([COLON, COLON] + t) == (a + ([COLON] + b)) + ([COLON] + t)
  {
  }

  lemma WriteUnits(sp: Spelling, u: Unit)
    requires Proper(sp) && sp.dotted == [] && u != COLON
    requires forall t :: Group(t) ==> Without(t, u)
    ensures Without(Write(sp), u)
  {
    hide Group;
    assert sp.tail + [] == sp.tail && sp.head + [] == sp.head;
    assert AllWithout(sp.head, u) && AllWithout(sp.tail, u);
    JoinWithout(sp.head, COLON, u);
    JoinWithout(sp.tail, COLON, u);
  }

  lemma ExpandWritten(sp: Spelling)
    requires Proper(sp)
    ensures ExpandPlain(Write(sp)) == Some(Address(sp))
  {
    hide Undot, Hextets, Numbers, Write, Address, Proper;
    var un := Undotted(sp);
    UndottedAddress(sp);
    if sp.dotted == [] {
      forall t | Group(t) ensures Without(t, DOT) { GroupUnits(t); }
      WriteUnits(sp, DOT);
      UndotPlain(Write(sp));
    } else {
      WithDotted(sp);
    }
    HextetsOfWrite(un);
    AddressOfGroups(un);
  }

  // ---------------------------------------------------------------------------------------------
  // Case, brackets, zones
  // ---------------------------------------------------------------------------------------------

  function LowerAll(ts: seq<Text>): (r: seq<Text>)
    ensures |r| == |ts|
  {
    seq(|ts|, i requires 0 <= i < |ts| => Lower(ts[i]))
  }

  lemma {:induction false} LowerGroup(t: Text)
    requires IsHex(t)
    ensures IsHex(Lower(t)) && HexValue(Lower(t)) == HexValue(t)
  {
    forall i | 0 <= i < |t| ensures HexDigitValue(Lower(t)[i]) == HexDigitValue(t[i]) && HexDigitValue(t[i]).Some? {}
    if t != [] {
      LowerGroup(t[..|t| - 1]);
      assert Lower(t)[..|t| - 1] == Lower(t[..|t| - 1]);
    }
  }

  lemma {:induction false} LowerJoin(ts: seq<Text>, sep: Unit)
    requires !(65 <= sep <= 90)
    ensures Lower(Join(ts, sep)) == Join(LowerAll(ts), sep)
  {
    if |ts| > 1 {
      LowerJoin(ts[1..], sep);
      assert LowerAll(ts)[1..] == LowerAll(ts[1..]);
      assert Lower(ts[0] + [sep] + Join(ts[1..], sep)) == Lower(ts[0]) + [sep] + Lower(Join(ts[1..], sep));
    }
  }

  /** The same spelling in lower case. */
  function LowerSpelling(sp: Spelling): Spelling {
    Spelling(LowerAll(sp.head), sp.gap, LowerAll(sp.tail), sp.dotted)
  }

  lemma LowerGroups(ts: seq<Text>)
    requires AllGroups(ts)
    ensures AllGroups(LowerAll(ts)) && Values(LowerAll(ts)) == Values(ts)
  {
    hide HexValue, HexDigitValue, Lower;
    forall i | 0 <= i < |ts| ensures Group(LowerAll(ts)[i]) && HexValue(LowerAll(ts)[i]) == HexValue(ts[i]) {
      assert Group(ts[i]);
      LowerGroup(ts[i]);
    }
  }

  lemma LowerDotted(sp: Spelling)
    requires Proper(sp)
    ensures LowerAll(LastPart(sp)) == LastPart(sp)
  {
    if sp.dotted != [] {
      forall i | 0 <= i < |sp.dotted| ensures Lower(sp.dotted[i]) == sp.dotted[i] {
        assert OctetText(sp.dotted[i]);
        assert forall k :: 0 <= k < |sp.dotted[i]| ==> IsDigit(sp.dotted[i][k]);
      }
      assert LowerAll(sp.dotted) == sp.dotted;
      LowerJoin(sp.dotted, DOT);
    }
  }

  lemma LowerWrite(sp: Spelling)
    requires Proper(sp)
    ensures Proper(LowerSpelling(sp)) && Address(LowerSpelling(sp)) == Address(sp)
    ensures Lower(Write(sp)) == Write(LowerSpelling(sp))
  {
    hide Group, HexValue, Join, DottedParts, Octets, DottedValues;
    var d := LastPart(sp);
    LowerGroups(sp.head);
    LowerGroups(sp.tail);
    LowerDotted(sp);
    assert LowerAll(sp.tail + d) == LowerAll(sp.tail) + d && LowerAll(sp.head + d) == LowerAll(sp.head) + d;
    LowerJoin(sp.head, COLON);
    LowerJoin(sp.tail + d, COLON);
    LowerJoin(sp.head + d, COLON);
    if sp.gap {
      assert Lower(Write(sp)) == Lower(Join(sp.head, COLON)) + ([COLON, COLON] + Lower(Join(sp.tail + d, COLON)));
    }
  }

  /** No bracket and no zone mark. */
  ghost predicate Bare(t: Text) {
    t != [] && Without(t, OPEN) && Without(t, CLOSE) && Without(t, PERCENT)
  }

  lemma WrittenIsBare(sp: Spelling)
    requires Proper(sp)
    ensures Bare(Write(sp))
  {
    hide HexValue, Write, Octets;
    PartsBare(sp, OPEN);
    PartsBare(sp, CLOSE);
    PartsBare(sp, PERCENT);
    NotEmpty(sp);
  }

  lemma NotEmpty(sp: Spelling)
    requires Proper(sp)
    ensures Write(sp) != []
  {
    hide HexValue, Octets, DottedParts;
    if !sp.gap {
      assert |sp.head| >= 2 && Group(sp.head[0]);
      assert Write(sp) == sp.head[0] + [COLON] + Join((sp.head + LastPart(sp))[1..], COLON);
    }
  }

  lemma PartsBare(sp: Spelling, u: Unit)
    requires Proper(sp) && (u == OPEN || u == CLOSE || u == PERCENT)
    ensures Without(Write(sp), u)
  {
    hide HexValue, Octets;
    forall i | 0 <= i < |sp.head| ensures Without(sp.head[i], u) { GroupUnits(sp.head[i]); }
    forall i | 0 <= i < |sp.tail| ensures Without(sp.tail[i], u) { GroupUnits(sp.tail[i]); }
    if sp.dotted != [] {
      forall i | 0 <= i < |sp.dotted| ensures Without(sp.dotted[i], u) {
        assert OctetText(sp.dotted[i]);
        forall k | 0 <= k < |sp.dotted[i]| ensures sp.dotted[i][k] != u { assert IsDigit(sp.dotted[i][k]); }
      }
      JoinWithout(sp.dotted, DOT, u);
    }
    assert AllWithout(sp.head + LastPart(sp), u) && AllWithout(sp.tail + LastPart(sp), u);
    JoinWithout(sp.head, COLON, u);
    JoinWithout(sp.head + LastPart(sp), COLON, u);
    JoinWithout(sp.tail + LastPart(sp), COLON, u);
  }

  /** A written address as it may be given: in brackets or not, with a zone or not. */
  function Dress(t: Text, open: bool, zone: Option<Text>, close: bool): Text {
    var behind := (if zone.Some? then [PERCENT] + zone.value else []) + (if close then [CLOSE] else []);
    (if open then [OPEN] else []) + (t + behind)
  }

  lemma UndressLower(t: Text, open: bool, zone: Option<Text>, close: bool)
    requires Bare(t)
    ensures Split(Strip(Dress(t, open, zone, close)), PERCENT)[0] == t
  {
    hide Split;
    var z := if zone.Some? then [PERCENT] + zone.value else [];
    var c := if close then [CLOSE] else [];
    StripLead(t, z + c, open);
    var y := t + (z + c);
    if zone.None? {
      assert z + c == c;
      Unclosed(t, close);
      SplitPlain(t, PERCENT);
    } else {
      assert y == t + ([PERCENT] + (zone.value + c));
      CutZone(t, zone.value + c);
    }
  }

  /** `Strip` without its first half. */
  function StripEnd(a: Text): Text {
    if a != [] && a[|a| - 1] == CLOSE then a[..|a| - 1] else a
  }

  lemma StripLead(t: Text, rest: Text, open: bool)
    requires Bare(t)
    ensures Strip((if open then [OPEN] else []) + (t + rest)) == StripEnd(t + rest)
  {
    hide Bare, Without;
    var y := t + rest;
    assert y != [] && y[0] != OPEN by { NotOpen(t); assert y[0] == t[0]; }
    if open { StripOpen(y); } else { assert [] + y == y; }
  }

  lemma NotOpen(t: Text)
    requires Bare(t)
    ensures t != [] && t[0] != OPEN
  {
  }

  lemma StripOpen(y: Text)
    ensures Strip([OPEN] + y) == StripEnd(y)
  {
    assert ([OPEN] + y)[1..] == y;
  }

  lemma Unclosed(t: Text, close: bool)
    requires Bare(t)
    ensures StripEnd(t + if close then [CLOSE] else []) == t
  {
    if close {
      assert (t + [CLOSE])[..|t|] == t;
    } else {
      assert t + [] == t;
    }
  }

  lemma CutZone(t: Text, zone: Text)
    requires Bare(t)
    ensures Split(StripEnd(t + ([PERCENT] + zone)), PERCENT)[0] == t
  {
    hide Split;
    var y := t + ([PERCENT] + zone);
    var rest := StripEnd(y)[|t| + 1..];
    assert StripEnd(y) == t + [PERCENT] + rest;
    SplitFirst(t, PERCENT, rest);
  }

  /** Every spelling of an address, in any dress, expands to its eight groups. */
  lemma ExpandSpelling(sp: Spelling, open: bool, zone: Option<Text>, close: bool)
    requires Proper(sp)
    ensures ExpandV6(Dress(Write(sp), open, zone, close)) == Some(Address(sp))
  {
    hide Proper, Write, Address, Strip, Split, ExpandPlain, LowerSpelling;
    var low := LowerSpelling(sp);
    var zone' := if zone.Some? then Some(Lower(zone.value)) else None;
    LowerWrite(sp);
    WrittenIsBare(low);
    assert Lower(Dress(Write(sp), open, zone, close)) == Dress(Write(low), open, zone', close);
    UndressLower(Write(low), open, zone', close);
    ExpandWritten(low);
  }

  /** So the verdict belongs to the address, not to how it is written. */
  lemma OneVerdict(sp: Spelling, open: bool, zone: Option<Text>, close: bool,
                   sp': Spelling, open': bool, zone': Option<Text>, close': bool)
    requires Proper(sp) && Proper(sp') && Address(sp) == Address(sp')
    ensures IsPrivateV6(Dress(Write(sp), open, zone, close)) <==> IsPrivateV6(Dress(Write(sp'), open', zone', close'))
  {
    hide Proper, Write, Address, Dress, ExpandV6, PrivateGroups;
    ExpandSpelling(sp, open, zone, close);
    ExpandSpelling(sp', open', zone', close');
  }

  /** An IPv4 address embedded in an IPv6 one, however that is written, gets the verdict of
      `isPrivateV4` on the address itself. */
  lemma EmbeddedVerdict(sp: Spelling, open: bool, zone: Option<Text>, close: bool, a: nat, b: nat, c: nat, d: nat)
    requires Proper(sp) && a < 256 && b < 256 && c < 256 && d < 256
    requires Address(sp)[..5] == [0, 0, 0, 0, 0] && (Address(sp)[5] == 0 || Address(sp)[5] == 0xFFFF)
    requires Address(sp)[6..] == [a * 256 + b, c * 256 + d]
    ensures IsPrivateV6(Dress(Write(sp), open, zone, close)) <==> IsPrivateV4(Dotted(a, b, c, d))
  {
    hide Proper, Write, Address, Dress, ExpandV6, PrivateGroups, IsPrivateV4, Dotted, ToLong;
    var h := Address(sp);
    ExpandSpelling(sp, open, zone, close);
    assert forall i :: 0 <= i < 5 ==> h[i] == h[..5][i] == 0;
    assert h[6] == h[6..][0] && h[7] == h[6..][1];
    PrivateGroupsIff(h);
    ToLongDotted(a, b, c, d);
    PrivateV4Iff(Dotted(a, b, c, d));
  }
}
