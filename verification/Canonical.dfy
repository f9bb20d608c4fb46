/** The canonical JSON of lib/owner-auth.js, lib/node-auth.js and lib/verified-intent.js: the bytes
    that get hashed and signed. */
module Canonical {
  import opened Bytes
  import opened Text

  /** A JavaScript value made of JSON parts. An object lists its own keys in insertion order;
      numbers are integers. */
  datatype Json =
    | Undefined
    | Null
    | Bool(b: bool)
    | Num(n: int)
    | Str(s: Text)
    | Arr(items: seq<Json>)
    | Obj(entries: seq<Field>)

  datatype Field = Field(key: Text, value: Json)

  /** No object has the same key twice. */
  predicate Valid(v: Json) {
    match v
    case Arr(items) => forall i :: 0 <= i < |items| ==> Valid(items[i])
    case Obj(es) =>
      && (forall i, j :: 0 <= i < j < |es| ==> es[i].key != es[j].key)
      && (forall i :: 0 <= i < |es| ==> Valid(es[i].value))
    case _ => true
  }

  /** What a value means as JSON: objects are maps, fields that are undefined are not there, and an
      undefined array item or whole value is null. */
  datatype Val =
    | VNull
    | VBool(b: bool)
    | VNum(n: int)
    | VStr(s: Text)
    | VArr(items: seq<Val>)
    | VObj(fields: map<Text, Val>)

  function Meaning(v: Json): Val {
    match v
    case Undefined => VNull
    case Null => VNull
    case Bool(b) => VBool(b)
    case Num(n) => VNum(n)
    case Str(s) => VStr(s)
    case Arr(items) => VArr(seq(|items|, i requires 0 <= i < |items| => Meaning(items[i])))
    case Obj(es) => VObj(Fields(es))
  }

  function Fields(es: seq<Field>): map<Text, Val> {
    if es == [] then map[]
    else if es[0].value == Undefined then Fields(es[1..])
    else Fields(es[1..])[es[0].key := Meaning(es[0].value)]
  }

  // ---------------------------------------------------------------------------------------------
  // Key order
  // ---------------------------------------------------------------------------------------------

  /** The order of `sort()` on strings: code unit by code unit. */
  predicate Before(a: Text, b: Text) {
    if b == [] then false
    else if a == [] then true
    else a[0] < b[0] || (a[0] == b[0] && Before(a[1..], b[1..]))
  }

  lemma {:induction false} BeforeTotal(a: Text, b: Text)
    ensures a != b ==> Before(a, b) || Before(b, a)
    ensures !(Before(a, b) && Before(b, a)) && !Before(a, a)
  {
    if a != [] {
      BeforeTotal(a[1..], a[1..]);
      if b != [] {
        BeforeTotal(a[1..], b[1..]);
        if a[0] == b[0] && a[1..] == b[1..] { assert a == [a[0]] + a[1..] == b; }
      }
    }
  }

  lemma {:induction false} BeforeTrans(a: Text, b: Text, c: Text)
    requires Before(a, b) && Before(b, c)
    ensures Before(a, c)
  {
    if a != [] && a[0] == b[0] && b[0] == c[0] {
      BeforeTrans(a[1..], b[1..], c[1..]);
    }
  }

  ghost predicate Sorted(ks: seq<Text>) {
    forall i, j :: 0 <= i < j < |ks| ==> Before(ks[i], ks[j])
  }

  function Insert(k: Text, ks: seq<Text>): (r: seq<Text>)
    ensures forall x :: x in r <==> x == k || x in ks
  {
    if ks == [] || Before(k, ks[0]) then [k] + ks else [ks[0]] + Insert(k, ks[1..])
  }

  /** `keys.sort()`. */
  function SortKeys(ks: seq<Text>): (r: seq<Text>)
    ensures forall x :: x in r <==> x in ks
  {
    if ks == [] then [] else Insert(ks[0], SortKeys(ks[1..]))
  }

  lemma {:induction false} InsertSorted(k: Text, ks: seq<Text>)
    requires Sorted(ks) && k !in ks
    ensures Sorted(Insert(k, ks))
  {
    if ks != [] {
      BeforeTotal(k, ks[0]);
      if Before(k, ks[0]) {
        forall j | 0 <= j < |ks| ensures Before(k, ks[j]) {
          if j > 0 { BeforeTrans(k, ks[0], ks[j]); }
        }
      } else {
        InsertSorted(k, ks[1..]);
        var rest := Insert(k, ks[1..]);
        forall j | 0 <= j < |rest| ensures Before(ks[0], rest[j]) {
          assert rest[j] in rest;
          if rest[j] in ks[1..] {
            var i :| 0 <= i < |ks[1..]| && ks[1..][i] == rest[j];
            assert ks[i + 1] == rest[j];
          }
        }
      }
    }
  }

  ghost predicate DistinctTexts(ks: seq<Text>) {
    forall i, j :: 0 <= i < j < |ks| ==> ks[i] != ks[j]
  }

  lemma {:induction false} SortKeysSorted(ks: seq<Text>)
    requires DistinctTexts(ks)
    ensures Sorted(SortKeys(ks))
  {
    if ks != [] {
      SortKeysSorted(ks[1..]);
      assert ks[0] !in ks[1..];
      InsertSorted(ks[0], SortKeys(ks[1..]));
    }
  }

  lemma FirstIsMember(a: seq<Text>)
    requires a != []
    ensures a[0] in a
  {
  }

  /** The sorted order of a set of keys is unique. */
  lemma {:induction false} SortedUnique(a: seq<Text>, b: seq<Text>)
    requires Sorted(a) && Sorted(b) && forall x :: x in a <==> x in b
    ensures a == b
  {
    if a == [] {
      if b != [] { FirstIsMember(b); }
    } else {
      FirstIsMember(a);
      SmallestFirst(a, b);
      forall x ensures x in a[1..] <==> x in b[1..] {
        TailMembers(a, x);
        TailMembers(b, x);
      }
      SortedUnique(a[1..], b[1..]);
      assert a == [a[0]] + a[1..] && b == [b[0]] + b[1..];
    }
  }

  lemma SmallestFirst(a: seq<Text>, b: seq<Text>)
    requires Sorted(a) && Sorted(b) && a != [] && b != [] && forall x :: x in a <==> x in b
    ensures a[0] == b[0]
  {
    assert a[0] in a && b[0] in b;
    var i :| 0 <= i < |b| && b[i] == a[0];
    var j :| 0 <= j < |a| && a[j] == b[0];
    BeforeTotal(a[0], b[0]);
  }

  lemma TailMembers(a: seq<Text>, x: Text)
    requires Sorted(a) && a != []
    ensures x in a[1..] <==> x in a && x != a[0]
  {
    BeforeTotal(a[0], a[0]);
    assert a == [a[0]] + a[1..];
  }

  // ---------------------------------------------------------------------------------------------
  // Strings
  // ---------------------------------------------------------------------------------------------

  predicate HighSurrogate(u: Unit) { 0xD800 <= u < 0xDC00 }
  predicate LowSurrogate(u: Unit) { 0xDC00 <= u < 0xE000 }

  const QUOTE: Unit := 34
  const BACKSLASH: Unit := 92

  /** `\uXXXX`, lower case. */
  function UnicodeEscape(u: Unit): (r: Text)
    ensures |r| == 6
  {
    [92, 117, HexDigit(u / 4096), HexDigit(u / 256 % 16), HexDigit(u / 16 % 16), HexDigit(u % 16)]
  }

  /** One code unit inside a JSON string, as `JSON.stringify` writes it. */
  function EscapeUnit(u: Unit): (r: Text)
    ensures r != []
  {
    if u == 34 then [92, 34]
    else if u == 92 then [92, 92]
    else if u == 8 then [92, 98]
    else if u == 12 then [92, 102]
    else if u == 10 then [92, 110]
    else if u == 13 then [92, 114]
    else if u == 9 then [92, 116]
    else if u < 32 then UnicodeEscape(u)
    else [u]
  }

  /** Surrogate pairs are written as they are, lone surrogates escaped. */
  function Escape(s: Text): Text {
    if s == [] then []
    else if HighSurrogate(s[0]) && |s| > 1 && LowSurrogate(s[1]) then [s[0], s[1]] + Escape(s[2..])
    else if HighSurrogate(s[0]) || LowSurrogate(s[0]) then UnicodeEscape(s[0]) + Escape(s[1..])
    else EscapeUnit(s[0]) + Escape(s[1..])
  }

  function Quote(s: Text): Text {
    [QUOTE] + (Escape(s) + [QUOTE])
  }

  // ---------------------------------------------------------------------------------------------
  // Stringify
  // ---------------------------------------------------------------------------------------------

  function KeysOf(es: seq<Field>, dropUndefined: bool): (r: seq<Text>)
    ensures forall k :: k in r <==> exists i ::
      0 <= i < |es| && es[i].key == k && !(dropUndefined && es[i].value == Undefined)
  {
    if es == [] then []
    else
      var rest := KeysOf(es[1..], dropUndefined);
      assert forall i :: 1 <= i < |es| ==> es[i] == es[1..][i - 1];
      if dropUndefined && es[0].value == Undefined then rest else [es[0].key] + rest
  }

  /** Where `v[k]` is. */
  function IndexOfKey(es: seq<Field>, k: Text): (i: nat)
    requires exists i :: 0 <= i < |es| && es[i].key == k
    ensures i < |es| && es[i].key == k
  {
    if es[0].key == k then 0
    else
      var i :| 0 <= i < |es| && es[i].key == k;
      assert es[1..][i - 1].key == k;
      1 + IndexOfKey(es[1..], k)
  }

  ghost predicate HasKeys(es: seq<Field>, keys: seq<Text>) {
    forall k :: k in keys ==> exists i :: 0 <= i < |es| && es[i].key == k
  }

  /** `stableStringify` of owner-auth and node-auth: undefined fields are dropped, other undefined
      values print as null. */
  function Stable(v: Json): (t: Text)
    ensures t != []
    decreases v, 0
  {
    match v
    case Undefined => Ascii("null")
    case Null => Ascii("null")
    case Bool(b) => if b then Ascii("true") else Ascii("false")
    case Num(n) => DecimalInt(n)
    case Str(s) => Quote(s)
    case Arr(items) => [91] + (Items(items) + [93])
    case Obj(es) => [123] + (Members(es, SortKeys(KeysOf(es, true))) + [125])
  }

  function Items(items: seq<Json>): Text
    decreases items, 1
  {
    if items == [] then []
    else if |items| == 1 then Stable(items[0])
    else Stable(items[0]) + ([44] + Items(items[1..]))
  }

  function Members(es: seq<Field>, keys: seq<Text>): Text
    requires HasKeys(es, keys)
    decreases es, 1 + |keys|
  {
    if keys == [] then []
    else
      assert keys[0] in keys && forall k :: k in keys[1..] ==> k in keys;
      var i := IndexOfKey(es, keys[0]);
      Quote(keys[0]) + ([58] + (Stable(es[i].value) + (if |keys| == 1 then [] else [44] + Members(es, keys[1..]))))
  }

  // ---------------------------------------------------------------------------------------------
  // A parser for the grammar of sections 4, 5 and 7 of RFC 8259, without insignificant whitespace
  // ---------------------------------------------------------------------------------------------

  type Parsed<T> = Option<(T, Text)>

  function ParseEscape(t: Text): (r: Parsed<Unit>)
    ensures r.Some? ==> |r.value.1| < |t|
  {
    if t == [] then None
    else if t[0] == 34 || t[0] == 92 || t[0] == 47 then Some((t[0], t[1..]))
    else if t[0] == 98 then Some((8, t[1..]))
    else if t[0] == 102 then Some((12, t[1..]))
    else if t[0] == 110 then Some((10, t[1..]))
    else if t[0] == 114 then Some((13, t[1..]))
    else if t[0] == 116 then Some((9, t[1..]))
    else if t[0] == 117 && |t| >= 5 && IsHex(t[1..5]) then
      var a, b, c, d := HexDigitValue(t[1]), HexDigitValue(t[2]), HexDigitValue(t[3]), HexDigitValue(t[4]);
      assert t[1] == t[1..5][0] && t[2] == t[1..5][1] && t[3] == t[1..5][2] && t[4] == t[1..5][3];
      Some((4096 * a.value + 256 * b.value + 16 * c.value + d.value, t[5..]))
    else None
  }

  /** The rest of a string after its opening quote. */
  function ParseString(t: Text): (r: Parsed<Text>)
    ensures r.Some? ==> |r.value.1| < |t|
    decreases |t|
  {
    if t == [] || t[0] < 32 then None
    else if t[0] == QUOTE then Some(([], t[1..]))
    else if t[0] == BACKSLASH then
      match ParseEscape(t[1..])
      case None => None
      case Some((u, rest)) =>
        (match ParseString(rest)
         case None => None
         case Some((s, rest')) => Some(([u] + s, rest')))
    else
      match ParseString(t[1..])
      case None => None
      case Some((s, rest)) => Some(([t[0]] + s, rest))
  }

  function ParseNat(t: Text): (r: Parsed<nat>)
    ensures r.Some? ==> |r.value.1| < |t|
  {
    var k := DigitRun(t);
    if k == 0 then None else Some((DecimalValue(t[..k]), t[k..]))
  }

  function ParseLiteral(t: Text, word: Text, v: Json): (r: Parsed<Json>)
    requires word != []
    ensures r.Some? ==> |r.value.1| < |t|
  {
    if |t| >= |word| && t[..|word|] == word then Some((v, t[|word|..])) else None
  }

  function ParseValue(t: Text): (r: Parsed<Json>)
    ensures r.Some? ==> |r.value.1| < |t|
    decreases |t|, 0
  {
    if t == [] then None
    else if t[0] == 110 then ParseLiteral(t, Ascii("null"), Null)
    else if t[0] == 116 then ParseLiteral(t, Ascii("true"), Bool(true))
    else if t[0] == 102 then ParseLiteral(t, Ascii("false"), Bool(false))
    else if t[0] == 34 then
      match ParseString(t[1..])
      case None => None
      case Some((s, rest)) => Some((Str(s), rest))
    else if t[0] == 45 then
      match ParseNat(t[1..])
      case None => None
      case Some((n, rest)) => Some((Num(0 - n), rest))
    else if IsDigit(t[0]) then
      match ParseNat(t)
      case None => None
      case Some((n, rest)) => Some((Num(n), rest))
    else if t[0] == 91 then
      if |t| > 1 && t[1] == 93 then Some((Arr([]), t[2..]))
      else
        match ParseItems(t[1..])
        case None => None
        case Some((items, rest)) => Some((Arr(items), rest))
    else if t[0] == 123 then
      if |t| > 1 && t[1] == 125 then Some((Obj([]), t[2..]))
      else
        match ParseMembers(t[1..])
        case None => None
        case Some((es, rest)) => Some((Obj(es), rest))
    else None
  }

  /** Items up to and with the closing bracket. */
  function ParseItems(t: Text): (r: Parsed<seq<Json>>)
    ensures r.Some? ==> |r.value.1| < |t|
    decreases |t|, 1
  {
    match ParseValue(t)
    case None => None
    case Some((v, rest)) =>
      if rest == [] then None
      else if rest[0] == 93 then Some(([v], rest[1..]))
      else if rest[0] == 44 then
        match ParseItems(rest[1..])
        case None => None
        case Some((items, rest')) => Some(([v] + items, rest'))
      else None
  }

  /** Members up to and with the closing brace. */
  function ParseMembers(t: Text): (r: Parsed<seq<Field>>)
    ensures r.Some? ==> |r.value.1| < |t|
    decreases |t|, 1
  {
    if t == [] || t[0] != QUOTE then None
    else
      match ParseString(t[1..])
      case None => None
      case Some((k, rest)) =>
        if rest == [] || rest[0] != 58 then None
        else
          match ParseValue(rest[1..])
          case None => None
          case Some((v, rest')) =>
            if rest' == [] then None
            else if rest'[0] == 125 then Some(([Field(k, v)], rest'[1..]))
            else if rest'[0] == 44 then
              match ParseMembers(rest'[1..])
              case None => None
              case Some((es, rest'')) => Some(([Field(k, v)] + es, rest''))
            else None
  }

  // ---------------------------------------------------------------------------------------------
  // Unique decodability
  // ---------------------------------------------------------------------------------------------

  /** The value with everything the text does not show taken out: fields sorted by key, undefined
      fields dropped, other undefined values null. */
  function Normal(v: Json): Json
    decreases v, 0
  {
    match v
    case Undefined => Null
    case Arr(items) => Arr(NormalItems(items))
    case Obj(es) => Obj(NormalMembers(es, SortKeys(KeysOf(es, true))))
    case _ => v
  }

  function NormalItems(items: seq<Json>): (r: seq<Json>)
    ensures |r| == |items|
    decreases items, 1
  {
    if items == [] then [] else [Normal(items[0])] + NormalItems(items[1..])
  }

  function NormalMembers(es: seq<Field>, keys: seq<Text>): (r: seq<Field>)
    requires HasKeys(es, keys)
    ensures |r| == |keys|
    decreases es, 1 + |keys|
  {
    if keys == [] then []
    else
      assert keys[0] in keys && forall k :: k in keys[1..] ==> k in keys;
      [Field(keys[0], Normal(es[IndexOfKey(es, keys[0])].value))] + NormalMembers(es, keys[1..])
  }

  lemma HexRoundTrip(u: Unit)
    ensures ParseEscape(UnicodeEscape(u)[1..]) == Some((u, []))
    ensures UnicodeEscape(u)[0] == BACKSLASH
  {
    var t := UnicodeEscape(u)[1..];
    var a, b, c, d := u / 4096, u / 256 % 16, u / 16 % 16, u % 16;
    assert t == [117, HexDigit(a), HexDigit(b), HexDigit(c), HexDigit(d)];
    HexDigitRoundTrip(a);
    HexDigitRoundTrip(b);
    HexDigitRoundTrip(c);
    HexDigitRoundTrip(d);
    assert t[1..5] == [HexDigit(a), HexDigit(b), HexDigit(c), HexDigit(d)];
    FourDigits(u);
    assert t[5..] == [];
  }

  lemma HexDigitRoundTrip(d: nat)
    requires d < 16
    ensures HexDigitValue(HexDigit(d)) == Some(d)
  {
  }

  lemma FourDigits(u: Unit)
    ensures u == 4096 * (u / 4096) + 256 * (u / 256 % 16) + 16 * (u / 16 % 16) + u % 16
  {
    assert u / 16 / 16 == u / 256 && u / 256 / 16 == u / 4096;
  }

  lemma UnicodeThen(u: Unit, rest: Text)
    ensures ParseEscape((UnicodeEscape(u) + rest)[1..]) == Some((u, rest))
  {
    HexRoundTrip(u);
    var t, t' := UnicodeEscape(u)[1..], (UnicodeEscape(u) + rest)[1..];
    assert t' == t + rest;
    assert t'[1..5] == t[1..5];
    assert t'[5..] == rest;
  }

  /** One written code unit is read back, whatever follows. */
  lemma UnitThen(u: Unit, rest: Text)
    ensures var t := EscapeUnit(u) + rest;
      ParseString(t) == match ParseString(rest) case None => None case Some((s, r)) => Some(([u] + s, r))
  {
    hide ParseString;
    var t := EscapeUnit(u) + rest;
    if u == 34 || u == 92 || u == 8 || u == 12 || u == 10 || u == 13 || u == 9 {
      assert t[1..][1..] == rest;
      EscapedThen(t, u, rest);
    } else if u < 32 {
      UnicodeThen(u, rest);
      EscapedThen(t, u, rest);
    } else {
      assert t[1..] == rest;
      RawThen(t, u, rest);
    }
  }

  lemma EscapedThen(t: Text, u: Unit, rest: Text)
    requires t != [] && t[0] == BACKSLASH && ParseEscape(t[1..]) == Some((u, rest))
    ensures ParseString(t) == match ParseString(rest) case None => None case Some((s, r)) => Some(([u] + s, r))
  {
  }

  lemma RawThen(t: Text, u: Unit, rest: Text)
    requires t != [] && t[0] == u && t[1..] == rest && u >= 32 && u != QUOTE && u != BACKSLASH
    ensures ParseString(t) == match ParseString(rest) case None => None case Some((s, r)) => Some(([u] + s, r))
  {
  }

  lemma StringEnd(rest: Text)
    ensures ParseString([QUOTE] + rest) == Some(([], rest))
  {
    assert ([QUOTE] + rest)[1..] == rest;
  }

  lemma {:induction false} StringRoundTrip(s: Text, rest: Text)
    ensures ParseString(Escape(s) + ([QUOTE] + rest)) == Some((s, rest))
    decreases |s|
  {
    hide ParseString, EscapeUnit, ParseEscape;
    var tail := [QUOTE] + rest;
    if s == [] {
      assert Escape(s) + tail == tail;
      StringEnd(rest);
    } else if HighSurrogate(s[0]) && |s| > 1 && LowSurrogate(s[1]) {
      var after := Escape(s[2..]) + tail;
      StringRoundTrip(s[2..], rest);
      Assoc([s[0], s[1]], Escape(s[2..]), tail);
      var t := [s[0], s[1]] + after;
      assert t[1..] == [s[1]] + after;
      RawThen([s[1]] + after, s[1], after);
      RawThen(t, s[0], [s[1]] + after);
      assert s == [s[0]] + ([s[1]] + s[2..]);
    } else {
      StringRoundTrip(s[1..], rest);
      var after := Escape(s[1..]) + tail;
      if HighSurrogate(s[0]) || LowSurrogate(s[0]) {
        Assoc(UnicodeEscape(s[0]), Escape(s[1..]), tail);
        UnicodeThen(s[0], after);
        EscapedThen(UnicodeEscape(s[0]) + after, s[0], after);
      } else {
        Assoc(EscapeUnit(s[0]), Escape(s[1..]), tail);
        UnitThen(s[0], after);
      }
      assert s == [s[0]] + s[1..];
    }
  }

  /** A number is not followed by another digit. */
  ghost predicate Ends(rest: Text) {
    rest == [] || !IsDigit(rest[0])
  }

  lemma NatRoundTrip(n: nat, rest: Text)
    requires Ends(rest)
    ensures ParseNat(Decimal(n) + rest) == Some((n, rest))
  {
    var t := Decimal(n) + rest;
    DigitRunUnique(t, |Decimal(n)|);
    DecimalValueOf(n);
    assert t[..|Decimal(n)|] == Decimal(n) && t[|Decimal(n)|..] == rest;
  }

  lemma NumberRoundTrip(n: int, rest: Text)
    requires Ends(rest)
    ensures ParseValue(DecimalInt(n) + rest) == Some((Num(n), rest))
  {
    if n < 0 {
      NatRoundTrip(-n, rest);
      Assoc([45], Decimal(-n), rest);
      assert (DecimalInt(n) + rest)[1..] == Decimal(-n) + rest;
    } else {
      NatRoundTrip(n, rest);
      assert IsDigit((Decimal(n) + rest)[0]);
    }
  }

  lemma LiteralRoundTrip(v: Json, rest: Text)
    requires v == Undefined || v == Null || v.Bool?
    ensures ParseValue(Stable(v) + rest) == Some((Normal(v), rest))
  {
    assert Ascii("null") == [110, 117, 108, 108];
    assert Ascii("true") == [116, 114, 117, 101];
    assert Ascii("false") == [102, 97, 108, 115, 101];
    var w := Stable(v);
    var t := w + rest;
    assert t[..|w|] == w && t[|w|..] == rest;
  }

  /** The parser reads a canonical text back as the normal form of what was printed. */
  lemma {:induction false} ParseStable(v: Json, rest: Text)
    requires Ends(rest)
    ensures ParseValue(Stable(v) + rest) == Some((Normal(v), rest))
    decreases v, 0
  {
    match v
    case Num(n) => NumberRoundTrip(n, rest);
    case Str(s) =>
      Assoc([QUOTE], Escape(s) + [QUOTE], rest);
      Assoc(Escape(s), [QUOTE], rest);
      StringRoundTrip(s, rest);
      assert (Quote(s) + rest)[1..] == Escape(s) + ([QUOTE] + rest);
    case Arr(items) =>
      if items != [] { ParseStableItems(items, rest); }
      ArrayText(items, rest);
    case Obj(es) =>
      var keys := SortKeys(KeysOf(es, true));
      if keys != [] { ParseStableMembers(es, keys, rest); }
      ObjectText(es, keys, rest);
    case _ => LiteralRoundTrip(v, rest);
  }

  lemma NoItems()
    ensures Items([]) == [] && NormalItems([]) == []
  {
  }

  lemma ArrayText(items: seq<Json>, rest: Text)
    requires items != [] ==>
      var t := Items(items) + ([93] + rest);
      ParseItems(t) == Some((NormalItems(items), rest)) && t[0] != 93
    ensures ParseValue(Stable(Arr(items)) + rest) == Some((Normal(Arr(items)), rest))
  {
    hide ParseItems, ParseString, Items, NormalItems;
    NoItems();
    var t := Stable(Arr(items)) + rest;
    Assoc([91], Items(items) + [93], rest);
    Assoc(Items(items), [93], rest);
    var inner := Items(items) + ([93] + rest);
    assert t[1..] == inner;
    if items == [] {
      assert inner == [93] + rest;
      assert t[1] == inner[0] && t[2..] == inner[1..] == rest;
    } else {
      assert t[1] == inner[0];
    }
  }

  lemma NoMembers(es: seq<Field>)
    ensures Members(es, []) == [] && NormalMembers(es, []) == []
  {
  }

  lemma ObjectText(es: seq<Field>, keys: seq<Text>, rest: Text)
    requires keys == SortKeys(KeysOf(es, true))
    requires keys != [] ==>
      var t := Members(es, keys) + ([125] + rest);
      ParseMembers(t) == Some((NormalMembers(es, keys), rest)) && t[0] == QUOTE
    ensures ParseValue(Stable(Obj(es)) + rest) == Some((Normal(Obj(es)), rest))
  {
    hide ParseMembers, ParseString, KeysOf, SortKeys, Members, NormalMembers;
    NoMembers(es);
    var t := Stable(Obj(es)) + rest;
    Assoc([123], Members(es, keys) + [125], rest);
    Assoc(Members(es, keys), [125], rest);
    var inner := Members(es, keys) + ([125] + rest);
    assert t[1..] == inner;
    if keys == [] {
      assert inner == [125] + rest;
      assert t[1] == inner[0] && t[2..] == inner[1..] == rest;
    } else {
      assert t[1] == inner[0];
    }
  }

  lemma {:induction false} ParseStableItems(items: seq<Json>, rest: Text)
    requires items != []
    ensures var t := Items(items) + ([93] + rest);
      ParseItems(t) == Some((NormalItems(items), rest)) && t[0] != 93
    decreases items, 1
  {
    var tail := [93] + rest;
    if |items| == 1 {
      ParseStable(items[0], tail);
      assert tail[1..] == rest;
      assert NormalItems(items) == [Normal(items[0])] + [] == [Normal(items[0])];
    } else {
      var after := Items(items[1..]) + tail;
      Assoc(Stable(items[0]), [44] + Items(items[1..]), tail);
      Assoc([44], Items(items[1..]), tail);
      ParseStable(items[0], [44] + after);
      assert ([44] + after)[1..] == after;
      ParseStableItems(items[1..], rest);
    }
  }

  lemma {:induction false} ParseStableMembers(es: seq<Field>, keys: seq<Text>, rest: Text)
    requires HasKeys(es, keys) && keys != []
    ensures var t := Members(es, keys) + ([125] + rest);
      ParseMembers(t) == Some((NormalMembers(es, keys), rest)) && t[0] == QUOTE
    decreases es, 1 + |keys|
  {
    assert keys[0] in keys && forall k :: k in keys[1..] ==> k in keys;
    var v := es[IndexOfKey(es, keys[0])].value;
    var tail := [125] + rest;
    if |keys| == 1 {
      ParseStable(v, tail);
      MemberText(keys[0], Stable(v), [], tail);
      assert [] + tail == tail;
      MemberParsed(keys[0], v, tail);
      assert tail[1..] == rest;
      assert NormalMembers(es, keys) == [Field(keys[0], Normal(v))] + [] == [Field(keys[0], Normal(v))];
    } else {
      var more := [44] + Members(es, keys[1..]);
      var after := Members(es, keys[1..]) + tail;
      MemberText(keys[0], Stable(v), more, tail);
      Assoc([44], Members(es, keys[1..]), tail);
      ParseStable(v, [44] + after);
      MemberParsed(keys[0], v, [44] + after);
      assert ([44] + after)[1..] == after;
      ParseStableMembers(es, keys[1..], rest);
    }
  }

  /** One member read: what `ParseMembers` does next depends on what follows the value. */
  lemma MemberParsed(k: Text, v: Json, after: Text)
    requires ParseValue(Stable(v) + after) == Some((Normal(v), after)) && after != []
    ensures var t := [QUOTE] + (Escape(k) + ([QUOTE] + ([58] + (Stable(v) + after))));
      && t[0] == QUOTE
      && ParseMembers(t) ==
        if after[0] == 125 then Some(([Field(k, Normal(v))], after[1..]))
        else if after[0] == 44 then
          match ParseMembers(after[1..])
          case None => None
          case Some((es, rest)) => Some(([Field(k, Normal(v))] + es, rest))
        else None
  {
    hide Escape, Stable, Normal, ParseValue, ParseString;
    StringRoundTrip(k, [58] + (Stable(v) + after));
    OneMember(k, Stable(v), after);
  }

  lemma MemberText(k: Text, value: Text, more: Text, tail: Text)
    ensures (Quote(k) + ([58] + (value + more))) + tail ==
      [QUOTE] + (Escape(k) + ([QUOTE] + ([58] + (value + (more + tail)))))
  {
    Assoc(Quote(k), [58] + (value + more), tail);
    Assoc([58], value + more, tail);
    Assoc(value, more, tail);
    Assoc([QUOTE], Escape(k) + [QUOTE], [58] + (value + (more + tail)));
    Assoc(Escape(k), [QUOTE], [58] + (value + (more + tail)));
  }

  lemma OneMember(k: Text, value: Text, after: Text)
    ensures var t := [QUOTE] + (Escape(k) + ([QUOTE] + ([58] + (value + after))));
      t[0] == QUOTE && t[1..] == Escape(k) + ([QUOTE] + ([58] + (value + after)))
    ensures ([58] + (value + after))[0] == 58 && ([58] + (value + after))[1..] == value + after
  {
  }

  // ---------------------------------------------------------------------------------------------
  // Equal text, equal meaning
  // ---------------------------------------------------------------------------------------------

  lemma {:induction false} FieldsOf(es: seq<Field>, k: Text)
    requires Valid(Obj(es))
    ensures k in Fields(es) <==> k in KeysOf(es, true)
    ensures k in KeysOf(es, true) ==> Fields(es)[k] == Meaning(es[IndexOfKey(es, k)].value)
  {
    if es != [] {
      var rest := es[1..];
      assert forall i :: 0 <= i < |rest| ==> rest[i] == es[i + 1];
      assert Valid(Obj(rest));
      FieldsOf(rest, k);
      if k in KeysOf(es, true) {
        var i := IndexOfKey(es, k);
        if k == es[0].key {
          assert i == 0;
          assert k !in KeysOf(rest, true);
        } else {
          assert es[1 + IndexOfKey(rest, k)].key == k;
          assert i == 1 + IndexOfKey(rest, k);
        }
      }
    }
  }

  lemma {:induction false} KeysDistinct(es: seq<Field>, dropUndefined: bool)
    requires forall i, j :: 0 <= i < j < |es| ==> es[i].key != es[j].key
    ensures DistinctTexts(KeysOf(es, dropUndefined))
  {
    if es != [] {
      KeysDistinct(es[1..], dropUndefined);
      var rest := KeysOf(es[1..], dropUndefined);
      forall k | k in rest ensures k != es[0].key {
        var i :| 0 <= i < |es[1..]| && es[1..][i].key == k;
        assert es[i + 1].key == k;
      }
      var all := KeysOf(es, dropUndefined);
      assert all == rest || all == [es[0].key] + rest;
      forall i, j | 0 <= i < j < |all| ensures all[i] != all[j] {
        if all != rest && i == 0 { assert all[j] in rest; }
      }
    }
  }

  /** Values with the same meaning have the same normal form: key order never matters. */
  lemma {:induction false} SameMeaningSameNormal(v: Json, w: Json)
    requires Valid(v) && Valid(w) && Meaning(v) == Meaning(w)
    ensures Normal(v) == Normal(w) && Stable(v) == Stable(w)
    decreases v, 0
  {
    match v
    case Arr(items) =>
      assert w.Arr?;
      var a, b := Meaning(v).items, Meaning(w).items;
      assert |a| == |items| && |b| == |w.items| && a == b;
      assert forall i :: 0 <= i < |a| ==> Meaning(items[i]) == a[i] && Meaning(w.items[i]) == b[i];
      SameItems(items, w.items);
    case Obj(es) =>
      assert w.Obj?;
      var fs := w.entries;
      KeysDistinct(es, true);
      KeysDistinct(fs, true);
      SortKeysSorted(KeysOf(es, true));
      SortKeysSorted(KeysOf(fs, true));
      forall k ensures k in KeysOf(es, true) <==> k in KeysOf(fs, true) {
        FieldsOf(es, k);
        FieldsOf(fs, k);
      }
      SortedUnique(SortKeys(KeysOf(es, true)), SortKeys(KeysOf(fs, true)));
      SameMembers(es, fs, SortKeys(KeysOf(es, true)));
    case _ =>
  }

  lemma {:induction false} SameItems(items: seq<Json>, others: seq<Json>)
    requires |items| == |others|
    requires forall i :: 0 <= i < |items| ==>
      Valid(items[i]) && Valid(others[i]) && Meaning(items[i]) == Meaning(others[i])
    ensures NormalItems(items) == NormalItems(others) && Items(items) == Items(others)
    decreases items, 1
  {
    if items != [] {
      SameMeaningSameNormal(items[0], others[0]);
      SameItems(items[1..], others[1..]);
    }
  }

  lemma {:induction false} SameMembers(es: seq<Field>, fs: seq<Field>, keys: seq<Text>)
    requires Valid(Obj(es)) && Valid(Obj(fs)) && Fields(es) == Fields(fs)
    requires forall k :: k in keys ==> k in KeysOf(es, true) && k in KeysOf(fs, true)
    ensures HasKeys(es, keys) && HasKeys(fs, keys)
    ensures NormalMembers(es, keys) == NormalMembers(fs, keys) && Members(es, keys) == Members(fs, keys)
    decreases es, 1 + |keys|
  {
    if keys != [] {
      var k := keys[0];
      FieldsOf(es, k);
      FieldsOf(fs, k);
      var i, j := IndexOfKey(es, k), IndexOfKey(fs, k);
      SameMeaningSameNormal(es[i].value, fs[j].value);
      SameMembers(es, fs, keys[1..]);
    }
  }

  /** The normal form means what the value means. */
  lemma {:induction false} NormalMeaning(v: Json)
    requires Valid(v)
    ensures Meaning(Normal(v)) == Meaning(v)
    decreases v, 0
  {
    match v
    case Arr(items) => NormalItemsMeaning(items);
    case Obj(es) =>
      KeysDistinct(es, true);
      SortKeysSorted(KeysOf(es, true));
      NormalMembersMeaning(es, SortKeys(KeysOf(es, true)));
      SameFields(es, Fields(NormalMembers(es, SortKeys(KeysOf(es, true)))));
    case _ =>
  }

  lemma SameFields(es: seq<Field>, m: map<Text, Val>)
    requires Valid(Obj(es))
    requires (forall k :: k in m <==> k in KeysOf(es, true)) &&
      (forall k :: k in m ==> k in Fields(es) && m[k] == Fields(es)[k])
    ensures m == Fields(es)
  {
    hide Fields;
    forall k ensures k in m <==> k in Fields(es) { FieldsOf(es, k); }
  }

  lemma {:induction false} NormalItemsMeaning(items: seq<Json>)
    requires forall i :: 0 <= i < |items| ==> Valid(items[i])
    ensures forall i :: 0 <= i < |items| ==> Meaning(NormalItems(items)[i]) == Meaning(items[i])
    decreases items, 1
  {
    if items != [] {
      NormalMeaning(items[0]);
      NormalItemsMeaning(items[1..]);
    }
  }

  lemma {:induction false} NormalMembersMeaning(es: seq<Field>, keys: seq<Text>)
    requires Valid(Obj(es)) && Sorted(keys)
    requires forall k :: k in keys ==> k in KeysOf(es, true)
    ensures HasKeys(es, keys)
    ensures var m := Fields(NormalMembers(es, keys));
      (forall k :: k in m <==> k in keys) && (forall k :: k in keys ==> k in Fields(es) && m[k] == Fields(es)[k])
    decreases es, 1 + |keys|
  {
    if keys != [] {
      var k := keys[0];
      FieldsOf(es, k);
      NormalMeaning(es[IndexOfKey(es, k)].value);
      NormalMembersMeaning(es, keys[1..]);
      NormalIsDefined(es[IndexOfKey(es, k)].value);
      var n := NormalMembers(es, keys);
      assert n[1..] == NormalMembers(es, keys[1..]);
      TailMembers(keys, k);
      assert keys == [keys[0]] + keys[1..];
    }
  }

  lemma NormalIsDefined(v: Json)
    ensures Normal(v) != Undefined
  {
  }

  /** Canonical JSON is uniquely decodable: two values have the same text exactly when they mean the
      same. Reordering keys never changes the text, and nothing else goes unseen. */
  lemma StableIff(v: Json, w: Json)
    requires Valid(v) && Valid(w)
    ensures Stable(v) == Stable(w) <==> Meaning(v) == Meaning(w)
  {
    if Meaning(v) == Meaning(w) {
      SameMeaningSameNormal(v, w);
    }
    if Stable(v) == Stable(w) {
      ParseStable(v, []);
      ParseStable(w, []);
      NormalMeaning(v);
      NormalMeaning(w);
    }
  }

  /** The parser recovers what a canonical text means. */
  lemma Decodes(v: Json)
    requires Valid(v)
    ensures ParseValue(Stable(v)).Some?
    ensures ParseValue(Stable(v)).value.1 == [] && Meaning(ParseValue(Stable(v)).value.0) == Meaning(v)
  {
    ParseStable(v, []);
    assert Stable(v) + [] == Stable(v);
    NormalMeaning(v);
  }

  /** a comes before b in a dictionary whose alphabet is the code units in their order. */
  ghost predicate Precedes(a: Text, b: Text) {
    exists p: nat :: PrecedesAt(a, b, p)
  }

  predicate PrecedesAt(a: Text, b: Text, p: nat) {
    p <= |a| && p < |b| && a[..p] == b[..p] && (p == |a| || a[p] < b[p])
  }

  lemma {:induction false} BeforePrecedes(a: Text, b: Text)
    requires Before(a, b)
    ensures Precedes(a, b)
  {
    if a == [] || a[0] < b[0] {
      assert PrecedesAt(a, b, 0);
    } else {
      BeforePrecedes(a[1..], b[1..]);
      var p: nat :| PrecedesAt(a[1..], b[1..], p);
      assert a[..p + 1] == [a[0]] + a[1..][..p] && b[..p + 1] == [b[0]] + b[1..][..p];
      assert p + 1 < |a| ==> a[1..][p] == a[p + 1];
      assert b[1..][p] == b[p + 1];
      assert PrecedesAt(a, b, p + 1);
    }
  }

  ghost predicate Defines(es: seq<Field>, k: Text) {
    exists i :: 0 <= i < |es| && es[i].key == k && es[i].value != Undefined
  }

  lemma {:induction false} NormalMembersKeys(es: seq<Field>, keys: seq<Text>, i: nat)
    requires HasKeys(es, keys) && i < |keys|
    ensures NormalMembers(es, keys)[i].key == keys[i] && NormalMembers(es, keys)[i].value != Undefined
  {
    if i > 0 {
      assert forall k :: k in keys[1..] ==> k in keys;
      NormalMembersKeys(es, keys[1..], i - 1);
    }
  }

  /** In the text of an object its defined fields stand in ascending order of their names, and only
      they. */
  lemma KeysAscend(es: seq<Field>)
    requires Valid(Obj(es))
    ensures ParseValue(Stable(Obj(es))).Some? && ParseValue(Stable(Obj(es))).value.0.Obj?
    ensures var printed := ParseValue(Stable(Obj(es))).value.0.entries;
      && (forall i, j :: 0 <= i < j < |printed| ==> Precedes(printed[i].key, printed[j].key))
      && (forall k :: Defines(printed, k) <==> Defines(es, k))
  {
    ParseStable(Obj(es), []);
    assert Stable(Obj(es)) + [] == Stable(Obj(es));
    var keys := SortKeys(KeysOf(es, true));
    var printed := NormalMembers(es, keys);
    KeysDistinct(es, true);
    SortKeysSorted(KeysOf(es, true));
    forall i | 0 <= i < |printed| ensures printed[i].key == keys[i] && printed[i].value != Undefined {
      NormalMembersKeys(es, keys, i);
    }
    forall i, j | 0 <= i < j < |printed| ensures Precedes(printed[i].key, printed[j].key) {
      BeforePrecedes(keys[i], keys[j]);
    }
    forall k ensures Defines(printed, k) <==> Defines(es, k) {
      if k in keys {
        var i :| 0 <= i < |keys| && keys[i] == k;
        assert printed[i].key == k;
      }
      assert Defines(es, k) <==> k in keys;
    }
  }
}
