/** The third copy of the canonical serializer, in lib/verified-intent.js, does not drop undefined.
    It writes the same text as the other two exactly for values without undefined in them. */
module CanonicalCopies {
  import opened Bytes
  import opened Text
  import opened Canonical

  predicate NoUndefined(v: Json) {
    match v
    case Undefined => false
    case Arr(items) => forall i :: 0 <= i < |items| ==> NoUndefined(items[i])
    case Obj(es) => forall i :: 0 <= i < |es| ==> NoUndefined(es[i].value)
    case _ => true
  }

  /** `stableStringify` of verified-intent; on undefined itself it returns no string. */
  function Keep(v: Json): (t: Text)
    requires v != Undefined
    decreases v, 0
  {
    match v
    case Null => Ascii("null")
    case Bool(b) => if b then Ascii("true") else Ascii("false")
    case Num(n) => DecimalInt(n)
    case Str(s) => Quote(s)
    case Arr(items) => [91] + (KeepItems(items) + [93])
    case Obj(es) => [123] + (KeepMembers(es, SortKeys(KeysOf(es, false))) + [125])
  }

  /** `join` writes nothing for an undefined item. */
  function KeepItems(items: seq<Json>): Text
    decreases items, 1
  {
    if items == [] then []
    else
      var first := if items[0] == Undefined then [] else Keep(items[0]);
      if |items| == 1 then first else first + ([44] + KeepItems(items[1..]))
  }

  /** Concatenation writes the word for an undefined field. */
  function KeepMembers(es: seq<Field>, keys: seq<Text>): Text
    requires HasKeys(es, keys)
    decreases es, 1 + |keys|
  {
    if keys == [] then []
    else
      assert keys[0] in keys && forall k :: k in keys[1..] ==> k in keys;
      var v := es[IndexOfKey(es, keys[0])].value;
      var text := if v == Undefined then Ascii("undefined") else Keep(v);
      Quote(keys[0]) + ([58] + (text + (if |keys| == 1 then [] else [44] + KeepMembers(es, keys[1..]))))
  }

  // ---------------------------------------------------------------------------------------------
  // Agreement
  // ---------------------------------------------------------------------------------------------

  lemma {:induction false} SameKeysWithoutUndefined(es: seq<Field>)
    requires NoUndefined(Obj(es))
    ensures KeysOf(es, false) == KeysOf(es, true)
  {
    if es != [] {
      assert forall i :: 0 <= i < |es[1..]| ==> es[1..][i] == es[i + 1];
      SameKeysWithoutUndefined(es[1..]);
    }
  }

  lemma {:induction false} CopiesAgree(v: Json)
    requires NoUndefined(v)
    ensures Keep(v) == Stable(v)
    decreases v, 0
  {
    match v
    case Arr(items) => ItemsAgree(items);
    case Obj(es) =>
      SameKeysWithoutUndefined(es);
      MembersAgree(es, SortKeys(KeysOf(es, true)));
    case _ =>
  }

  lemma {:induction false} ItemsAgree(items: seq<Json>)
    requires forall i :: 0 <= i < |items| ==> NoUndefined(items[i])
    ensures KeepItems(items) == Items(items)
    decreases items, 1
  {
    if items != [] {
      CopiesAgree(items[0]);
      ItemsAgree(items[1..]);
    }
  }

  lemma {:induction false} MembersAgree(es: seq<Field>, keys: seq<Text>)
    requires HasKeys(es, keys) && NoUndefined(Obj(es))
    ensures KeepMembers(es, keys) == Members(es, keys)
    decreases es, 1 + |keys|
  {
    if keys != [] {
      assert keys[0] in keys && forall k :: k in keys[1..] ==> k in keys;
      CopiesAgree(es[IndexOfKey(es, keys[0])].value);
      MembersAgree(es, keys[1..]);
    }
  }

  // ---------------------------------------------------------------------------------------------
  // Disagreement
  // ---------------------------------------------------------------------------------------------

  /** The texts differ at a position both have, so they differ whatever follows. */
  ghost predicate Differ(a: Text, b: Text) {
    exists i :: 0 <= i < |a| && i < |b| && a[i] != b[i]
  }

  lemma DifferExtended(p: Text, a: Text, b: Text, x: Text, y: Text)
    requires Differ(a, b)
    ensures Differ(p + (a + x), p + (b + y))
  {
    var i :| 0 <= i < |a| && i < |b| && a[i] != b[i];
    assert (p + (a + x))[|p| + i] == a[i] && (p + (b + y))[|p| + i] == b[i];
  }

  lemma DifferFirst(a: Text, b: Text)
    requires a != [] && b != [] && a[0] != b[0]
    ensures Differ(a, b)
  {
  }

  /** Quoted strings are prefix-free. */
  lemma QuotesDiffer(a: Text, b: Text)
    requires a != b
    ensures Differ(Quote(a), Quote(b))
  {
    hide Escape, ParseString;
    var s, t := Escape(a) + [QUOTE], Escape(b) + [QUOTE];
    if !Differ(s, t) {
      if |s| <= |t| {
        NoPrefix(a, b, s, t);
      } else {
        NoPrefix(b, a, t, s);
      }
      assert false;
    }
    DifferExtended([QUOTE], s, t, [], []);
    assert s + [] == s && t + [] == t;
  }

  lemma NoPrefix(a: Text, b: Text, s: Text, t: Text)
    requires s == Escape(a) + [QUOTE] && t == Escape(b) + [QUOTE] && |s| <= |t|
    requires forall i :: 0 <= i < |s| ==> s[i] == t[i]
    ensures a == b
  {
    hide Escape, ParseString;
    var z := t[|s|..];
    assert t == s + z;
    Assoc(Escape(a), [QUOTE], z);
    StringRoundTrip(a, z);
    StringRoundTrip(b, []);
    assert [QUOTE] + [] == [QUOTE];
  }

  lemma {:induction false} CopiesDiffer(v: Json)
    requires Valid(v) && v != Undefined && !NoUndefined(v)
    ensures Differ(Keep(v), Stable(v))
    decreases v, 0
  {
    match v
    case Arr(items) =>
      ItemsDiffer(items);
      DifferExtended([91], KeepItems(items) + [93], Items(items) + [93], [], []);
      assert (KeepItems(items) + [93]) + [] == KeepItems(items) + [93] &&
        (Items(items) + [93]) + [] == Items(items) + [93];
    case Obj(es) =>
      var all, def := SortKeys(KeysOf(es, false)), SortKeys(KeysOf(es, true));
      KeysDistinct(es, false);
      KeysDistinct(es, true);
      SortKeysSorted(KeysOf(es, false));
      SortKeysSorted(KeysOf(es, true));
      SplitKeys(es, all, def);
      MembersDiffer(es, all, def);
      DifferExtended([123], KeepMembers(es, all) + [125], Members(es, def) + [125], [], []);
      assert (KeepMembers(es, all) + [125]) + [] == KeepMembers(es, all) + [125] &&
        (Members(es, def) + [125]) + [] == Members(es, def) + [125];
  }

  lemma {:induction false} ItemsDiffer(items: seq<Json>)
    requires forall i :: 0 <= i < |items| ==> Valid(items[i])
    requires exists i :: 0 <= i < |items| && !NoUndefined(items[i])
    ensures Differ(KeepItems(items) + [93], Items(items) + [93])
    decreases items, 1
  {
    var x := items[0];
    var a := if |items| == 1 then [93] else [44] + (KeepItems(items[1..]) + [93]);
    var b := if |items| == 1 then [93] else [44] + (Items(items[1..]) + [93]);
    var first := if x == Undefined then [] else Keep(x);
    if |items| > 1 {
      Assoc(first, [44] + KeepItems(items[1..]), [93]);
      Assoc([44], KeepItems(items[1..]), [93]);
      Assoc(Stable(x), [44] + Items(items[1..]), [93]);
      Assoc([44], Items(items[1..]), [93]);
    }
    assert KeepItems(items) + [93] == first + a && Items(items) + [93] == Stable(x) + b;
    if x == Undefined {
      assert Ascii("null")[0] == 110;
      assert first + a == a;
      DifferFirst(a, Stable(x) + b);
    } else if !NoUndefined(x) {
      CopiesDiffer(x);
      DifferExtended([], Keep(x), Stable(x), a, b);
      assert [] + (Keep(x) + a) == Keep(x) + a && [] + (Stable(x) + b) == Stable(x) + b;
    } else {
      CopiesAgree(x);
      var i :| 0 <= i < |items| && !NoUndefined(items[i]);
      assert items[1..][i - 1] == items[i];
      ItemsDiffer(items[1..]);
      DifferExtended([44], KeepItems(items[1..]) + [93], Items(items[1..]) + [93], [], []);
      assert (KeepItems(items[1..]) + [93]) + [] == KeepItems(items[1..]) + [93];
      assert (Items(items[1..]) + [93]) + [] == Items(items[1..]) + [93];
      DifferExtended(first, a, b, [], []);
      assert a + [] == a && b + [] == b;
    }
  }

  ghost predicate SomeUndefined(es: seq<Field>, keys: seq<Text>)
    requires HasKeys(es, keys)
  {
    exists k :: k in keys && !NoUndefined(es[IndexOfKey(es, k)].value)
  }

  ghost predicate DefinedPart(es: seq<Field>, all: seq<Text>, def: seq<Text>) {
    && HasKeys(es, all) && HasKeys(es, def) && Sorted(all) && Sorted(def)
    && (forall k :: k in def ==> k in all)
    && (forall k :: k in all ==> (k in def <==> es[IndexOfKey(es, k)].value != Undefined))
  }

  lemma SplitKeys(es: seq<Field>, all: seq<Text>, def: seq<Text>)
    requires Valid(Obj(es)) && !NoUndefined(Obj(es))
    requires Sorted(all) && Sorted(def)
    requires (forall k :: k in all <==> k in KeysOf(es, false)) && (forall k :: k in def <==> k in KeysOf(es, true))
    ensures DefinedPart(es, all, def)
    ensures SomeUndefined(es, all)
  {
    forall k | k in all ensures k in def <==> es[IndexOfKey(es, k)].value != Undefined {
      var j := IndexOfKey(es, k);
      assert forall i :: 0 <= i < |es| && es[i].key == k ==> i == j;
    }
    var i :| 0 <= i < |es| && !NoUndefined(es[i].value);
    assert es[i].key in all;
    assert IndexOfKey(es, es[i].key) == i;
  }

  lemma DroppedFirst(es: seq<Field>, all: seq<Text>, def: seq<Text>, text: Text, a: Text)
    requires DefinedPart(es, all, def) && all != [] && all[0] in all && es[IndexOfKey(es, all[0])].value == Undefined
    requires KeepMembers(es, all) == Quote(all[0]) + ([58] + (text + a))
    ensures Differ(KeepMembers(es, all) + [125], Members(es, def) + [125])
  {
    hide KeepMembers, Quote;
    var k := all[0];
    if def == [] {
      QuoteFirst(k);
      DifferFirst(KeepMembers(es, all) + [125], Members(es, def) + [125]);
    } else {
      hide Members;
      OtherFirst(es, all, def);
      QuotesDiffer(k, def[0]);
      FirstMember(es, def, [125]);
      var y :| Members(es, def) + [125] == Quote(def[0]) + y;
      Assoc(Quote(k), [58] + (text + a), [125]);
      DifferExtended([], Quote(k), Quote(def[0]), ([58] + (text + a)) + [125], y);
      assert [] + (Quote(k) + (([58] + (text + a)) + [125])) == KeepMembers(es, all) + [125];
      assert [] + (Quote(def[0]) + y) == Members(es, def) + [125];
    }
  }

  lemma QuoteFirst(k: Text)
    ensures Quote(k) != [] && Quote(k)[0] == QUOTE
  {
  }

  lemma {:induction false} MembersDiffer(es: seq<Field>, all: seq<Text>, def: seq<Text>)
    requires Valid(Obj(es)) && DefinedPart(es, all, def)
    requires SomeUndefined(es, all)
    ensures Differ(KeepMembers(es, all) + [125], Members(es, def) + [125])
    decreases es, 1 + |all|, 0
  {
    assert all != [];
    var k := all[0];
    assert k in all;
    assert forall x :: x in all[1..] ==> x in all;
    var v := es[IndexOfKey(es, k)].value;
    var text := if v == Undefined then Ascii("undefined") else Keep(v);
    var a := if |all| == 1 then [] else [44] + KeepMembers(es, all[1..]);
    MemberText(k, text, a, [125]);
    if v == Undefined {
      DroppedFirst(es, all, def, text, a);
    } else {
      SameFirst(es, all, def);
      var b := if |def| == 1 then [] else [44] + Members(es, def[1..]);
      MemberText(k, Stable(v), b, [125]);
      var pre := [QUOTE] + (Escape(k) + ([QUOTE] + [58]));
      Regroup(k, text, a + [125]);
      Regroup(k, Stable(v), b + [125]);
      if !NoUndefined(v) {
        CopiesDiffer(v);
        DifferExtended(pre, text, Stable(v), a + [125], b + [125]);
      } else {
        CopiesAgree(v);
        TailDiffers(es, all, def, a, b);
        DifferExtended(pre + text, a + [125], b + [125], [], []);
        Assoc(pre, text, a + [125]);
        Assoc(pre, text, b + [125]);
        assert (a + [125]) + [] == a + [125] && (b + [125]) + [] == b + [125];
      }
    }
  }

  lemma Regroup(k: Text, value: Text, tail: Text)
    ensures [QUOTE] + (Escape(k) + ([QUOTE] + ([58] + (value + tail)))) ==
      ([QUOTE] + (Escape(k) + ([QUOTE] + [58]))) + (value + tail)
  {
    Assoc([QUOTE], [58], value + tail);
    Assoc(Escape(k), [QUOTE] + [58], value + tail);
    Assoc([QUOTE], Escape(k) + ([QUOTE] + [58]), value + tail);
  }

  lemma {:induction false} FirstMember(es: seq<Field>, keys: seq<Text>, tail: Text)
    requires HasKeys(es, keys) && keys != []
    ensures exists y :: Members(es, keys) + tail == Quote(keys[0]) + y
  {
    hide Stable, Quote;
    assert keys[0] in keys && forall k :: k in keys[1..] ==> k in keys;
    var y := [58] + (Stable(es[IndexOfKey(es, keys[0])].value) +
      (if |keys| == 1 then [] else [44] + Members(es, keys[1..])));
    Assoc(Quote(keys[0]), y, tail);
    assert Members(es, keys) + tail == Quote(keys[0]) + (y + tail);
  }

  lemma OtherFirst(es: seq<Field>, all: seq<Text>, def: seq<Text>)
    requires DefinedPart(es, all, def) && all != [] && def != []
    requires all[0] in all && es[IndexOfKey(es, all[0])].value == Undefined
    ensures def[0] != all[0]
  {
    assert all[0] in all && def[0] in def;
  }

  lemma SameFirst(es: seq<Field>, all: seq<Text>, def: seq<Text>)
    requires DefinedPart(es, all, def) && all != []
    requires all[0] in all && es[IndexOfKey(es, all[0])].value != Undefined
    ensures def != [] && def[0] == all[0]
    ensures DefinedPart(es, all[1..], def[1..])
  {
    var k := all[0];
    assert k in all && k in def;
    var i :| 0 <= i < |def| && def[i] == k;
    assert def[0] in def;
    var j :| 0 <= j < |all| && all[j] == def[0];
    BeforeTotal(k, def[0]);
    forall x ensures x in all[1..] <==> x in all && x != k { TailMembers(all, x); }
    forall x ensures x in def[1..] <==> x in def && x != k { TailMembers(def, x); }
  }

  lemma UndefinedInTail(es: seq<Field>, keys: seq<Text>)
    requires HasKeys(es, keys) && keys != [] && keys[0] in keys && NoUndefined(es[IndexOfKey(es, keys[0])].value)
    requires SomeUndefined(es, keys)
    ensures |keys| > 1 && HasKeys(es, keys[1..]) && SomeUndefined(es, keys[1..])
  {
    var k :| k in keys && !NoUndefined(es[IndexOfKey(es, k)].value);
    var i :| 0 <= i < |keys| && keys[i] == k;
    assert keys[1..][i - 1] == k;
    assert forall x :: x in keys[1..] ==> x in keys;
  }

  lemma AfterComma(a: Text, b: Text)
    requires Differ(a + [125], b + [125])
    ensures Differ(([44] + a) + [125], ([44] + b) + [125])
  {
    Assoc([44], a, [125]);
    Assoc([44], b, [125]);
    DifferExtended([44], a + [125], b + [125], [], []);
    assert (a + [125]) + [] == a + [125] && (b + [125]) + [] == b + [125];
  }

  lemma {:induction false} TailDiffers(es: seq<Field>, all: seq<Text>, def: seq<Text>, a: Text, b: Text)
    requires Valid(Obj(es)) && DefinedPart(es, all, def) && all != [] && def != [] &&
      DefinedPart(es, all[1..], def[1..])
    requires all[0] in all && NoUndefined(es[IndexOfKey(es, all[0])].value)
    requires SomeUndefined(es, all)
    requires a == if |all| == 1 then [] else [44] + KeepMembers(es, all[1..])
    requires b == if |def| == 1 then [] else [44] + Members(es, def[1..])
    ensures Differ(a + [125], b + [125])
    decreases es, |all|, 1
  {
    assert HasKeys(es, all);
    hide DefinedPart, SomeUndefined, NoUndefined, Valid, KeepMembers, Members, HasKeys;
    UndefinedInTail(es, all);
    if |def| == 1 {
      DifferFirst(a + [125], b + [125]);
    } else {
      MembersDiffer(es, all[1..], def[1..]);
      AfterComma(KeepMembers(es, all[1..]), Members(es, def[1..]));
    }
  }

  /** The copies write the same text exactly for values without undefined. */
  lemma CopiesAgreeIff(v: Json)
    requires Valid(v) && v != Undefined
    ensures Keep(v) == Stable(v) <==> NoUndefined(v)
  {
    if NoUndefined(v) {
      CopiesAgree(v);
    } else {
      CopiesDiffer(v);
    }
  }

  /** So, for values without undefined, what the evidence signatures cover also determines the
      payload. */
  lemma KeepIff(v: Json, w: Json)
    requires Valid(v) && Valid(w) && NoUndefined(v) && NoUndefined(w)
    ensures Keep(v) == Keep(w) <==> Meaning(v) == Meaning(w)
  {
    CopiesAgree(v);
    CopiesAgree(w);
    StableIff(v, w);
  }
}
