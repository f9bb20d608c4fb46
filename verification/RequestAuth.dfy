/** Signed requests of lib/owner-auth.js and lib/node-auth.js: the text that is signed, and the one-time
    nonce check with its bounded store. */
module RequestAuth {
  import opened Bytes
  import opened Text
  import opened Canonical

  // ---------------------------------------------------------------------------------------------
  // The signed text
  // ---------------------------------------------------------------------------------------------

  datatype Domain = Owner | Node

  const NEWLINE: Unit := 10

  function DomainName(d: Domain): Text {
    match d
    case Owner => Ascii("circuit-owner-auth")
    case Node => Ascii("circuit-node-auth")
  }

  /** `toUpperCase` on ASCII letters. */
  function Upper(t: Text): (r: Text)
    ensures |r| == |t|
  {
    seq(|t|, i requires 0 <= i < |t| => if 97 <= t[i] <= 122 then t[i] - 32 else t[i])
  }

  predicate LowerCase(u: Unit) {
    97 <= u <= 122
  }

  /** The two are one letter but for its case. */
  predicate SameLetter(u: Unit, v: Unit) {
    u == v || (LowerCase(u) && v == u - 32) || (LowerCase(v) && u == v - 32)
  }

  /** The method's case is ignored, and the text has it in upper case. */
  lemma CaseIgnored(a: Text, b: Text)
    ensures Upper(a) == Upper(b) <==> |a| == |b| && forall i :: 0 <= i < |a| ==> SameLetter(a[i], b[i])
    ensures forall i :: 0 <= i < |a| ==> !LowerCase(Upper(a)[i])
    ensures Upper(Upper(a)) == Upper(a)
  {
    if Upper(a) == Upper(b) {
      forall i | 0 <= i < |a| ensures SameLetter(a[i], b[i]) {
        assert Upper(a)[i] == Upper(b)[i];
      }
    }
  }

  /** `body ?? {}`. */
  function BodyOf(body: Json): Json {
    if body == Undefined || body == Null then Obj([]) else body
  }

  function Line(t: Text, rest: Text): Text {
    t + [NEWLINE] + rest
  }

  /** `ownerAuthMessage` and `nodeAuthMessage`; `hash` stands for `sha256hex`. */
  function Message(d: Domain, hash: Text -> Text, method_: Text, path: Text, body: Json, ts: int, nonce: Text): Text {
    Line(DomainName(d), Line(Ascii("v1"), Line(Upper(method_), Line(path,
      Line(hash(Stable(BodyOf(body))), Line(DecimalInt(ts), nonce))))))
  }

  lemma LineInjective(a: Text, b: Text, c: Text, d: Text)
    requires Without(a, NEWLINE) && Without(c, NEWLINE)
    ensures Line(a, b) == Line(c, d) <==> a == c && b == d
  {
    if Line(a, b) == Line(c, d) { FirstSeparator(a, b, c, d, NEWLINE); }
  }

  lemma DecimalIntLine(n: int)
    ensures Without(DecimalInt(n), NEWLINE)
  {
    var t := DecimalInt(n);
    forall i | 0 <= i < |t| ensures t[i] != NEWLINE {
      if n < 0 && i > 0 { assert t[i] == Decimal(-n)[i - 1]; }
    }
  }

  lemma MinusFirst(m: int, n: int)
    requires (m < 0) != (n < 0)
    ensures DecimalInt(m) != DecimalInt(n)
  {
    assert m >= 0 ==> IsDigit(DecimalInt(m)[0]);
    assert n >= 0 ==> IsDigit(DecimalInt(n)[0]);
  }

  lemma DecimalIntInjective(m: int, n: int)
    ensures DecimalInt(m) == DecimalInt(n) <==> m == n
  {
    hide Decimal, DecimalValue;
    if DecimalInt(m) == DecimalInt(n) {
      if (m < 0) != (n < 0) {
        MinusFirst(m, n);
      } else {
        var t := if m < 0 then DecimalInt(m)[1..] else DecimalInt(m);
        assert t == Decimal(Abs(m)) && t == Decimal(Abs(n));
        DecimalValueOf(Abs(m));
        DecimalValueOf(Abs(n));
      }
    }
  }

  lemma DomainLines()
    ensures Without(Ascii("circuit-owner-auth"), NEWLINE) && Without(Ascii("circuit-node-auth"), NEWLINE)
    ensures Without(Ascii("v1"), NEWLINE)
    ensures DomainName(Owner) != DomainName(Node)
  {
    assert |DomainName(Owner)| == 18 && |DomainName(Node)| == 17;
  }

  /** A signed text fixes everything it was made from: the kind of signer, the method up to case, the
      path, the meaning of the body, the time and the nonce. */
  lemma MessageIff(d: Domain, d': Domain, hash: Text -> Text, method_: Text, method': Text, path: Text, path': Text,
                   body: Json, body': Json, ts: int, ts': int, nonce: Text, nonce': Text)
    requires Valid(body) && Valid(body')
    requires Without(method_, NEWLINE) && Without(method', NEWLINE) && Without(path, NEWLINE) && Without(path', NEWLINE)
    requires Without(hash(Stable(BodyOf(body))), NEWLINE) && Without(hash(Stable(BodyOf(body'))), NEWLINE)
    requires hash(Stable(BodyOf(body))) == hash(Stable(BodyOf(body'))) ==> Stable(BodyOf(body)) == Stable(BodyOf(body'))
    ensures Message(d, hash, method_, path, body, ts, nonce) == Message(d', hash, method', path', body', ts', nonce')
       <==> d == d' && Upper(method_) == Upper(method') && path == path'
            && Meaning(BodyOf(body)) == Meaning(BodyOf(body')) && ts == ts' && nonce == nonce'
  {
    hide Stable, Meaning, Valid, DecimalInt, Line;
    var h, h' := hash(Stable(BodyOf(body))), hash(Stable(BodyOf(body')));
    var e, e' := Line(DecimalInt(ts), nonce), Line(DecimalInt(ts'), nonce');
    var c, c' := Line(h, e), Line(h', e');
    var b, b' := Line(path, c), Line(path', c');
    var a, a' := Line(Upper(method_), b), Line(Upper(method'), b');
    DomainLines();
    LineInjective(DomainName(d), Line(Ascii("v1"), a), DomainName(d'), Line(Ascii("v1"), a'));
    LineInjective(Ascii("v1"), a, Ascii("v1"), a');
    LineInjective(Upper(method_), b, Upper(method'), b');
    LineInjective(path, c, path', c');
    LineInjective(h, e, h', e');
    DecimalIntLine(ts);
    DecimalIntLine(ts');
    LineInjective(DecimalInt(ts), nonce, DecimalInt(ts'), nonce');
    DecimalIntInjective(ts, ts');
    BodyValid(body);
    BodyValid(body');
    StableIff(BodyOf(body), BodyOf(body'));
  }

  lemma BodyValid(body: Json)
    requires Valid(body)
    ensures Valid(BodyOf(body))
  {
  }

  /** An owner's signed text is never a node's, whatever is in them. */
  lemma DomainsApart(hash: Text -> Text, method_: Text, method': Text, path: Text, path': Text,
                     body: Json, body': Json, ts: int, ts': int, nonce: Text, nonce': Text)
    ensures Message(Owner, hash, method_, path, body, ts, nonce) != Message(Node, hash, method', path', body', ts',
      nonce')
  {
    hide Stable, DecimalInt, Upper;
    DomainLines();
    var a := Line(Ascii("v1"), Line(Upper(method_),
      Line(path, Line(hash(Stable(BodyOf(body))), Line(DecimalInt(ts), nonce)))));
    var b := Line(Ascii("v1"), Line(Upper(method'),
      Line(path', Line(hash(Stable(BodyOf(body'))), Line(DecimalInt(ts'), nonce')))));
    LineInjective(DomainName(Owner), a, DomainName(Node), b);
  }

  // ---------------------------------------------------------------------------------------------
  // The nonce store
  // ---------------------------------------------------------------------------------------------

  const LIMIT := 5000

  /** `has`: an entry that is not a positive expiry in the future is no obstacle. */
  predicate Seen(m: map<Text, int>, n: Text, now: int) {
    n in m && m[n] != 0 && m[n] > now
  }

  /** `has` forgets an expired entry it meets. */
  function AfterHas(m: map<Text, int>, n: Text, now: int): map<Text, int> {
    if n in m && m[n] != 0 && !(m[n] > now) then m - {n} else m
  }

  function Swept(m: map<Text, int>, now: int): map<Text, int> {
    map k | k in m && m[k] > now :: m[k]
  }

  function AfterAdd(m: map<Text, int>, n: Text, expiry: int, now: int): map<Text, int> {
    var m' := m[n := expiry];
    if |m'| > LIMIT then Swept(m', now) else m'
  }

  class NonceStore {
    var m: map<Text, int>

    constructor ()
      ensures m == map[]
    {
      m := map[];
    }

    method Has(n: Text, now: int) returns (seen: bool)
      modifies this
      ensures seen == Seen(old(m), n, now) && m == AfterHas(old(m), n, now)
    {
      if n in m && m[n] != 0 && m[n] > now { return true; }
      if n in m && m[n] != 0 { m := m - {n}; }
      return false;
    }

    method Add(n: Text, expiry: int, now: int)
      modifies this
      ensures m == AfterAdd(old(m), n, expiry, now)
    {
      m := m[n := expiry];
      if |m| > LIMIT {
        ghost var m0 := m;
        var todo := m.Keys;
        while todo != {}
          invariant todo <= m0.Keys && m.Keys <= m0.Keys
          invariant forall k :: k in m ==> m[k] == m0[k]
          invariant forall k :: k in m0 ==> (k in m <==> k in todo || m0[k] > now)
          decreases |todo|
        {
          var k :| k in todo;
          if m[k] <= now { m := m - {k}; }
          todo := todo - {k};
        }
        assert m == Swept(m0, now);
      }
    }
  }

  // ---------------------------------------------------------------------------------------------
  // Verification of one request
  // ---------------------------------------------------------------------------------------------

  datatype Outcome = Unsigned | Incomplete | Stale | Replay | Malformed | BadSignature | Accepted(signer: Text)

  datatype Check = Throws | Fails | Passes

  /** The four headers, empty when absent; the time they give as a number, if it is finite; what the
      signature check says about the message built from them; the age limit; the clock. */
  datatype Call = Call(signer: Text, ts: Text, nonce: Text, sig: Text, tsn: Option<int>, check: Check, maxAge: int,
                       now: int)

  function Abs(x: int): nat { if x < 0 then -x else x }

  /** What is decided before the nonce store is asked. */
  function Early(c: Call): Option<Outcome> {
    if c.signer == [] && c.ts == [] && c.nonce == [] && c.sig == [] then Some(Unsigned)
    else if c.signer == [] || c.ts == [] || c.nonce == [] || c.sig == [] then Some(Incomplete)
    else if c.tsn.None? || Abs(c.now - c.tsn.value) > c.maxAge then Some(Stale)
    else None
  }

  function After(c: Call): Outcome {
    match c.check
    case Throws => Malformed
    case Fails => BadSignature
    case Passes => Accepted(c.signer)
  }

  function Expiry(c: Call): int {
    if c.tsn.Some? then c.tsn.value + c.maxAge else 0
  }

  function Decide(m: map<Text, int>, c: Call): Outcome {
    if Early(c).Some? then Early(c).value
    else if Seen(m, c.nonce, c.now) then Replay
    else After(c)
  }

  function Next(m: map<Text, int>, c: Call): map<Text, int> {
    if Early(c).Some? then m
    else if Seen(m, c.nonce, c.now) then AfterHas(m, c.nonce, c.now)
    else AfterAdd(AfterHas(m, c.nonce, c.now), c.nonce, Expiry(c), c.now)
  }

  /** `verifyOwnerRequest` and `verifyNodeRequest` with a nonce store: the nonce is spent before the
      signature is looked at. */
  method Verify(store: NonceStore, c: Call) returns (r: Outcome)
    modifies store
    ensures r == Decide(old(store.m), c) && store.m == Next(old(store.m), c)
  {
    if c.signer == [] && c.ts == [] && c.nonce == [] && c.sig == [] { return Unsigned; }
    if c.signer == [] || c.ts == [] || c.nonce == [] || c.sig == [] { return Incomplete; }
    if c.tsn.None? || Abs(c.now - c.tsn.value) > c.maxAge { return Stale; }
    var seen := store.Has(c.nonce, c.now);
    if seen { return Replay; }
    store.Add(c.nonce, c.tsn.value + c.maxAge, c.now);
    match c.check
    case Throws => return Malformed;
    case Fails => return BadSignature;
    case Passes => return Accepted(c.signer);
  }

  // ---------------------------------------------------------------------------------------------
  // Runs
  // ---------------------------------------------------------------------------------------------

  /** The answers to a series of calls on one store. */
  function Run(m: map<Text, int>, calls: seq<Call>): (r: seq<Outcome>)
    ensures |r| == |calls|
    decreases |calls|
  {
    if calls == [] then [] else [Decide(m, calls[0])] + Run(Next(m, calls[0]), calls[1..])
  }

  datatype Entry = Entry(nonce: Text, expiry: int)

  /** The reference: a store that keeps every nonce it was ever given. */
  predicate Remembered(h: seq<Entry>, n: Text, now: int) {
    exists i :: 0 <= i < |h| && h[i].nonce == n && h[i].expiry > now
  }

  function DecideUnbounded(h: seq<Entry>, c: Call): Outcome {
    if Early(c).Some? then Early(c).value
    else if Remembered(h, c.nonce, c.now) then Replay
    else After(c)
  }

  function NextUnbounded(h: seq<Entry>, c: Call): seq<Entry> {
    if Early(c).Some? || Remembered(h, c.nonce, c.now) then h else h + [Entry(c.nonce, Expiry(c))]
  }

  function RunUnbounded(h: seq<Entry>, calls: seq<Call>): (r: seq<Outcome>)
    ensures |r| == |calls|
    decreases |calls|
  {
    if calls == [] then [] else [DecideUnbounded(h, calls[0])] + RunUnbounded(NextUnbounded(h, calls[0]), calls[1..])
  }

  /** One positive clock reading per call, never going back. */
  predicate Clocked(calls: seq<Call>) {
    && (forall i :: 0 <= i < |calls| ==> calls[i].now > 0)
    && (forall i, j :: 0 <= i < j < |calls| ==> calls[i].now <= calls[j].now)
  }

  /** What the bounded store still knows at time `now`. */
  ghost predicate Agree(m: map<Text, int>, h: seq<Entry>, now: int) {
    && (forall i :: 0 <= i < |h| && h[i].expiry > now ==> h[i].nonce in m && m[h[i].nonce] == h[i].expiry)
    && (forall n :: n in m ==> Entry(n, m[n]) in h)
  }

  lemma SameAnswer(m: map<Text, int>, h: seq<Entry>, n: Text, now: int)
    requires Agree(m, h, now) && now > 0
    ensures Seen(m, n, now) <==> Remembered(h, n, now)
  {
    if Seen(m, n, now) {
      var i :| 0 <= i < |h| && h[i] == Entry(n, m[n]);
    }
  }

  lemma AgreeLater(m: map<Text, int>, h: seq<Entry>, now: int, later: int)
    requires Agree(m, h, now) && now <= later
    ensures Agree(m, h, later)
  {
  }

  lemma AgreeNext(m: map<Text, int>, h: seq<Entry>, c: Call)
    requires Agree(m, h, c.now) && c.now > 0
    ensures Agree(Next(m, c), NextUnbounded(h, c), c.now)
  {
    SameAnswer(m, h, c.nonce, c.now);
    var m1 := AfterHas(m, c.nonce, c.now);
    assert Agree(m1, h, c.now);
    if Early(c).None? && !Seen(m, c.nonce, c.now) {
      var h' := h + [Entry(c.nonce, Expiry(c))];
      var m2 := m1[c.nonce := Expiry(c)];
      assert h'[|h|] == Entry(c.nonce, Expiry(c));
      forall n | n in m2 ensures Entry(n, m2[n]) in h' {
        if n != c.nonce {
          var i :| 0 <= i < |h| && h[i] == Entry(n, m1[n]);
          assert h'[i] == h[i];
        }
      }
      assert Agree(m2, h', c.now);
      assert Agree(Swept(m2, c.now), h', c.now);
    }
  }

  /** Forgetting never changes an answer: the bounded store answers every series of calls as one that
      never forgets. */
  lemma {:induction false} BoundedIsUnbounded(m: map<Text, int>, h: seq<Entry>, calls: seq<Call>)
    requires Clocked(calls) && (calls != [] ==> Agree(m, h, calls[0].now))
    ensures Run(m, calls) == RunUnbounded(h, calls)
    decreases |calls|
  {
    if calls != [] {
      var c := calls[0];
      SameAnswer(m, h, c.nonce, c.now);
      AgreeNext(m, h, c);
      if |calls| > 1 {
        AgreeLater(Next(m, c), NextUnbounded(h, c), c.now, calls[1].now);
      }
      BoundedIsUnbounded(Next(m, c), NextUnbounded(h, c), calls[1..]);
    }
  }

  lemma {:induction false} ForgettingIsSafe(calls: seq<Call>)
    requires Clocked(calls)
    ensures Run(map[], calls) == RunUnbounded([], calls)
  {
    BoundedIsUnbounded(map[], [], calls);
  }

  // ---------------------------------------------------------------------------------------------
  // Replays
  // ---------------------------------------------------------------------------------------------

  /** The unbounded store after some calls. */
  function History(h: seq<Entry>, calls: seq<Call>): seq<Entry>
    decreases |calls|
  {
    if calls == [] then h else History(NextUnbounded(h, calls[0]), calls[1..])
  }

  lemma {:induction false} AnswerAt(h: seq<Entry>, calls: seq<Call>, k: nat)
    requires k < |calls|
    ensures RunUnbounded(h, calls)[k] == DecideUnbounded(History(h, calls[..k]), calls[k])
    ensures History(h, calls[..k + 1]) == NextUnbounded(History(h, calls[..k]), calls[k])
    decreases |calls|
  {
    if k == 0 {
      assert calls[..1] == [calls[0]] && calls[..1][1..] == [];
    } else {
      AnswerAt(NextUnbounded(h, calls[0]), calls[1..], k - 1);
      assert calls[..k][1..] == calls[1..][..k - 1] && calls[..k + 1][1..] == calls[1..][..k];
    }
  }

  lemma {:induction false} HistoryGrows(h: seq<Entry>, calls: seq<Call>)
    ensures |h| <= |History(h, calls)| && History(h, calls)[..|h|] == h
    decreases |calls|
  {
    if calls != [] { HistoryGrows(NextUnbounded(h, calls[0]), calls[1..]); }
  }

  lemma {:induction false} HistoryAppend(h: seq<Entry>, a: seq<Call>, b: seq<Call>)
    ensures History(h, a + b) == History(History(h, a), b)
    decreases |a|
  {
    if a == [] {
      assert a + b == b;
    } else {
      HistoryAppend(NextUnbounded(h, a[0]), a[1..], b);
      assert (a + b)[1..] == a[1..] + b;
    }
  }

  lemma {:induction false} KeptSince(calls: seq<Call>, i: nat, j: nat)
    requires i < j <= |calls|
    requires Early(calls[i]).None? && RunUnbounded([], calls)[i] != Replay
    ensures Entry(calls[i].nonce, Expiry(calls[i])) in History([], calls[..j])
  {
    AnswerAt([], calls, i);
    var h := History([], calls[..i + 1]);
    var x := h[|h| - 1];
    assert x == Entry(calls[i].nonce, Expiry(calls[i]));
    assert calls[..j] == calls[..i + 1] + calls[i + 1..j];
    HistoryAppend([], calls[..i + 1], calls[i + 1..j]);
    HistoryGrows(h, calls[i + 1..j]);
    assert History(h, calls[i + 1..j])[|h| - 1] == x;
  }

  /** Two acceptances of one nonce: the later one is not before the earlier one's expiry. */
  lemma {:induction false} AcceptedTwice(calls: seq<Call>, i: nat, j: nat)
    requires Clocked(calls) && i < j < |calls| && calls[i].nonce == calls[j].nonce
    requires Run(map[], calls)[i].Accepted? && Run(map[], calls)[j].Accepted?
    ensures calls[j].now >= Expiry(calls[i])
  {
    ForgettingIsSafe(calls);
    AnswerAt([], calls, i);
    AnswerAt([], calls, j);
    KeptSince(calls, i, j);
  }

  /** Two acceptances of the same signed nonce and time: the later one is at exactly the last
      millisecond of the window. */
  lemma {:induction false} ReplayOnlyAtTheEdge(calls: seq<Call>, i: nat, j: nat)
    requires Clocked(calls) && i < j < |calls|
    requires calls[i].nonce == calls[j].nonce && calls[i].tsn == calls[j].tsn && calls[i].maxAge == calls[j].maxAge
    requires Run(map[], calls)[i].Accepted? && Run(map[], calls)[j].Accepted?
    ensures calls[j].now == Expiry(calls[i])
  {
    AcceptedTwice(calls, i, j);
    ForgettingIsSafe(calls);
    AnswerAt([], calls, j);
  }

  lemma {:induction false} QuietHistory(h: seq<Entry>, calls: seq<Call>, n: Text, now: int)
    requires forall k :: 0 <= k < |calls| ==> calls[k].nonce != n
    ensures Remembered(History(h, calls), n, now) <==> Remembered(h, n, now)
    decreases |calls|
  {
    if calls != [] {
      var h' := NextUnbounded(h, calls[0]);
      assert Remembered(h', n, now) <==> Remembered(h, n, now) by {
        if Remembered(h, n, now) {
          var i :| 0 <= i < |h| && h[i].nonce == n && h[i].expiry > now;
          assert h'[i] == h[i];
        }
      }
      QuietHistory(h', calls[1..], n, now);
    }
  }

  /** And at that millisecond the same request does pass again: repeated with no use of its nonce in
      between, an accepted request is accepted again exactly there. */
  lemma {:induction false} ReplayIff(calls: seq<Call>, i: nat, j: nat)
    requires Clocked(calls) && i < j < |calls| && calls[j] == calls[i].(now := calls[j].now)
    requires forall k :: i < k < j ==> calls[k].nonce != calls[i].nonce
    requires Run(map[], calls)[i].Accepted?
    ensures Run(map[], calls)[j].Accepted? <==> calls[j].now == Expiry(calls[i])
  {
    if Run(map[], calls)[j].Accepted? {
      ReplayOnlyAtTheEdge(calls, i, j);
    } else if calls[j].now == Expiry(calls[i]) {
      ForgottenAtTheEdge(calls, i, j);
      ForgettingIsSafe(calls);
      AnswerAt([], calls, i);
      AnswerAt([], calls, j);
      assert false;
    }
  }

  lemma {:induction false} ForgottenAtTheEdge(calls: seq<Call>, i: nat, j: nat)
    requires Clocked(calls) && i < j < |calls|
    requires forall k :: i < k < j ==> calls[k].nonce != calls[i].nonce
    requires Run(map[], calls)[i].Accepted? && calls[j].now == Expiry(calls[i])
    ensures !Remembered(History([], calls[..j]), calls[i].nonce, calls[j].now)
  {
    hide Run, RunUnbounded, History, Abs;
    var n, now := calls[i].nonce, calls[j].now;
    ForgettingIsSafe(calls);
    AnswerAt([], calls, i);
    var h, h' := History([], calls[..i]), History([], calls[..i + 1]);
    assert !Remembered(h', n, now);
    assert calls[..j] == calls[..i + 1] + calls[i + 1..j];
    HistoryAppend([], calls[..i + 1], calls[i + 1..j]);
    QuietHistory(h', calls[i + 1..j], n, now);
  }

  // ---------------------------------------------------------------------------------------------
  // What a caller sees, told from the calls alone
  // ---------------------------------------------------------------------------------------------

  /** All four headers, and a time within the age limit of the clock, either way. */
  predicate Timely(c: Call) {
    && c.signer != [] && c.ts != [] && c.nonce != [] && c.sig != []
    && c.tsn.Some? && 0 - c.maxAge <= c.now - c.tsn.value <= c.maxAge
  }

  /** Call i gave its nonce to the store, where it stands beyond `now`. */
  ghost predicate Stands(calls: seq<Call>, i: nat, now: int)
    requires i < |calls|
  {
    Timely(calls[i]) && Run(map[], calls)[i] != Replay && calls[i].tsn.value + calls[i].maxAge > now
  }

  ghost predicate Taken(calls: seq<Call>, k: nat)
    requires k < |calls|
  {
    exists i :: 0 <= i < k && calls[i].nonce == calls[k].nonce && Stands(calls, i, calls[k].now)
  }

  lemma TimelyIsNotEarly(c: Call)
    ensures Timely(c) <==> Early(c).None?
    ensures Timely(c) ==> Expiry(c) == c.tsn.value + c.maxAge
  {
  }

  /** Whatever is in the reference store was put there by a call that was not a replay. */
  lemma {:induction false} EntriesAreCalls(calls: seq<Call>, k: nat, x: Entry)
    requires k <= |calls| && x in History([], calls[..k])
    ensures exists i :: 0 <= i < k && EnteredBy(calls, i, x)
  {
    if k > 0 {
      hide Early, Expiry;
      AnswerAt([], calls, k - 1);
      var h := History([], calls[..k - 1]);
      if x in h {
        EntriesAreCalls(calls, k - 1, x);
      } else {
        assert x == Entry(calls[k - 1].nonce, Expiry(calls[k - 1]));
        AfterIsNoReplay(calls[k - 1]);
        assert EnteredBy(calls, k - 1, x);
      }
    }
  }

  ghost predicate EnteredBy(calls: seq<Call>, i: int, x: Entry) {
    && 0 <= i < |calls| && Early(calls[i]).None? && RunUnbounded([], calls)[i] != Replay
    && x == Entry(calls[i].nonce, Expiry(calls[i]))
  }

  lemma AfterIsNoReplay(c: Call)
    ensures After(c) != Replay
  {
  }

  lemma {:induction false} RememberedIffTaken(calls: seq<Call>, k: nat)
    requires Clocked(calls) && k < |calls|
    ensures Remembered(History([], calls[..k]), calls[k].nonce, calls[k].now) <==> Taken(calls, k)
  {
    hide Run, RunUnbounded, Early, Timely, Expiry;
    ForgettingIsSafe(calls);
    var h := History([], calls[..k]);
    if Remembered(h, calls[k].nonce, calls[k].now) {
      var j :| 0 <= j < |h| && h[j].nonce == calls[k].nonce && h[j].expiry > calls[k].now;
      EntriesAreCalls(calls, k, h[j]);
      var i :| 0 <= i < k && EnteredBy(calls, i, h[j]);
      TimelyIsNotEarly(calls[i]);
      assert Stands(calls, i, calls[k].now);
    }
    if Taken(calls, k) {
      var i :| 0 <= i < k && calls[i].nonce == calls[k].nonce && Stands(calls, i, calls[k].now);
      TimelyIsNotEarly(calls[i]);
      KeptSince(calls, i, k);
    }
  }

  /** Every answer, over every run from an empty store. A request is accepted, as its own signer, exactly
      if it is complete and timely, its signature holds, and no earlier call's nonce stands in its way; a
      signature that fails or cannot be read is never accepted. */
  lemma {:induction false} AnswerIs(calls: seq<Call>, k: nat)
    requires Clocked(calls) && k < |calls|
    ensures var c := calls[k]; var r := Run(map[], calls)[k]; var free := Timely(c) && !Taken(calls, k);
      && (r.Accepted? <==> free && c.check == Passes)
      && (r.Accepted? ==> r.signer == c.signer)
      && (r == BadSignature <==> free && c.check == Fails)
      && (r == Malformed <==> free && c.check == Throws)
      && (r == Replay <==> Timely(c) && Taken(calls, k))
      && (r == Unsigned <==> c.signer == [] && c.ts == [] && c.nonce == [] && c.sig == [])
      && (r == Incomplete <==> r != Unsigned && (c.signer == [] || c.ts == [] || c.nonce == [] || c.sig == []))
  {
    hide Run, RunUnbounded, History, Taken;
    ForgettingIsSafe(calls);
    AnswerAt([], calls, k);
    RememberedIffTaken(calls, k);
    TimelyIsNotEarly(calls[k]);
  }
}
