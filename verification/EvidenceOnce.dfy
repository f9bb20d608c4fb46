/** lib/verified-intent.js with the nonce store of signer/server.js, over runs: authenticated evidence is
    spent by the trade it justifies. */
module EvidenceOnce {
  import opened Bytes
  import opened Text
  import opened VerifiedIntent

  // ---------------------------------------------------------------------------------------------
  // Evidence is used once
  // ---------------------------------------------------------------------------------------------

  datatype Call = Call(ev: Evidence, o: Options, now: int)

  /** The store after some calls of `verifyEvidence`, from any requests. */
  function Store(m: map<Value, int>, calls: seq<Call>): map<Value, int>
    decreases |calls|
  {
    if calls == [] then m else Store(After(m, calls[0].ev, calls[0].o, calls[0].now), calls[1..])
  }

  /** Call k of the run passes. */
  predicate Passes(m: map<Value, int>, calls: seq<Call>, k: nat)
    requires k < |calls|
  {
    Judge(Store(m, calls[..k]), calls[k].ev, calls[k].o, calls[k].now) == Verified
  }

  predicate Clocked(calls: seq<Call>) {
    forall i, j :: 0 <= i < j < |calls| ==> calls[i].now <= calls[j].now
  }

  lemma {:induction false} StoreAppend(m: map<Value, int>, a: seq<Call>, b: seq<Call>)
    ensures Store(m, a + b) == Store(Store(m, a), b)
    decreases |a|
  {
    if a == [] {
      assert a + b == b;
    } else {
      StoreAppend(After(m, a[0].ev, a[0].o, a[0].now), a[1..], b);
      assert (a + b)[1..] == a[1..] + b;
    }
  }

  /** The item is what it claims to be: a quote under a key accepted for data, or a receipt under one
      accepted for inference, whose signature holds; or a session of an accepted notary that passes the
      zkTLS check where there is one, and where there is none no proof is demanded. */
  predicate Authentic(ev: Evidence, o: Options) {
    match ev
    case Quote(key, _, _, _, _) => key in o.acceptedKeys && o.acceptedKeys[key] == Ascii("data") && o.genuine(ev)
    case Receipt(key, _, _, _, _) => key in o.acceptedKeys && o.acceptedKeys[key] == Ascii("inference") && o.genuine(ev)
    case ZkTls(notary, _, _, _, _) =>
      notary in o.acceptedNotaries && (if o.proven.Some? then o.proven.value(ev) else !o.requireProof)
    case Unknown => false
  }

  /** The age limit of the settings; a minute where none is set. */
  function AgeLimit(o: Options): int {
    if o.maxAgeMs == 0 then 60000 else o.maxAgeMs
  }

  /** No older than the limit, as far as the stamp is a number at all. */
  predicate FreshAt(ev: Evidence, o: Options, now: int)
    requires !ev.Unknown?
  {
    ToNumber(o.coercion, ev.stamp).Num? ==> now <= ToNumber(o.coercion, ev.stamp).n + AgeLimit(o)
  }

  /** An item passes exactly if it is authentic, fresh and of a nonce the store does not hold. */
  lemma PassesIff(m: map<Value, int>, ev: Evidence, o: Options, now: int)
    ensures Judge(m, ev, o, now) == Verified <==> Authentic(ev, o) && FreshAt(ev, o, now) && ev.nonce !in m
  {
  }

  /** Otherwise the code says what is wrong. */
  lemma CodeIsTrue(m: map<Value, int>, ev: Evidence, o: Options, now: int)
    ensures match Judge(m, ev, o, now)
      case Verified => Authentic(ev, o)
      case EvidenceUnknown => ev.Unknown?
      case Replay => Authentic(ev, o) && FreshAt(ev, o, now) && ev.nonce in m
      case Stale => Authentic(ev, o) && !FreshAt(ev, o, now)
      case UntrustedKey => (ev.Quote? && (ev.key !in o.acceptedKeys || o.acceptedKeys[ev.key] != Ascii("data")))
        || (ev.Receipt? && (ev.key !in o.acceptedKeys || o.acceptedKeys[ev.key] != Ascii("inference")))
      case Invalid => ((ev.Quote? || ev.Receipt?) && !o.genuine(ev))
        || (ev.ZkTls? && o.proven.Some? && !o.proven.value(ev))
      case UntrustedNotary => ev.ZkTls? && ev.notary !in o.acceptedNotaries
      case ZkTlsUnverified => ev.ZkTls? && o.proven.None? && o.requireProof
      case _ => false
  {
  }

  /** What a passing item leaves in the store: its nonce, with the time, and nothing of the last five
      minutes is lost. */
  lemma PassLeaves(m: map<Value, int>, ev: Evidence, o: Options, now: int)
    requires Judge(m, ev, o, now) == Verified
    ensures Authentic(ev, o)
    ensures var m' := After(m, ev, o, now);
      && ev.nonce in m' && m'[ev.nonce] == now
      && (forall n :: n in m && now <= m[n] + 300000 ==> n in m')
      && (forall n :: n in m' && n != ev.nonce ==> n in m && m'[n] == m[n])
  {
  }

  /** A nonce stays in the store until more than five minutes after it was last put there. */
  lemma {:induction false} StaysIn(m: map<Value, int>, calls: seq<Call>, n: Value, t: int)
    requires n in m && m[n] >= t && forall k :: 0 <= k < |calls| ==> t <= calls[k].now <= t + KEEP_MS
    ensures n in Store(m, calls)
    decreases |calls|
  {
    if calls != [] {
      StaysIn(After(m, calls[0].ev, calls[0].o, calls[0].now), calls[1..], n, t);
    }
  }

  lemma PassedIsStored(m: map<Value, int>, calls: seq<Call>, i: nat)
    requires i < |calls| && Passes(m, calls, i) && !calls[i].ev.Unknown?
    ensures calls[i].ev.nonce in Store(m, calls[..i + 1])
    ensures Store(m, calls[..i + 1])[calls[i].ev.nonce] == calls[i].now
  {
    assert calls[..i + 1] == calls[..i] + [calls[i]];
    StoreAppend(m, calls[..i], [calls[i]]);
    var s := Store(m, calls[..i]);
    assert Store(s, [calls[i]]) == After(s, calls[i].ev, calls[i].o, calls[i].now);
  }

  /** Two passes of one nonce lie more than five minutes apart. */
  lemma {:induction false} FiveMinutesApart(m: map<Value, int>, calls: seq<Call>, i: nat, j: nat)
    requires Clocked(calls) && i < j < |calls| && !calls[i].ev.Unknown? && !calls[j].ev.Unknown?
    requires calls[i].ev.nonce == calls[j].ev.nonce && Passes(m, calls, i) && Passes(m, calls, j)
    ensures calls[j].now > calls[i].now + KEEP_MS
  {
    if calls[j].now <= calls[i].now + KEEP_MS {
      PassedIsStored(m, calls, i);
      assert calls[..j] == calls[..i + 1] + calls[i + 1..j];
      StoreAppend(m, calls[..i + 1], calls[i + 1..j]);
      StaysIn(Store(m, calls[..i + 1]), calls[i + 1..j], calls[i].ev.nonce, calls[i].now);
      assert false;
    }
  }

  /** No item passes twice, in one request or in several, if more than five minutes after its first
      pass it is too old. */
  lemma {:induction false} NeverTwice(m: map<Value, int>, calls: seq<Call>, i: nat, j: nat)
    requires Clocked(calls) && i < j < |calls| && !calls[i].ev.Unknown? && calls[j].ev == calls[i].ev
    requires TooOld(calls[j].o, calls[i].ev.stamp, calls[i].now + KEEP_MS + 1)
    requires Passes(m, calls, i)
    ensures !Passes(m, calls, j)
  {
    if Passes(m, calls, j) {
      FiveMinutesApart(m, calls, i, j);
      OnlyOlder(calls[j].o, calls[i].ev.stamp, calls[i].now + KEEP_MS + 1, calls[j].now);
      FaultIsNoPass(calls[j].ev, calls[j].o, calls[j].now);
    }
  }

  lemma OnlyOlder(o: Options, stamp: Value, now: int, later: int)
    requires now <= later && TooOld(o, stamp, now)
    ensures TooOld(o, stamp, later)
  {
  }

  /** An item that is too old does not pass; a fault is never the code for success. */
  lemma FaultIsNoPass(ev: Evidence, o: Options, now: int)
    ensures Fault(ev, o, now) != Some(Verified)
    ensures !ev.Unknown? && TooOld(o, ev.stamp, now) ==> Fault(ev, o, now).Some?
  {
  }

  /** Once an item has passed, its age is all that can be wrong with it later. */
  lemma OnlyAge(ev: Evidence, o: Options, t1: int, t2: int)
    requires !ev.Unknown? && Fault(ev, o, t1).None?
    ensures Fault(ev, o, t2).None? <==> !TooOld(o, ev.stamp, t2)
  {
  }

  /** A run from the empty store in which an item passes at t1 and again, under the same settings. */
  ghost predicate PassesTwice(ev: Evidence, o: Options, t1: int, calls: seq<Call>, i: int, j: int) {
    && Clocked(calls) && 0 <= i < j < |calls|
    && calls[i] == Call(ev, o, t1) && calls[j].ev == ev && calls[j].o == o
    && Passes(map[], calls, i) && Passes(map[], calls, j)
  }

  /** When evidence can be used again, exactly: an item that passes at t1, in some run, can pass once
      more in some run if and only if it is not too old one millisecond after the store may forget it.
      Whoever knows the stamp can tell beforehand. The 5000 other items that fill the store are given. */
  lemma {:induction false} PassesTwiceIff(ev: Evidence, o: Options, t1: int, others: seq<Evidence>)
    requires !ev.Unknown? && Fault(ev, o, t1).None?
    requires Fillers(others, ev, o, t1 + KEEP_MS + 1)
    ensures (exists calls: seq<Call>, i: int, j: int :: PassesTwice(ev, o, t1, calls, i, j))
       <==> !TooOld(o, ev.stamp, t1 + KEEP_MS + 1)
  {
    hide Fault, TooOld, Passes, Store, Clocked;
    var t2 := t1 + KEEP_MS + 1;
    if calls: seq<Call>, i: int, j: int :| PassesTwice(ev, o, t1, calls, i, j) {
      if TooOld(o, ev.stamp, t2) {
        NeverTwice(map[], calls, i, j);
        assert false;
      }
    }
    if !TooOld(o, ev.stamp, t2) {
      OnlyAge(ev, o, t1, t2);
      SweptPassesAgain(ev, o, t1, t2, others);
      var calls := [Call(ev, o, t1)] + CallsAt(others, o, t2) + [Call(ev, o, t2)];
      assert PassesTwice(ev, o, t1, calls, 0, |calls| - 1);
    }
  }

  /** So many other acceptable items, no two with one nonce, that the store is swept. */
  ghost predicate Fillers(others: seq<Evidence>, ev: Evidence, o: Options, t: int)
    requires !ev.Unknown?
  {
    && |others| == LIMIT
    && (forall k :: 0 <= k < |others| ==>
          !others[k].Unknown? && Fault(others[k], o, t).None? && others[k].nonce != ev.nonce)
    && (forall k, l :: 0 <= k < l < |others| ==>
          !others[k].Unknown? && !others[l].Unknown? && others[k].nonce != others[l].nonce)
  }

  /** An item that is not too old more than five minutes after its first pass does pass again once 5000
      other items have pushed the store into a sweep. */
  lemma {:induction false} SweptPassesAgain(ev: Evidence, o: Options, t1: int, t2: int, others: seq<Evidence>)
    requires t2 > t1 + KEEP_MS && Fault(ev, o, t1).None? && Fault(ev, o, t2).None?
    requires !ev.Unknown? && Fillers(others, ev, o, t2)
    ensures var calls := [Call(ev, o, t1)] + CallsAt(others, o, t2) + [Call(ev, o, t2)];
            Clocked(calls) && Passes(map[], calls, 0) && Passes(map[], calls, |calls| - 1)
  {
    hide Fault;
    var first, middle, last := Call(ev, o, t1), CallsAt(others, o, t2), Call(ev, o, t2);
    var calls := [first] + middle + [last];
    assert calls[..0] == [] && calls[..|calls| - 1] == [first] + middle;
    var m := map[ev.nonce := t1];
    assert After(map[], ev, o, t1) == m;
    assert ([first] + middle)[1..] == middle;
    Sweeping(m, ev.nonce, o, t1, t2, others, 0);
    assert middle[0..] == middle;
  }

  function CallsAt(evs: seq<Evidence>, o: Options, now: int): (calls: seq<Call>)
    ensures |calls| == |evs|
  {
    seq(|evs|, i requires 0 <= i < |evs| => Call(evs[i], o, now))
  }

  lemma {:induction false} Sweeping(m: map<Value, int>, n: Value, o: Options, t1: int, t2: int, others: seq<Evidence>,
                                    k: nat)
    requires t2 > t1 + KEEP_MS && |others| == LIMIT && k < LIMIT
    requires n in m && m[n] == t1 && |m| == k + 1 && forall i :: 0 <= i < |others| ==> !others[i].Unknown?
    requires forall i :: 0 <= i < |others| ==> Fault(others[i], o, t2).None? && others[i].nonce != n
    requires forall i, j :: 0 <= i < j < |others| ==> others[i].nonce != others[j].nonce
    requires forall i :: k <= i < |others| ==> others[i].nonce !in m
    ensures n !in Store(m, CallsAt(others, o, t2)[k..])
    decreases LIMIT - k
  {
    hide Fault;
    var calls := CallsAt(others, o, t2)[k..];
    var m1 := m[others[k].nonce := t2];
    assert |m1| == k + 2 by { assert m1.Keys == m.Keys + {others[k].nonce}; }
    assert calls[0] == Call(others[k], o, t2) && calls[1..] == CallsAt(others, o, t2)[k + 1..];
    assert Judge(m, others[k], o, t2) == Verified;
    if k + 1 < LIMIT {
      assert After(m, others[k], o, t2) == m1;
      Sweeping(m1, n, o, t1, t2, others, k + 1);
    } else {
      assert After(m, others[k], o, t2) == Recent(m1, t2);
      assert calls[1..] == [];
    }
  }

  /** In particular an age limit of at most five minutes is enough for stamps that are numbers and not
      in the future. */
  lemma ShortLimitSuffices(o: Options, stamp: Value, t1: int)
    requires MaxAge(o) <= KEEP_MS && ToNumber(o.coercion, stamp).Num? && ToNumber(o.coercion, stamp).n <= t1
    ensures TooOld(o, stamp, t1 + KEEP_MS + 1)
  {
  }

  // ---------------------------------------------------------------------------------------------
  // The same over whole requests
  // ---------------------------------------------------------------------------------------------

  datatype Request = Request(vi: Submission, o: Options, clock: seq<int>)

  predicate Timed(r: Request) {
    |r.clock| == |r.vi.evidence|
  }

  /** How many items the gate looks at: all, or up to the first that fails. */
  function Looked(m: map<Value, int>, evs: seq<Evidence>, o: Options, clock: seq<int>): (n: nat)
    requires |clock| == |evs|
    ensures n <= |evs|
    decreases |evs|
  {
    if evs == [] then 0
    else if Judge(m, evs[0], o, clock[0]) != Verified then 1
    else 1 + Looked(After(m, evs[0], o, clock[0]), evs[1..], o, clock[1..])
  }

  function CallsOf(evs: seq<Evidence>, o: Options, clock: seq<int>): (calls: seq<Call>)
    requires |clock| == |evs|
    ensures |calls| == |evs|
  {
    seq(|evs|, i requires 0 <= i < |evs| => Call(evs[i], o, clock[i]))
  }

  /** The calls of `verifyEvidence` one request makes. */
  function Made(m: map<Value, int>, r: Request): seq<Call>
    requires Timed(r)
  {
    if !Same(r.vi.rule, r.o.rule.id) then []
    else CallsOf(r.vi.evidence, r.o, r.clock)[..Looked(m, r.vi.evidence, r.o, r.clock)]
  }

  predicate AllTimed(rs: seq<Request>) {
    forall i :: 0 <= i < |rs| ==> Timed(rs[i])
  }

  /** The calls a series of requests makes. */
  function MadeAll(m: map<Value, int>, rs: seq<Request>): seq<Call>
    requires AllTimed(rs)
    decreases |rs|
  {
    if rs == [] then [] else Made(m, rs[0]) + MadeAll(AfterGate(m, rs[0].vi, rs[0].o, rs[0].clock), rs[1..])
  }

  /** The store before request k. */
  function StoreBefore(m: map<Value, int>, rs: seq<Request>, k: nat): map<Value, int>
    requires AllTimed(rs) && k <= |rs|
    decreases |rs|
  {
    if k == 0 then m else StoreBefore(AfterGate(m, rs[0].vi, rs[0].o, rs[0].clock), rs[1..], k - 1)
  }

  /** Request k gets its trade through. */
  predicate Justified(m: map<Value, int>, rs: seq<Request>, k: nat)
    requires AllTimed(rs) && k < |rs|
  {
    Gate(StoreBefore(m, rs, k), rs[k].vi, rs[k].o, rs[k].clock) == Verified
  }

  function Offset(m: map<Value, int>, rs: seq<Request>, k: nat): nat
    requires AllTimed(rs) && k <= |rs|
    decreases |rs|
  {
    if k == 0 then 0
    else |Made(m, rs[0])| + Offset(AfterGate(m, rs[0].vi, rs[0].o, rs[0].clock), rs[1..], k - 1)
  }

  lemma {:induction false} JudgeAllIsRun(m: map<Value, int>, evs: seq<Evidence>, o: Options, clock: seq<int>)
    requires |clock| == |evs|
    ensures JudgeAll(m, evs, o, clock).1 == Store(m, CallsOf(evs, o, clock)[..Looked(m, evs, o, clock)])
    decreases |evs|
  {
    hide Judge, After;
    var calls, n := CallsOf(evs, o, clock), Looked(m, evs, o, clock);
    if evs != [] {
      var m' := After(m, evs[0], o, clock[0]);
      assert calls[..n][0] == Call(evs[0], o, clock[0]);
      assert Store(m, calls[..n]) == Store(m', calls[..n][1..]);
      if Judge(m, evs[0], o, clock[0]) == Verified {
        JudgeAllIsRun(m', evs[1..], o, clock[1..]);
        assert calls[..n][1..] == CallsOf(evs[1..], o, clock[1..])[..n - 1];
      }
    }
  }

  lemma {:induction false} AllPass(m: map<Value, int>, evs: seq<Evidence>, o: Options, clock: seq<int>, i: nat)
    requires i < |evs| == |clock| && JudgeAll(m, evs, o, clock).0 == Verified
    ensures Looked(m, evs, o, clock) == |evs| && Passes(m, CallsOf(evs, o, clock), i)
    decreases |evs|
  {
    hide Judge, After;
    var calls := CallsOf(evs, o, clock);
    if |evs| == 1 || i == 0 {
      assert calls[..0] == [];
      if |evs| > 1 { AllPass(After(m, evs[0], o, clock[0]), evs[1..], o, clock[1..], 0); }
    } else {
      AllPass(After(m, evs[0], o, clock[0]), evs[1..], o, clock[1..], i - 1);
      assert calls[..i][1..] == CallsOf(evs[1..], o, clock[1..])[..i - 1];
    }
  }

  /** Item i of request k is a call of the run, and it passes. */
  ghost predicate InRun(m: map<Value, int>, rs: seq<Request>, k: nat, i: nat)
    requires AllTimed(rs) && k < |rs| && i < |rs[k].vi.evidence|
  {
    && Offset(m, rs, k) + i < |MadeAll(m, rs)|
    && MadeAll(m, rs)[Offset(m, rs, k) + i] == Call(rs[k].vi.evidence[i], rs[k].o, rs[k].clock[i])
    && Passes(m, MadeAll(m, rs), Offset(m, rs, k) + i)
    && Offset(m, rs, k) + |rs[k].vi.evidence| == Offset(m, rs, k + 1)
  }

  lemma {:induction false} FirstInRun(m: map<Value, int>, rs: seq<Request>, i: nat)
    requires AllTimed(rs) && rs != [] && i < |rs[0].vi.evidence| && Justified(m, rs, 0)
    ensures InRun(m, rs, 0, i)
  {
    hide Judge, After, Looked, Decide, JudgeAll, Store, AfterGate;
    var r, all, made := rs[0], MadeAll(m, rs), Made(m, rs[0]);
    AllPass(m, r.vi.evidence, r.o, r.clock, i);
    assert made == CallsOf(r.vi.evidence, r.o, r.clock);
    assert all[..i] == made[..i];
    assert Offset(m, rs, 1) == |made|;
  }

  lemma {:induction false} MadeReachesStore(m: map<Value, int>, r: Request)
    requires Timed(r)
    ensures Store(m, Made(m, r)) == AfterGate(m, r.vi, r.o, r.clock)
  {
    hide Judge, After, Looked, JudgeAll;
    JudgeAllIsRun(m, r.vi.evidence, r.o, r.clock);
  }

  lemma {:induction false} ItemInRun(m: map<Value, int>, rs: seq<Request>, k: nat, i: nat)
    requires AllTimed(rs) && k < |rs| && i < |rs[k].vi.evidence| && Justified(m, rs, k)
    ensures InRun(m, rs, k, i)
    decreases |rs|
  {
    hide Judge, Made, Gate, AfterGate, Store;
    if k == 0 {
      FirstInRun(m, rs, i);
    } else {
      var r := rs[0];
      var m', made := AfterGate(m, r.vi, r.o, r.clock), Made(m, r);
      ItemInRun(m', rs[1..], k - 1, i);
      MadeReachesStore(m, r);
      var rest, x := MadeAll(m', rs[1..]), Offset(m', rs[1..], k - 1) + i;
      assert MadeAll(m, rs)[..|made| + x] == made + rest[..x];
      StoreAppend(m, made, rest[..x]);
    }
  }

  lemma {:induction false} OffsetGrows(m: map<Value, int>, rs: seq<Request>, a: nat, b: nat)
    requires AllTimed(rs) && a <= b <= |rs|
    ensures Offset(m, rs, a) <= Offset(m, rs, b)
    decreases |rs|
  {
    hide Made, AfterGate;
    if a > 0 { OffsetGrows(AfterGate(m, rs[0].vi, rs[0].o, rs[0].clock), rs[1..], a - 1, b - 1); }
  }

  /** An item of evidence that is too old five minutes after it was used gets no second trade through,
      nor does it count twice in one request. */
  lemma {:induction false} EvidenceUsedOnce(m: map<Value, int>, rs: seq<Request>, a: nat, i: nat, b: nat, j: nat)
    requires AllTimed(rs) && Clocked(MadeAll(m, rs))
    requires a <= b < |rs| && i < |rs[a].vi.evidence| && j < |rs[b].vi.evidence| && (a == b ==> i < j)
    requires Justified(m, rs, a) && Justified(m, rs, b)
    requires !rs[a].vi.evidence[i].Unknown?
    requires TooOld(rs[b].o, rs[a].vi.evidence[i].stamp, rs[a].clock[i] + KEEP_MS + 1)
    ensures rs[a].vi.evidence[i] != rs[b].vi.evidence[j]
  {
    hide Justified, Offset, MadeAll;
    ItemInRun(m, rs, a, i);
    ItemInRun(m, rs, b, j);
    if a < b { OffsetGrows(m, rs, a + 1, b); }
    if rs[a].vi.evidence[i] == rs[b].vi.evidence[j] {
      NeverTwice(m, MadeAll(m, rs), Offset(m, rs, a) + i, Offset(m, rs, b) + j);
    }
  }
}
