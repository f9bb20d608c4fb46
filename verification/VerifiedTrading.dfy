/** signer/server.js with lib/verified-intent.js: one agent that requires verified intents, over runs in
    which its intents, their landings and other agents' evidence come in any order. */
module VerifiedTrading {
  import opened Bytes
  import opened EvidenceOnce
  import Fence
  import Proto
  import Signer
  import Spending
  import V = VerifiedIntent

  /** The committed rule and keys of the agent, and how the policy checks read a body's intent. */
  datatype Settings = Settings(o: V.Options, read: V.Intent -> Signer.Intent)

  /** `Elsewhere` is the gate at work for another agent; the nonce store is shared. */
  datatype Event =
    | Ask(epoch: int, tokenHash: Fence.Hash, vi: V.Submission, clock: seq<int>, now: int, day: int)
    | Land(i: nat, inAmount: Option<int>, outAmount: Option<int>)
    | Fail(i: nat)
    | Elsewhere(r: Request)

  /** A trade that was charged, and by which of the requests the gate has seen. */
  datatype Trade = Trade(cause: nat, kind: Proto.Kind, token: string)

  /** `seen`, `flying` and `charged` record history: the requests that came to the gate, which of them
      each intent in flight goes back to, and the trades charged so far. */
  datatype State = State(run: Spending.Run, nonces: map<V.Value, int>, seen: seq<Request>, flying: seq<nat>,
                         charged: seq<Trade>)

  predicate Timely(e: Event) {
    match e
    case Ask(_, _, vi, clock, _, _) => |clock| == |vi.evidence|
    case Elsewhere(r) => Timed(r)
    case _ => true
  }

  function Start(a: Signer.Account): State {
    State(Spending.Run(a, [], 0), map[], [], [], [])
  }

  /** The gate stands behind the fence and needs a rule. */
  predicate ReachesGate(a: Signer.Account, e: Event)
    requires e.Ask?
  {
    && a.session.Some? && e.epoch == a.session.value.epoch && e.tokenHash == a.session.value.tokenHash
    && a.policy.requireVerified && a.hasRule
  }

  /** The request as the rest of the route sees it. */
  function Judged(s: State, e: Event, c: Settings): Signer.Request
    requires e.Ask? && Timely(e)
  {
    var ok := ReachesGate(s.run.account, e) && V.Gate(s.nonces, e.vi, c.o, e.clock) == V.Verified;
    Signer.Request(e.epoch, e.tokenHash, ok, c.read(e.vi.intent))
  }

  function AfterAsk(s: State, e: Event, c: Settings): State
    requires e.Ask? && Timely(e)
  {
    var r := Judged(s, e, c);
    var (_, out) := Signer.Begin(s.run.account, r, e.now, e.day);
    var gated := ReachesGate(s.run.account, e);
    State(Spending.Next(s.run, Spending.Ask(r, e.now, e.day)),
          if gated then V.AfterGate(s.nonces, e.vi, c.o, e.clock) else s.nonces,
          if gated then s.seen + [Request(e.vi, c.o, e.clock)] else s.seen,
          if out.Live? then s.flying + [|s.seen|] else s.flying,
          if out.SignedPaper? then s.charged + [Trade(|s.seen|, r.intent.kind.value, r.intent.token)] else s.charged)
  }

  function AfterLand(s: State, e: Event): State
    requires e.Land?
  {
    var step := Spending.Land(e.i, e.inAmount, e.outAmount);
    if e.i < |s.run.inFlight| && e.i < |s.flying| then
      var t := s.run.inFlight[e.i];
      var paid := Signer.Charge(t, e.inAmount, e.outAmount).Some?;
      s.(run := Spending.Next(s.run, step), flying := Spending.Remove(s.flying, e.i),
         charged := if paid then s.charged + [Trade(s.flying[e.i], t.kind, t.token)] else s.charged)
    else s
  }

  function Apply(s: State, e: Event, c: Settings): State
    requires Timely(e)
  {
    match e
    case Ask(_, _, _, _, _, _) => AfterAsk(s, e, c)
    case Land(_, _, _) => AfterLand(s, e)
    case Fail(i) =>
      if i < |s.run.inFlight| && i < |s.flying| then
        s.(run := Spending.Next(s.run, Spending.Fail(i)), flying := Spending.Remove(s.flying, i))
      else s
    case Elsewhere(r) => s.(nonces := V.AfterGate(s.nonces, r.vi, r.o, r.clock), seen := s.seen + [r])
  }

  predicate AllTimely(es: seq<Event>) {
    forall i :: 0 <= i < |es| ==> Timely(es[i])
  }

  /** The state after a run. */
  function After(a: Signer.Account, es: seq<Event>, c: Settings): State
    requires AllTimely(es)
  {
    if es == [] then Start(a) else Apply(After(a, es[..|es| - 1], c), es[|es| - 1], c)
  }

  // ---------------------------------------------------------------------------------------------
  // Every trade goes back to a justified request of its own
  // ---------------------------------------------------------------------------------------------

  /** The gate let this request's trade through, and it is this one. */
  ghost predicate Earned(seen: seq<Request>, c: Settings, t: Trade)
    requires AllTimed(seen)
  {
    && t.cause < |seen| && Justified(map[], seen, t.cause) && seen[t.cause].o == c.o
    && c.read(seen[t.cause].vi.intent).kind == Some(t.kind) && c.read(seen[t.cause].vi.intent).token == t.token
  }

  function Flight(s: State, j: nat): Trade
    requires j < |s.flying| && j < |s.run.inFlight|
  {
    Trade(s.flying[j], s.run.inFlight[j].kind, s.run.inFlight[j].token)
  }

  /** No request is behind two trades. */
  ghost predicate OwnRequests(s: State) {
    && (forall i, j :: 0 <= i < j < |s.flying| ==> s.flying[i] != s.flying[j])
    && (forall i, j :: 0 <= i < j < |s.charged| ==> s.charged[i].cause != s.charged[j].cause)
    && (forall i, j :: 0 <= i < |s.flying| && 0 <= j < |s.charged| ==> s.flying[i] != s.charged[j].cause)
  }

  ghost predicate Invariant(s: State, c: Settings) {
    && s.run.account.policy.requireVerified && |s.flying| == |s.run.inFlight|
    && AllTimed(s.seen) && StoreBefore(map[], s.seen, |s.seen|) == s.nonces
    && (forall j :: 0 <= j < |s.flying| ==> Earned(s.seen, c, Flight(s, j)))
    && (forall j :: 0 <= j < |s.charged| ==> Earned(s.seen, c, s.charged[j]))
    && OwnRequests(s)
  }

  lemma {:induction false} StoreBeforePush(m: map<V.Value, int>, rs: seq<Request>, r: Request, k: nat)
    requires AllTimed(rs) && Timed(r) && k <= |rs|
    ensures AllTimed(rs + [r]) && StoreBefore(m, rs + [r], k) == StoreBefore(m, rs, k)
    ensures k == |rs| ==>
      StoreBefore(m, rs + [r], k + 1) == V.AfterGate(StoreBefore(m, rs, k), r.vi, r.o, r.clock)
    decreases |rs|
  {
    if rs != [] && k > 0 {
      var m' := V.AfterGate(m, rs[0].vi, rs[0].o, rs[0].clock);
      assert (rs + [r])[1..] == rs[1..] + [r];
      StoreBeforePush(m', rs[1..], r, k - 1);
    } else if rs == [] {
      assert rs + [r] == [r];
    }
  }

  /** What a request earned stays earned when more come. */
  lemma EarnedPush(seen: seq<Request>, r: Request, c: Settings, t: Trade)
    requires AllTimed(seen) && Timed(r) && Earned(seen, c, t)
    ensures AllTimed(seen + [r]) && Earned(seen + [r], c, t)
  {
    hide StoreBefore;
    StoreBeforePush(map[], seen, r, t.cause);
    assert (seen + [r])[t.cause] == seen[t.cause];
  }

  /** A request past the gate is behind no trade so far. */
  lemma FreshRequest(s: State, c: Settings)
    requires Invariant(s, c)
    ensures forall i :: 0 <= i < |s.flying| ==> s.flying[i] < |s.seen|
    ensures forall i :: 0 <= i < |s.charged| ==> s.charged[i].cause < |s.seen|
  {
    hide OwnRequests, StoreBefore, Justified;
    forall i | 0 <= i < |s.flying| ensures s.flying[i] < |s.seen| {
      assert Earned(s.seen, c, Flight(s, i));
    }
  }

  /** The gate sees one more request. */
  lemma SeenOneMore(s: State, r: Request, c: Settings)
    requires Invariant(s, c) && Timed(r)
    ensures var s' := s.(nonces := V.AfterGate(s.nonces, r.vi, r.o, r.clock), seen := s.seen + [r]);
      Invariant(s', c)
  {
    hide StoreBefore, Justified, OwnRequests, Earned;
    var s' := s.(nonces := V.AfterGate(s.nonces, r.vi, r.o, r.clock), seen := s.seen + [r]);
    StoreBeforePush(map[], s.seen, r, |s.seen|);
    forall j | 0 <= j < |s.flying| ensures Earned(s'.seen, c, Flight(s', j)) {
      EarnedPush(s.seen, r, c, Flight(s, j));
    }
    forall j | 0 <= j < |s.charged| ensures Earned(s'.seen, c, s.charged[j]) {
      EarnedPush(s.seen, r, c, s.charged[j]);
    }
    assert OwnRequests(s') by { SameOwn(s, s'); }
  }

  lemma SameOwn(s: State, s': State)
    requires OwnRequests(s) && s'.flying == s.flying && s'.charged == s.charged
    ensures OwnRequests(s')
  {
  }

  /** What the route makes of a request of an agent that requires verified intents. */
  lemma BeginNeedsGate(a: Signer.Account, r: Signer.Request, now: int, day: int)
    requires a.policy.requireVerified
    ensures var (b, out) := Signer.Begin(a, r, now, day);
      && b.policy == a.policy
      && (!out.Refused? ==> r.gateOk && r.intent.kind.Some?)
      && (out.Live? ==> out.ticket.kind == r.intent.kind.value && out.ticket.token == r.intent.token)
  {
  }

  /** The request just seen earned this trade. */
  lemma JustEarned(s: State, e: Event, c: Settings)
    requires Invariant(s, c) && e.Ask? && Timely(e) && Judged(s, e, c).gateOk && Judged(s, e, c).intent.kind.Some?
    ensures var r := Judged(s, e, c); var seen := s.seen + [Request(e.vi, c.o, e.clock)];
      AllTimed(seen) && Earned(seen, c, Trade(|s.seen|, r.intent.kind.value, r.intent.token))
  {
    hide StoreBefore, V.Gate, V.AfterGate, OwnRequests;
    StoreBeforePush(map[], s.seen, Request(e.vi, c.o, e.clock), |s.seen|);
  }

  lemma AskKeeps(s: State, e: Event, c: Settings)
    requires Invariant(s, c) && e.Ask? && Timely(e)
    ensures Invariant(AfterAsk(s, e, c), c)
  {
    hide StoreBefore, Justified, Earned, V.Gate, V.AfterGate, Signer.Begin;
    var r := Judged(s, e, c);
    var (b, out) := Signer.Begin(s.run.account, r, e.now, e.day);
    BeginNeedsGate(s.run.account, r, e.now, e.day);
    FreshRequest(s, c);
    var s' := AfterAsk(s, e, c);
    if ReachesGate(s.run.account, e) {
      SeenOneMore(s, Request(e.vi, c.o, e.clock), c);
      var m := s.(nonces := s'.nonces, seen := s'.seen);
      assert forall j :: 0 <= j < |s.flying| ==> Flight(m, j) == Flight(s, j) == Flight(s', j);
      if !out.Refused? { JustEarned(s, e, c); }
    } else {
      assert out.Refused?;
      assert forall j :: 0 <= j < |s.flying| ==> Flight(s', j) == Flight(s, j);
    }
  }

  lemma LandKeeps(s: State, e: Event, c: Settings)
    requires Invariant(s, c) && e.Land?
    ensures Invariant(AfterLand(s, e), c)
  {
    hide StoreBefore, Justified, Earned, Signer.Charge;
    if e.i < |s.flying| {
      var s' := AfterLand(s, e);
      forall j | 0 <= j < |s'.flying| ensures Earned(s'.seen, c, Flight(s', j)) {
        assert Flight(s', j) == Flight(s, if j < e.i then j else j + 1);
      }
      assert Flight(s, e.i) == Trade(s.flying[e.i], s.run.inFlight[e.i].kind, s.run.inFlight[e.i].token);
    }
  }

  lemma FailKeeps(s: State, i: nat, c: Settings)
    requires Invariant(s, c)
    ensures Invariant(Apply(s, Fail(i), c), c)
  {
    hide StoreBefore, Justified, Earned;
    if i < |s.flying| {
      var s' := Apply(s, Fail(i), c);
      forall j | 0 <= j < |s'.flying| ensures Earned(s'.seen, c, Flight(s', j)) {
        assert Flight(s', j) == Flight(s, if j < i then j else j + 1);
      }
    }
  }

  lemma {:induction false} RunInvariant(a: Signer.Account, es: seq<Event>, c: Settings)
    requires AllTimely(es) && a.policy.requireVerified
    ensures Invariant(After(a, es, c), c)
  {
    if es != [] {
      hide Invariant, AfterAsk, AfterLand;
      var s, e := After(a, es[..|es| - 1], c), es[|es| - 1];
      RunInvariant(a, es[..|es| - 1], c);
      match e
      case Ask(_, _, _, _, _, _) => AskKeeps(s, e, c);
      case Land(_, _, _) => LandKeeps(s, e, c);
      case Fail(i) => FailKeeps(s, i, c);
      case Elsewhere(r) => SeenOneMore(s, r, c);
    } else {
      StartKeeps(a, c);
    }
  }

  lemma StartKeeps(a: Signer.Account, c: Settings)
    requires a.policy.requireVerified
    ensures Invariant(Start(a), c)
  {
  }

  /** Item i of a request the gate let through was authentic, fresh at the reading it was judged by, and
      of a nonce the store did not hold when its turn came. */
  ghost predicate GoodItem(seen: seq<Request>, k: nat, i: nat)
    requires AllTimed(seen) && k < |seen| && i < |seen[k].vi.evidence|
  {
    var ev, o, now := seen[k].vi.evidence[i], seen[k].o, seen[k].clock[i];
    && Authentic(ev, o) && FreshAt(ev, o, now)
    && Offset(map[], seen, k) + i < |MadeAll(map[], seen)|
    && ev.nonce !in Store(map[], MadeAll(map[], seen)[..Offset(map[], seen, k) + i])
  }

  lemma JustifiedItem(seen: seq<Request>, k: nat, i: nat)
    requires AllTimed(seen) && k < |seen| && i < |seen[k].vi.evidence| && Justified(map[], seen, k)
    ensures GoodItem(seen, k, i)
  {
    hide Justified, MadeAll, Offset, Store, Authentic, FreshAt;
    ItemInRun(map[], seen, k, i);
    var x := Offset(map[], seen, k) + i;
    PassesIff(Store(map[], MadeAll(map[], seen)[..x]), seen[k].vi.evidence[i], seen[k].o, seen[k].clock[i]);
  }

  /** The rule, on the inputs the evidence told, made the trade that was asked for. */
  ghost predicate RuleMadeIt(r: Request) {
    var rule := r.o.rule;
    && r.vi.rule == rule.id
    && (forall i :: 0 <= i < |rule.requires_| ==> V.Told(r.vi, rule.requires_[i]))
    && (forall i :: 0 <= i < |rule.when_| ==> V.Holds(rule.when_[i], r.vi.inputs))
    && V.Evaluate(r.o.coercion, rule, r.vi.inputs).Some?
    && V.SameIntent(V.Evaluate(r.o.coercion, rule, r.vi.inputs).value, r.vi.intent)
  }

  lemma JustifiedRule(seen: seq<Request>, k: nat)
    requires AllTimed(seen) && k < |seen| && Justified(map[], seen, k)
    ensures RuleMadeIt(seen[k])
  {
    hide V.Gate, V.Evaluate, V.SameIntent, StoreBefore, V.Holds;
    var r := seen[k];
    V.GateIff(StoreBefore(map[], seen, k), r.vi, r.o, r.clock);
    V.TradeMeans(r.o.coercion, r.o.rule, r.vi.inputs);
  }

  /** Every trade ever charged to an agent that requires verified intents, on paper or live, in whatever
      order swaps land: it goes back to a request of its own; all evidence of that request was authentic,
      fresh when it was judged and new; and the rule, on the inputs that evidence told, made exactly the
      intent that was traded. */
  lemma EveryTradeJustified(a: Signer.Account, es: seq<Event>, c: Settings, j: nat)
    requires AllTimely(es) && a.policy.requireVerified && j < |After(a, es, c).charged|
    ensures AllTimed(After(a, es, c).seen)
    ensures var s := After(a, es, c); var t := s.charged[j];
      && Earned(s.seen, c, t)
      && (forall i :: 0 <= i < |s.charged| && i != j ==> s.charged[i].cause != t.cause)
      && (forall i :: 0 <= i < |s.seen[t.cause].vi.evidence| ==> GoodItem(s.seen, t.cause, i))
      && RuleMadeIt(s.seen[t.cause])
  {
    hide After, Justified, GoodItem, RuleMadeIt;
    RunInvariant(a, es, c);
    var s := After(a, es, c);
    var t := s.charged[j];
    assert Earned(s.seen, c, t);
    forall i | 0 <= i < |s.seen[t.cause].vi.evidence| ensures GoodItem(s.seen, t.cause, i) {
      JustifiedItem(s.seen, t.cause, i);
    }
    JustifiedRule(s.seen, t.cause);
  }

  /** And no item of evidence pays for two of them, as far as it is too old five minutes after its use. */
  lemma TradesShareNoEvidence(a: Signer.Account, es: seq<Event>, c: Settings, j: nat, l: nat, x: nat, y: nat)
    requires AllTimely(es) && a.policy.requireVerified
    requires j < |After(a, es, c).charged| && l < |After(a, es, c).charged|
    requires AllTimed(After(a, es, c).seen) && Clocked(MadeAll(map[], After(a, es, c).seen))
    requires var s := After(a, es, c); var p, q := s.charged[j].cause, s.charged[l].cause;
      && p < q < |s.seen| && x < |s.seen[p].vi.evidence| && y < |s.seen[q].vi.evidence|
      && !s.seen[p].vi.evidence[x].Unknown?
      && V.TooOld(c.o, s.seen[p].vi.evidence[x].stamp, s.seen[p].clock[x] + V.KEEP_MS + 1)
    ensures var s := After(a, es, c);
      s.seen[s.charged[j].cause].vi.evidence[x] != s.seen[s.charged[l].cause].vi.evidence[y]
  {
    hide After, Justified, MadeAll, V.TooOld;
    RunInvariant(a, es, c);
    var s := After(a, es, c);
    assert Earned(s.seen, c, s.charged[j]) && Earned(s.seen, c, s.charged[l]);
    EvidenceUsedOnce(map[], s.seen, s.charged[j].cause, x, s.charged[l].cause, y);
  }
}
