/** signer/server.js over the same runs: how far apart an account's trades are. */
module Spacing {
  import opened Bytes
  import opened Proto
  import opened Signer
  import opened Spending
  import Fence

  /** The times at which paper trades were signed. */
  function PaperTimes(a: Account, steps: seq<Step>): seq<int> {
    if steps == [] then []
    else
      var before := steps[..|steps| - 1];
      var last := steps[|steps| - 1];
      if last.Ask? && Begin(After(a, before).account, last.r, last.now, last.day).1.SignedPaper?
      then PaperTimes(a, before) + [last.now]
      else PaperTimes(a, before)
  }

  /** One request on paper: a trade is signed only after the cooldown, and sets the clock. */
  lemma PaperStep(a: Account, r: Request, now: int, day: int)
    requires a.policy.paper
    ensures var (b, out) := Begin(a, r, now, day);
      && !out.Live? && b.policy == a.policy
      && (out.SignedPaper? ==> now - a.lastTrade >= a.policy.cooldownMs)
      && b.lastTrade == if out.SignedPaper? then now else a.lastTrade
  {
  }

  /** Paper trades keep the cooldown between them. */
  lemma {:induction false} PaperCooldown(a: Account, steps: seq<Step>)
    requires ValidPolicy(a.policy) && a.policy.paper && 0 <= a.spent <= a.policy.maxDaily
    ensures var ts := PaperTimes(a, steps);
      && (forall i :: 0 <= i < |ts| - 1 ==> ts[i + 1] - ts[i] >= a.policy.cooldownMs)
      && After(a, steps).account.lastTrade == if ts == [] then a.lastTrade else ts[|ts| - 1]
  {
    if steps != [] {
      hide Begin;
      var before := steps[..|steps| - 1];
      var last := steps[|steps| - 1];
      PaperCooldown(a, before);
      DailyCapPaper(a, before);
      if last.Ask? { PaperStep(After(a, before).account, last.r, last.now, last.day); }
    }
  }

  // ---------------------------------------------------------------------------------------------
  // The cooldown of live trades
  // ---------------------------------------------------------------------------------------------

  /** When the intent that this step charges had begun, if it charges one. */
  function ChargedBy(s: Run, e: Step): seq<int> {
    if e.Land? && e.i < |s.inFlight| && Charge(s.inFlight[e.i], e.inAmount, e.outAmount).Some? then [s.inFlight[e.i].ts]
    else []
  }

  /** The same of a run, in the order in which they were charged. */
  function LiveTimes(a: Account, steps: seq<Step>): seq<int> {
    if steps == [] then []
    else
      var before := steps[..|steps| - 1];
      LiveTimes(a, before) + ChargedBy(After(a, before), steps[|steps| - 1])
  }

  /** Trades charged one after the other began at least the cooldown apart, in every run with at most k
      live intents in flight. */
  ghost predicate KeepsCooldown(p: Policy, k: nat) {
    forall a: Account, steps: seq<Step> :: a.policy == p && AtMostInFlight(a, steps, k) ==>
      Spaced(LiveTimes(a, steps), p.cooldownMs)
  }

  ghost predicate Spaced(ts: seq<int>, d: int) {
    forall i :: 0 <= i < |ts| - 1 ==> ts[i + 1] - ts[i] >= d || ts[i] - ts[i + 1] >= d
  }

  /** With one intent at a time each trade begins the cooldown after the one before. */
  ghost predicate CooldownInvariant(s: Run, p: Policy, ts: seq<int>, start: int) {
    && s.account.policy == p && |s.inFlight| <= 1
    && s.account.lastTrade == (if ts == [] then start else ts[|ts| - 1])
    && (s.inFlight != [] ==> s.inFlight[0].ts - s.account.lastTrade >= p.cooldownMs)
    && Spaced(ts, p.cooldownMs)
  }

  lemma {:induction false} OneAtATimeCools(a: Account, steps: seq<Step>)
    requires !a.policy.paper && AtMostInFlight(a, steps, 1)
    ensures CooldownInvariant(After(a, steps), a.policy, LiveTimes(a, steps), a.lastTrade)
  {
    if steps != [] {
      hide After, AtMostInFlight, CooldownInvariant;
      var before, last := steps[..|steps| - 1], steps[|steps| - 1];
      assert steps == before + [last];
      FewerSteps(a, before, last, 1);
      OneAtATimeCools(a, before);
      AfterOneMore(a, before, last);
      CoolStep(After(a, before), last, a.policy, LiveTimes(a, before), a.lastTrade);
    } else {
      NoSteps(a);
    }
  }

  lemma CoolStep(s: Run, e: Step, p: Policy, ts: seq<int>, start: int)
    requires !p.paper && CooldownInvariant(s, p, ts, start) && |Next(s, e).inFlight| <= 1
    ensures CooldownInvariant(Next(s, e), p, ts + ChargedBy(s, e), start)
  {
    hide Begin, Charge;
    assert ts + [] == ts;
    if e.Ask? { LiveStepTime(s.account, e.r, e.now, e.day); }
  }

  lemma FewerSteps(a: Account, before: seq<Step>, last: Step, k: nat)
    requires AtMostInFlight(a, before + [last], k)
    ensures AtMostInFlight(a, before, k) && |After(a, before + [last]).inFlight| <= k
  {
    hide After;
    var steps := before + [last];
    assert steps[..|steps|] == steps;
    forall i | 0 <= i <= |before| ensures before[..i] == steps[..i] {}
  }

  lemma LiveStepTime(a: Account, r: Request, now: int, day: int)
    requires !a.policy.paper
    ensures var (b, out) := Begin(a, r, now, day);
      && !out.SignedPaper? && b.policy == a.policy && b.lastTrade == a.lastTrade
      && (out.Live? ==> out.ticket.ts == now && now - a.lastTrade >= a.policy.cooldownMs)
  {
  }

  /** A live policy that lets anything be traded and has a cooldown keeps it exactly when intents come
      one at a time: two that begin together both land. */
  lemma LiveCooldownIff(p: Policy, k: nat, kind: Kind, token: string)
    requires ValidPolicy(p) && !p.paper && p.maxNotional > 0 && p.cooldownMs > 0
    requires kind in p.allow && token != "" && token !in p.denyTokens
    requires p.allowTokens.Some? ==> token in p.allowTokens.value
    ensures KeepsCooldown(p, k) <==> k <= 1
  {
    hide After, CooldownInvariant;
    if k <= 1 {
      forall a: Account, steps: seq<Step> | a.policy == p && AtMostInFlight(a, steps, k)
        ensures Spaced(LiveTimes(a, steps), p.cooldownMs)
      {
        OneAtATimeCools(a, steps);
        assert CooldownInvariant(After(a, steps), p, LiveTimes(a, steps), a.lastTrade);
        InvariantIsSpaced(After(a, steps), p, LiveTimes(a, steps), a.lastTrade);
      }
    } else {
      var a, steps := BothLand(p, kind, token);
      assert AtMostInFlight(a, steps, k);
      assert LiveTimes(a, steps)[1] - LiveTimes(a, steps)[0] == 0;
      assert !Spaced(LiveTimes(a, steps), p.cooldownMs);
    }
  }

  lemma InvariantIsSpaced(s: Run, p: Policy, ts: seq<int>, start: int)
    requires CooldownInvariant(s, p, ts, start)
    ensures Spaced(ts, p.cooldownMs)
  {
  }

  /** The run that shows it: two intents asked at once, of one lamport each. */
  lemma BothLand(p: Policy, kind: Kind, token: string) returns (a: Account, steps: seq<Step>)
    requires ValidPolicy(p) && !p.paper && p.maxNotional > 0
    requires kind in p.allow && token != "" && token !in p.denyTokens
    requires p.allowTokens.Some? ==> token in p.allowTokens.value
    ensures a.policy == p && AtMostInFlight(a, steps, 2)
    ensures LiveTimes(a, steps) == [p.cooldownMs, p.cooldownMs]
  {
    a := Account(p, true, 0, 0, 0, Some(Fence.SessionRec(1, "h")));
    var r := Request(1, "h", true, Intent(Some(kind), token, Some(1), Some(1)));
    var ask, land := Ask(r, p.cooldownMs, 0), Land(0, Some(1), Some(1));
    var t := Ticket(kind, token, 1, p.maxNotional, p.maxDaily, p.cooldownMs);
    var b := a.(spent := 1, lastTrade := p.cooldownMs);
    var c := b.(spent := 2);
    assert Begin(a, r, p.cooldownMs, 0) == (a, Live(t)) && Charge(t, Some(1), Some(1)) == Some(1);
    steps := [ask, ask, land, land];
    TwoLandings(a, b, c, ask, land, t);
    hide After, LiveTimes, Begin, Charge;
    forall i | 0 <= i <= |steps| ensures |After(a, steps[..i]).inFlight| <= 2 {
      assert steps[..i] == if i == 0 then [] else if i == 1 then [ask] else if i == 2 then [ask, ask]
        else if i == 3 then [ask, ask, land] else steps;
    }
  }

  /** The states of that run. */
  ghost predicate TwoInFlight(a: Account, b: Account, ask: Step, land: Step, t: Ticket) {
    && After(a, []) == Run(a, [], 0) && After(a, [ask]) == Run(a, [t], 1)
    && After(a, [ask, ask]) == Run(a, [t, t], 2) && After(a, [ask, ask, land]) == Run(b, [t], 2)
  }

  lemma TwoLandings(a: Account, b: Account, c: Account, ask: Step, land: Step, t: Ticket)
    requires ask.Ask? && Begin(a, ask.r, ask.now, ask.day) == (a, Live(t))
    requires land == Land(0, Some(1), Some(1)) && Charge(t, Some(1), Some(1)) == Some(1)
    requires b == Landed(a, t, Some(1)) && c == Landed(b, t, Some(1))
    ensures TwoInFlight(a, b, ask, land, t) && After(a, [ask, ask, land, land]) == Run(c, [], 2)
    ensures LiveTimes(a, [ask, ask, land, land]) == [t.ts, t.ts]
  {
    NoSteps(a);
    hide After, LiveTimes, Begin, Charge, Landed;
    assert [] + [ask] == [ask] && [ask] + [ask] == [ask, ask];
    assert [ask, ask] + [land] == [ask, ask, land] && [ask, ask, land] + [land] == [ask, ask, land, land];
    AfterOneMore(a, [], ask);
    assert [] + [t] == [t];
    AfterOneMore(a, [ask], ask);
    assert [t] + [t] == [t, t];
    AfterOneMore(a, [ask, ask], land);
    assert Remove([t, t], 0) == [t];
    AfterOneMore(a, [ask, ask, land], land);
    assert Remove([t], 0) == [];
    TwoTimes(a, b, ask, land, t);
  }

  lemma TwoTimes(a: Account, b: Account, ask: Step, land: Step, t: Ticket)
    requires TwoInFlight(a, b, ask, land, t) && ask.Ask?
    requires land == Land(0, Some(1), Some(1)) && Charge(t, Some(1), Some(1)) == Some(1)
    ensures LiveTimes(a, [ask, ask, land, land]) == [t.ts, t.ts]
  {
    NoSteps(a);
    hide After, LiveTimes, Charge;
    assert [] + [ask] == [ask] && [ask] + [ask] == [ask, ask];
    assert [ask, ask] + [land] == [ask, ask, land] && [ask, ask, land] + [land] == [ask, ask, land, land];
    TimesOneMore(a, [], ask);
    TimesOneMore(a, [ask], ask);
    TimesOneMore(a, [ask, ask], land);
    TimesOneMore(a, [ask, ask, land], land);
    assert [] + [t.ts] + [t.ts] == [t.ts, t.ts];
  }

  lemma NoSteps(a: Account)
    ensures After(a, []) == Run(a, [], 0) && LiveTimes(a, []) == []
  {
  }

  lemma TimesOneMore(a: Account, steps: seq<Step>, e: Step)
    ensures LiveTimes(a, steps + [e]) == LiveTimes(a, steps) + ChargedBy(After(a, steps), e)
  {
    hide After, Charge;
    assert (steps + [e])[..|steps|] == steps;
  }
}
