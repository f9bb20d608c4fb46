/** signer/server.js over runs of one account: intents begin, wait at the swap, and land or fail in any
    order. What the day's charges can come to. */
module Spending {
  import opened Arith
  import opened Bytes
  import opened Proto
  import opened Signer
  import Fence

  datatype Step =
    | Ask(r: Request, now: int, day: int)
    | Land(i: nat, inAmount: Option<int>, outAmount: Option<int>)
    | Fail(i: nat)

  /** `begun` counts the live intents that got as far as the swap. */
  datatype Run = Run(account: Account, inFlight: seq<Ticket>, begun: nat)

  function Remove<T>(s: seq<T>, i: nat): (r: seq<T>)
    requires i < |s|
    ensures |r| == |s| - 1
  {
    s[..i] + s[i + 1..]
  }

  function Next(s: Run, e: Step): Run {
    match e
    case Ask(r, now, day) =>
      var (a, out) := Begin(s.account, r, now, day);
      if out.Live? then Run(a, s.inFlight + [out.ticket], s.begun + 1) else s.(account := a)
    case Land(i, inAmount, outAmount) =>
      if i < |s.inFlight| then
        Run(Landed(s.account, s.inFlight[i], Charge(s.inFlight[i], inAmount, outAmount)), Remove(s.inFlight, i),
          s.begun)
      else s
    case Fail(i) =>
      if i < |s.inFlight| then s.(inFlight := Remove(s.inFlight, i)) else s
  }

  function After(a: Account, steps: seq<Step>): Run {
    if steps == [] then Run(a, [], 0) else Next(After(a, steps[..|steps| - 1]), steps[|steps| - 1])
  }

  /** The most a live intent can still charge. */
  function Bound(t: Ticket): int {
    (if t.maxNotional <= t.remaining then t.maxNotional else t.remaining) + 1
  }

  function Approved(ts: seq<Ticket>): int {
    if ts == [] then 0 else Approved(ts[..|ts| - 1]) + Bound(ts[|ts| - 1])
  }

  lemma {:induction false} ApprovedRemove(ts: seq<Ticket>, i: nat)
    requires i < |ts|
    ensures Approved(Remove(ts, i)) == Approved(ts) - Bound(ts[i])
  {
    var n := |ts| - 1;
    if i == n {
      assert Remove(ts, i) == ts[..n];
    } else {
      ApprovedRemove(ts[..n], i);
      assert Remove(ts, i)[..n - 1] == Remove(ts[..n], i);
      assert Remove(ts, i)[n - 1] == ts[n];
    }
  }

  ghost predicate FairTickets(ts: seq<Ticket>, maxNotional: int) {
    forall t :: t in ts ==> t.maxNotional == maxNotional && t.remaining >= 0
  }

  lemma {:induction false} ApprovedAtMost(ts: seq<Ticket>, maxNotional: int, k: nat)
    requires maxNotional >= 0 && FairTickets(ts, maxNotional) && |ts| <= k
    ensures Approved(ts) <= k * maxNotional + |ts|
    decreases |ts|
  {
    if ts != [] {
      ApprovedAtMost(ts[..|ts| - 1], maxNotional, k - 1);
      assert k * maxNotional == (k - 1) * maxNotional + maxNotional;
    } else {
      assert k * maxNotional >= 0;
    }
  }

  ghost predicate LiveInvariant(s: Run, p: Policy, k: nat) {
    && s.account.policy == p && s.account.spent >= 0
    && FairTickets(s.inFlight, p.maxNotional)
    && |s.inFlight| <= s.begun
    && s.account.spent + Approved(s.inFlight) <= p.maxDaily + (k - 1) * p.maxNotional + s.begun
  }

  lemma LiveStep(s: Run, e: Step, p: Policy, k: nat)
    requires ValidPolicy(p) && !p.paper && k >= 1
    requires LiveInvariant(s, p, k) && |Next(s, e).inFlight| <= k
    ensures LiveInvariant(Next(s, e), p, k)
  {
    match e
    case Ask(r, now, day) => LiveAsk(s, r, now, day, p, k);
    case Land(i, inAmount, outAmount) =>
      if i < |s.inFlight| {
        ApprovedRemove(s.inFlight, i);
        assert s.inFlight[i] in s.inFlight;
      }
    case Fail(i) =>
      if i < |s.inFlight| {
        ApprovedRemove(s.inFlight, i);
        assert s.inFlight[i] in s.inFlight;
      }
  }

  lemma LiveAsk(s: Run, r: Request, now: int, day: int, p: Policy, k: nat)
    requires ValidPolicy(p) && !p.paper && k >= 1
    requires LiveInvariant(s, p, k) && |Next(s, Ask(r, now, day)).inFlight| <= k
    ensures LiveInvariant(Next(s, Ask(r, now, day)), p, k)
  {
    hide Vet, CheckSize;
    var (a, out) := Begin(s.account, r, now, day);
    if out.Live? {
      var t := out.ticket;
      var ts := s.inFlight + [t];
      assert ts[..|ts| - 1] == s.inFlight;
      assert Approved(ts) == Approved(s.inFlight) + Bound(t);
      ApprovedAtMost(s.inFlight, p.maxNotional, k - 1);
    }
  }

  /** Daily cap under interleaving: with at most k live intents in flight at a time, what was charged
      today plus what may still be charged stays within the daily limit, one trade limit for each
      intent beyond the first, and one lamport per intent begun. */
  lemma {:induction false} DailyCapLive(a: Account, steps: seq<Step>, k: nat)
    requires ValidPolicy(a.policy) && !a.policy.paper && k >= 1
    requires 0 <= a.spent <= a.policy.maxDaily
    requires AtMostInFlight(a, steps, k)
    ensures var s := After(a, steps);
      && s.account.spent + Approved(s.inFlight) <= a.policy.maxDaily + (k - 1) * a.policy.maxNotional + s.begun
      && LiveInvariant(s, a.policy, k)
  {
    assert steps[..|steps|] == steps;
    if steps == [] {
      assert (k - 1) * a.policy.maxNotional >= 0;
    } else {
      var before := steps[..|steps| - 1];
      forall i | 0 <= i <= |before| ensures |After(a, before[..i]).inFlight| <= k {
        assert before[..i] == steps[..i];
      }
      DailyCapLive(a, before, k);
      LiveStep(After(a, before), steps[|steps| - 1], a.policy, k);
    }
  }

  /** One intent at a time: the daily limit, and one lamport per intent. */
  lemma DailyCapOneAtATime(a: Account, steps: seq<Step>)
    requires ValidPolicy(a.policy) && !a.policy.paper && 0 <= a.spent <= a.policy.maxDaily
    requires AtMostInFlight(a, steps, 1)
    ensures After(a, steps).account.spent <= a.policy.maxDaily + After(a, steps).begun
  {
    DailyCapLive(a, steps, 1);
    var s := After(a, steps);
    ApprovedNonNegative(s.inFlight, a.policy.maxNotional);
    assert (1 - 1) * a.policy.maxNotional == 0;
  }

  lemma {:induction false} ApprovedNonNegative(ts: seq<Ticket>, maxNotional: int)
    requires maxNotional >= 0 && FairTickets(ts, maxNotional)
    ensures Approved(ts) >= 0
    decreases |ts|
  {
    if ts != [] { ApprovedNonNegative(ts[..|ts| - 1], maxNotional); }
  }

  /** On paper the day's charges never exceed the limit at all. */
  lemma {:induction false} DailyCapPaper(a: Account, steps: seq<Step>)
    requires ValidPolicy(a.policy) && a.policy.paper && 0 <= a.spent <= a.policy.maxDaily
    ensures var s := After(a, steps);
      s.account.policy == a.policy && s.inFlight == [] && 0 <= s.account.spent <= a.policy.maxDaily
  {
    if steps != [] {
      hide Vet;
      DailyCapPaper(a, steps[..|steps| - 1]);
    }
  }

  /** The bound is reached, by every live policy, for every k: an agent with one trade limit of the day
      left begins k trades before any of them lands; each is granted the whole rest and lands one lamport
      above it. */
  lemma LiveBoundReached(a: Account, r: Request, now: int, k: nat) returns (steps: seq<Step>)
    requires Reaches(a, r, now) && k >= 1
    ensures AtMostInFlight(a, steps, k)
    ensures After(a, steps).begun == k && After(a, steps).inFlight == []
    ensures After(a, steps).account.spent == a.policy.maxDaily + (k - 1) * a.policy.maxNotional + k
  {
    hide Reaches, After;
    var asks, lands := Repeat(Ask(r, now, a.day), k), Repeat(LandOver(a), k);
    steps := asks + lands;
    LandsCharge(a, r, now, k, k);
    assert lands[..k] == lands && asks[..k] == asks;
    OneRestLeft(a, r, now);
    assert (k - 1) * a.policy.maxNotional + a.policy.maxNotional == k * a.policy.maxNotional;
    forall i | 0 <= i <= |steps| ensures |After(a, steps[..i]).inFlight| <= k {
      if i <= k {
        assert steps[..i] == asks[..i];
        AsksPileUp(a, r, now, k, i);
      } else {
        assert steps[..i] == asks + lands[..i - k];
        LandsCharge(a, r, now, k, i - k);
      }
    }
  }

  ghost predicate AtMostInFlight(a: Account, steps: seq<Step>, k: nat) {
    forall i :: 0 <= i <= |steps| ==> |After(a, steps[..i]).inFlight| <= k
  }

  /** A live account with one trade limit of the day left, and a request it lets through. */
  ghost predicate Reaches(a: Account, r: Request, now: int) {
    && ValidPolicy(a.policy) && !a.policy.paper && a.spent == a.policy.maxDaily - a.policy.maxNotional
    && Vet(a, r, now).None? && CheckSize(a, r.intent).None? && r.intent.token != ""
  }

  lemma OneRestLeft(a: Account, r: Request, now: int)
    requires Reaches(a, r, now)
    ensures a.spent == a.policy.maxDaily - a.policy.maxNotional
  {
  }

  /** The first swap in flight comes back one lamport above the trade limit. */
  function LandOver(a: Account): Step {
    Land(0, Some(a.policy.maxNotional + 1), Some(a.policy.maxNotional + 1))
  }

  function TicketOf(a: Account, r: Request, now: int): Ticket
    requires r.intent.kind.Some?
  {
    var size := if r.intent.size.Some? then r.intent.size.value else 0;
    Ticket(r.intent.kind.value, r.intent.token, size, a.policy.maxNotional, Max(0, a.policy.maxDaily - a.spent), now)
  }

  lemma AskGranted(a: Account, r: Request, now: int)
    requires Reaches(a, r, now)
    ensures r.intent.kind.Some? && Begin(a, r, now, a.day) == (a, Live(TicketOf(a, r, now)))
  {
  }

  lemma LandCharged(a: Account, r: Request, now: int, b: Account)
    requires Reaches(a, r, now) && r.intent.kind.Some?
    ensures var n := a.policy.maxNotional;
      Landed(b, TicketOf(a, r, now), Charge(TicketOf(a, r, now), Some(n + 1), Some(n + 1))).spent == b.spent + n + 1
  {
  }

  lemma {:induction false} AsksPileUp(a: Account, r: Request, now: int, k: nat, i: nat)
    requires Reaches(a, r, now) && i <= k
    ensures r.intent.kind.Some?
    ensures After(a, Repeat(Ask(r, now, a.day), k)[..i]) == Run(a, Repeat(TicketOf(a, r, now), i), i)
    decreases i
  {
    hide Reaches, Begin, TicketOf;
    AskGranted(a, r, now);
    var t := TicketOf(a, r, now);
    if i == 0 {
      assert Repeat(t, 0) == [];
    } else {
      var asks := Repeat(Ask(r, now, a.day), k);
      AsksPileUp(a, r, now, k, i - 1);
      assert asks[..i][..i - 1] == asks[..i - 1];
      assert Repeat(t, i - 1) + [t] == Repeat(t, i);
    }
  }

  lemma LandNext(a: Account, r: Request, now: int, s: Run, j: nat)
    requires Reaches(a, r, now) && r.intent.kind.Some? && j >= 1 && s.inFlight == Repeat(TicketOf(a, r, now), j)
    ensures var s' := Next(s, LandOver(a));
      && s'.begun == s.begun && s'.inFlight == Repeat(TicketOf(a, r, now), j - 1)
      && s'.account.spent == s.account.spent + a.policy.maxNotional + 1
  {
    hide Reaches, TicketOf, Charge, Landed;
    LandCharged(a, r, now, s.account);
    assert Remove(s.inFlight, 0) == Repeat(TicketOf(a, r, now), j - 1);
  }

  lemma AfterOneMore(a: Account, steps: seq<Step>, e: Step)
    ensures After(a, steps + [e]) == Next(After(a, steps), e)
  {
    assert (steps + [e])[..|steps|] == steps;
  }

  lemma OneMoreLimit(i: nat, n: int)
    requires i >= 1
    ensures (i - 1) * n + n == i * n
  {
  }

  lemma {:induction false} LandsCharge(a: Account, r: Request, now: int, k: nat, i: nat)
    requires Reaches(a, r, now) && i <= k
    ensures r.intent.kind.Some?
    ensures var s := After(a, Repeat(Ask(r, now, a.day), k) + Repeat(LandOver(a), k)[..i]);
      && s.begun == k && s.inFlight == Repeat(TicketOf(a, r, now), k - i)
      && s.account.spent == a.spent + i * a.policy.maxNotional + i
    decreases i
  {
    AskGranted(a, r, now);
    hide Reaches, Begin, TicketOf, Charge, Landed;
    var t, n := TicketOf(a, r, now), a.policy.maxNotional;
    var asks, lands := Repeat(Ask(r, now, a.day), k), Repeat(LandOver(a), k);
    if i == 0 {
      assert asks + lands[..0] == asks[..k];
      AsksPileUp(a, r, now, k, k);
    } else {
      hide LandOver, Next, After;
      var before := asks + lands[..i - 1];
      LandsCharge(a, r, now, k, i - 1);
      assert asks + lands[..i] == before + [LandOver(a)];
      AfterOneMore(a, before, LandOver(a));
      LandNext(a, r, now, After(a, before), k - i + 1);
      OneMoreLimit(i, n);
    }
  }

  /** The daily limit, one lamport per intent aside, in every run with at most k live intents in
      flight. */
  ghost predicate KeepsDailyLimit(p: Policy, k: nat) {
    forall a: Account, steps: seq<Step> ::
      a.policy == p && 0 <= a.spent <= p.maxDaily && AtMostInFlight(a, steps, k) ==>
      After(a, steps).account.spent <= p.maxDaily + After(a, steps).begun
  }

  /** A live policy that lets anything be traded keeps its daily limit exactly when intents come one at
      a time. */
  lemma DailyLimitIff(p: Policy, k: nat, kind: Kind, token: string)
    requires ValidPolicy(p) && !p.paper && p.maxNotional > 0
    requires kind in p.allow && token != "" && token !in p.denyTokens &&
      (p.allowTokens.Some? ==> token in p.allowTokens.value)
    ensures KeepsDailyLimit(p, k) <==> k <= 1
  {
    hide After, Reaches, LiveInvariant;
    if k <= 1 {
      forall a: Account, steps: seq<Step> | a.policy == p && 0 <= a.spent <= p.maxDaily && AtMostInFlight(a, steps, k)
        ensures After(a, steps).account.spent <= p.maxDaily + After(a, steps).begun
      {
        DailyCapOneAtATime(a, steps);
      }
    } else {
      var a := Account(p, true, 0, p.maxDaily - p.maxNotional, 0, Some(Fence.SessionRec(1, "h")));
      var r := Request(1, "h", true, Intent(Some(kind), token, Some(1), Some(1)));
      assert Reaches(a, r, p.cooldownMs) by { WitnessReaches(p, kind, token); }
      var steps := LiveBoundReached(a, r, p.cooldownMs, k);
      MulAtLeast(p.maxNotional, k - 1);
      assert (k - 1) * p.maxNotional >= p.maxNotional;
      assert !(After(a, steps).account.spent <= p.maxDaily + After(a, steps).begun);
    }
  }

  lemma WitnessReaches(p: Policy, kind: Kind, token: string)
    requires ValidPolicy(p) && !p.paper && p.maxNotional > 0
    requires kind in p.allow && token != "" && token !in p.denyTokens &&
      (p.allowTokens.Some? ==> token in p.allowTokens.value)
    ensures Reaches(Account(p, true, 0, p.maxDaily - p.maxNotional, 0, Some(Fence.SessionRec(1, "h"))),
                    Request(1, "h", true, Intent(Some(kind), token, Some(1), Some(1))), p.cooldownMs)
  {
  }
}
