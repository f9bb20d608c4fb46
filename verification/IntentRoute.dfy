/** What the callers of signer/server.js see: when an intent is signed or goes to the swap, what a swap
    charges, what provisioning changes. Everything is told from the account, the request and the order;
    no function of the route is named. */
module IntentRoute {
  import opened Bytes
  import opened Proto
  import opened Signer
  import Fence

  /** The token may be traded: it is on no deny list, and on the allow list if there is one. */
  predicate TokenFree(p: Policy, token: string) {
    token == "" || (token !in p.denyTokens && (p.allowTokens.Some? ==> token in p.allowTokens.value))
  }

  /** The session, the rule, the action, the token and the cooldown let the request through. */
  predicate Admitted(a: Account, r: Request, now: int) {
    && a.session == Some(Fence.SessionRec(if r.epoch >= 0 then r.epoch else 0, r.tokenHash)) && r.epoch >= 0
    && (a.policy.requireVerified ==> a.hasRule && r.gateOk)
    && r.intent.kind.Some? && r.intent.kind.value in a.policy.allow
    && TokenFree(a.policy, r.intent.token)
    && a.lastTrade + a.policy.cooldownMs <= now
  }

  /** What was charged on this day so far. */
  function SpentOn(a: Account, day: int): int {
    if a.day == day then a.spent else 0
  }

  predicate WithinCaps(a: Account, size: int, day: int) {
    0 < size <= a.policy.maxNotional && SpentOn(a, day) + size <= a.policy.maxDaily
  }

  /** A paper trade is signed exactly for an admitted request of a size within the trade limit and what
      is left of the day. */
  lemma SignedIff(a: Account, r: Request, now: int, day: int, size: int)
    ensures Begin(a, r, now, day).1 == SignedPaper(size) <==>
      Admitted(a, r, now) && a.policy.paper && r.intent.size == Some(size) && WithinCaps(a, size, day)
  {
  }

  /** A live intent goes to the swap exactly if it is admitted and, for a buy, the asked size is within
      the limits, for a sell, there is something to sell; it takes along the trade limit and what is left
      of the day. */
  lemma LiveIff(a: Account, r: Request, now: int, day: int)
    ensures Begin(a, r, now, day).1.Live? <==>
      && Admitted(a, r, now) && !a.policy.paper
      && (r.intent.kind == Some(Buy) ==> r.intent.size.Some? && WithinCaps(a, r.intent.size.value, day))
      && (r.intent.kind == Some(Sell) ==> r.intent.amount.Some? && r.intent.amount.value > 0)
    ensures Begin(a, r, now, day).1.Live? ==>
      var t := Begin(a, r, now, day).1.ticket;
      && Some(t.kind) == r.intent.kind && t.token == r.intent.token && t.ts == now
      && (r.intent.size.Some? ==> t.size == r.intent.size.value)
      && t.maxNotional == a.policy.maxNotional
      && t.remaining == if SpentOn(a, day) <= a.policy.maxDaily then a.policy.maxDaily - SpentOn(a, day) else 0
  {
    if r.intent.kind.Some? { BuyOrSell(r.intent.kind.value); }
  }

  lemma BuyOrSell(kind: Kind)
    ensures kind == Buy || kind == Sell
  {
  }

  /** What the route leaves behind: a new day starts at nothing, a paper trade adds its size and sets the
      clock, a request that is not admitted changes nothing. */
  lemma AccountAfter(a: Account, r: Request, now: int, day: int)
    ensures var (b, out) := Begin(a, r, now, day);
      && b.policy == a.policy && b.hasRule == a.hasRule && b.session == a.session
      && (!Admitted(a, r, now) ==> b == a && out.Refused?)
      && (Admitted(a, r, now) ==> b.day == day)
      && (out.SignedPaper? ==> b.spent == SpentOn(a, day) + out.size && b.lastTrade == now)
      && (Admitted(a, r, now) && !out.SignedPaper? ==> b.spent == SpentOn(a, day) && b.lastTrade == a.lastTrade)
  {
  }

  /** The reason given is one that holds. */
  predicate Holds(why: Refusal, a: Account, r: Request, now: int, day: int) {
    var p, i := a.policy, r.intent;
    match why
    case Fenced => a.session.None? || r.epoch != a.session.value.epoch || r.tokenHash != a.session.value.tokenHash
    case NoRule => p.requireVerified && !a.hasRule
    case GateRejected => p.requireVerified && !r.gateOk
    case BadKind => i.kind.None?
    case ActionNotAllowed => i.kind.Some? && i.kind.value !in p.allow
    case TokenDenied => i.token != "" && i.token in p.denyTokens
    case TokenNotAllowed => i.token != "" && p.allowTokens.Some? && i.token !in p.allowTokens.value
    case Cooldown => now < a.lastTrade + p.cooldownMs
    case BadSize => i.size.None? || i.size.value <= 0
    case OverTradeCap => i.size.Some? && i.size.value > p.maxNotional
    case OverDailyCap => i.size.Some? && SpentOn(a, day) + i.size.value > p.maxDaily
    case BadAmount => i.kind == Some(Sell) && !p.paper && (i.amount.None? || i.amount.value <= 0)
  }

  lemma RefusalIsTrue(a: Account, r: Request, now: int, day: int)
    ensures Begin(a, r, now, day).1.Refused? ==> Holds(Begin(a, r, now, day).1.why, a, r, now, day)
  {
  }

  // ---------------------------------------------------------------------------------------------
  // What a swap charges
  // ---------------------------------------------------------------------------------------------

  /** A SOL value within both caps and their slack of one lamport. */
  predicate Chargeable(t: Ticket, x: int) {
    t.token != "" && 0 < x <= t.maxNotional + 1 && x <= t.remaining + 1
  }

  /** A buy is charged by the lamports that go in, or by the asked size if the order does not say; what
      comes out, in token units, plays no part. */
  lemma BuyCharge(t: Ticket, inAmount: Option<int>, outAmount: Option<int>, other: Option<int>)
    requires t.kind == Buy
    ensures Charge(t, inAmount, outAmount) == Charge(t, inAmount, other)
    ensures inAmount.Some? && inAmount.value != 0 ==>
      Charge(t, inAmount, outAmount) == if Chargeable(t, inAmount.value) then inAmount else None
    ensures inAmount.None? || inAmount == Some(0) ==>
      Charge(t, inAmount, outAmount) == if Chargeable(t, t.size) then Some(t.size) else None
  {
  }

  /** A sell is charged by the lamports that come out. */
  lemma SellCharge(t: Ticket, inAmount: Option<int>, other: Option<int>, outAmount: Option<int>)
    requires t.kind == Sell
    ensures Charge(t, inAmount, outAmount) == Charge(t, other, outAmount)
    ensures Charge(t, inAmount, outAmount)
         == if outAmount.Some? && Chargeable(t, outAmount.value) then outAmount else None
  {
  }

  /** The account after the swap. */
  lemma AfterSwap(a: Account, t: Ticket, inAmount: Option<int>, outAmount: Option<int>)
    ensures var c := Charge(t, inAmount, outAmount); var b := Landed(a, t, c);
      && (c.None? ==> b == a)
      && (c.Some? ==> b.spent == a.spent + c.value && b.lastTrade == t.ts)
      && b.policy == a.policy && b.hasRule == a.hasRule && b.session == a.session && b.day == a.day
  {
  }

  // ---------------------------------------------------------------------------------------------
  // What provisioning changes
  // ---------------------------------------------------------------------------------------------

  /** An owner's number as a limit: missing, its default; no number or negative, zero. */
  function Limit(x: Option<Option<int>>, default: int): int {
    if x.None? then default
    else if x.value.None? || x.value.value < 0 then 0
    else x.value.value
  }

  /** What an owner's policy comes to. Live trading and unverified intents have to be asked for by name;
      the daily limit is never below the limit for one trade. */
  lemma PolicyOf(p: RawPolicy)
    ensures var q := NormalizePolicy(p);
      && (q.paper <==> p.paper != Some(false))
      && (q.requireVerified <==> p.requireVerified == Some(true))
      && q.maxNotional == Limit(p.maxNotional, 50_000_000)
      && q.maxDaily >= q.maxNotional && q.maxDaily >= Limit(p.maxDaily, 500_000_000)
      && (q.maxDaily == q.maxNotional || q.maxDaily == Limit(p.maxDaily, 500_000_000))
      && q.cooldownMs == Limit(p.cooldownMs, 30_000)
      && (forall kind :: kind in q.allow <==> p.allow.None? || kind in p.allow.value)
      && (forall token :: token in q.denyTokens <==> p.denyTokens.Some? && token in p.denyTokens.value)
      && q.allowTokens == p.allowTokens
  {
    forall kind ensures kind in NormalizePolicy(p).allow <==> p.allow.None? || kind in p.allow.value {
      BuyOrSell(kind);
    }
  }

  /** Provisioning again puts new limits in force at once, where they are sent, and leaves the session,
      the day, what was charged and the clock alone. */
  lemma ProvisionedAgain(a: Account, policy: Option<RawPolicy>, verified: Option<bool>)
    ensures var b := Revised(a, policy, verified);
      && (policy.None? ==> b.policy == a.policy)
      && (policy.Some? ==> b.policy == NormalizePolicy(policy.value))
      && (b.hasRule <==> if verified.Some? then verified.value else a.hasRule)
      && b.session == a.session && b.day == a.day && b.spent == a.spent && b.lastTrade == a.lastTrade
  {
  }

  /** A new agent trades on paper unless its owner says otherwise, holds no session and owes nothing. */
  lemma ProvisionedFirst(policy: Option<RawPolicy>, verified: Option<bool>, today: int)
    ensures var a := Fresh(policy, verified, today);
      && (a.policy.paper <==> !(policy.Some? && policy.value.paper == Some(false)))
      && (policy.Some? ==> a.policy == NormalizePolicy(policy.value))
      && (a.hasRule <==> verified == Some(true))
      && a.session.None? && a.day == today && a.spent == 0 && a.lastTrade == 0
  {
  }
}
