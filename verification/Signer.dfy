/** signer/server.js with the caps of signer/submit.js: what an intent must pass and what it charges to
    the day. Amounts are lamports; the comparison slack of the source (1e-9 SOL) is one lamport. Days and
    times are readings of the clock. */
module Signer {
  import opened Bytes
  import opened Proto
  import Fence

  datatype Account = Account(policy: Policy, hasRule: bool, day: int, spent: int, lastTrade: int,
                             session: Option<Fence.SessionRec>)

  /** `kind` is None for anything but buy and sell; an absent token is empty; a size or amount that is
      not a number is None. */
  datatype Intent = Intent(kind: Option<Kind>, token: string, size: Option<int>, amount: Option<int>)

  /** One call of the intent route: the claimed session, what the decision gate says about the
      evidence that came with it, and the intent. */
  datatype Request = Request(epoch: int, tokenHash: Fence.Hash, gateOk: bool, intent: Intent)

  datatype Refusal =
    | Fenced | NoRule | GateRejected | BadKind | ActionNotAllowed | TokenDenied | TokenNotAllowed
    | Cooldown | BadSize | OverTradeCap | OverDailyCap | BadAmount

  /** What a live intent takes along into the swap: the limits as they stood when it began. */
  datatype Ticket = Ticket(kind: Kind, token: string, size: int, maxNotional: int, remaining: int, ts: int)

  datatype Outcome = Refused(why: Refusal) | SignedPaper(size: int) | Live(ticket: Ticket)

  predicate HoldsSession(a: Account, r: Request) {
    a.session.Some? && r.epoch == a.session.value.epoch && r.tokenHash == a.session.value.tokenHash
  }

  /** The checks before the day is looked at, in the order of the source. */
  function Vet(a: Account, r: Request, now: int): Option<Refusal> {
    var p, i := a.policy, r.intent;
    if !HoldsSession(a, r) then Some(Fenced)
    else if p.requireVerified && !a.hasRule then Some(NoRule)
    else if p.requireVerified && !r.gateOk then Some(GateRejected)
    else if i.kind.None? then Some(BadKind)
    else if i.kind.value !in p.allow then Some(ActionNotAllowed)
    else if i.token != "" && i.token in p.denyTokens then Some(TokenDenied)
    else if i.token != "" && p.allowTokens.Some? && i.token !in p.allowTokens.value then Some(TokenNotAllowed)
    else if now - a.lastTrade < p.cooldownMs then Some(Cooldown)
    else None
  }

  function Rolled(a: Account, day: int): Account {
    if a.day != day then a.(day := day, spent := 0) else a
  }

  function CheckSize(a: Account, i: Intent): Option<Refusal> {
    if i.kind == Some(Sell) && !a.policy.paper then
      if i.amount.Some? && i.amount.value > 0 then None else Some(BadAmount)
    else if i.size.None? || i.size.value <= 0 then Some(BadSize)
    else if i.size.value > a.policy.maxNotional then Some(OverTradeCap)
    else if a.spent + i.size.value > a.policy.maxDaily then Some(OverDailyCap)
    else None
  }

  /** The part of the intent route that runs without a break: up to the signature and the accounting
      on paper, up to the call of the swap when live. */
  function Begin(a: Account, r: Request, now: int, day: int): (Account, Outcome) {
    var vet := Vet(a, r, now);
    if vet.Some? then (a, Refused(vet.value))
    else
      var b := Rolled(a, day);
      var check := CheckSize(b, r.intent);
      if check.Some? then (b, Refused(check.value))
      else if b.policy.paper then
        (b.(spent := b.spent + r.intent.size.value, lastTrade := now), SignedPaper(r.intent.size.value))
      else
        var size := if r.intent.size.Some? then r.intent.size.value else 0;
        (b, Live(Ticket(r.intent.kind.value, r.intent.token, size, b.policy.maxNotional,
          Max(0, b.policy.maxDaily - b.spent), now)))
  }

  /** The SOL value of the order that came back: the input of a buy (the asked amount if the order
      does not say), the output of a sell. */
  function OrderValue(t: Ticket, inAmount: Option<int>, outAmount: Option<int>): Option<int> {
    match t.kind
    case Buy => Some(if inAmount.Some? && inAmount.value != 0 then inAmount.value else t.size)
    case Sell => outAmount
  }

  /** The caps of `executeUltraSwap`; None is a swap that fails, as one without a token does. */
  function Charge(t: Ticket, inAmount: Option<int>, outAmount: Option<int>): (r: Option<int>)
    ensures r.Some? ==> 0 < r.value <= t.maxNotional + 1 && r.value <= t.remaining + 1
  {
    var v := OrderValue(t, inAmount, outAmount);
    if t.token == "" || v.None? || v.value <= 0 then None
    else if v.value > t.maxNotional + 1 || v.value > t.remaining + 1 then None
    else v
  }

  /** The account after the swap returned: charged on success, untouched on failure. */
  function Landed(a: Account, t: Ticket, charge: Option<int>): Account {
    if charge.Some? then a.(spent := a.spent + charge.value, lastTrade := t.ts) else a
  }

  const NOTHING_SENT := RawPolicy(None, None, None, None, None, None, None, None)

  /** A new account and a provisioned one that is provisioned again. */
  function Fresh(policy: Option<RawPolicy>, verified: Option<bool>, today: int): (a: Account)
    ensures ValidPolicy(a.policy) && a.spent == 0 && a.session.None?
  {
    var limits := NormalizePolicy(if policy.Some? then policy.value else NOTHING_SENT);
    Account(limits, verified == Some(true), today, 0, 0, None)
  }

  function Revised(a: Account, policy: Option<RawPolicy>, verified: Option<bool>): (b: Account)
    ensures b.spent == a.spent && b.session == a.session && b.day == a.day && b.lastTrade == a.lastTrade
  {
    a.(policy := if policy.Some? then NormalizePolicy(policy.value) else a.policy,
       hasRule := if verified.Some? then verified.value else a.hasRule)
  }

  /** The control plane normalizes an owner's limits, keeps them and sends what it keeps; the signer
      normalizes again. Both enforce and show the same limits, and sending them once more changes
      nothing. */
  lemma LimitsAgree(p: RawPolicy, verified: Option<bool>, today: int, a: Account)
    ensures var kept := NormalizePolicy(p);
      && Fresh(Some(Raw(kept)), verified, today) == Fresh(Some(p), verified, today)
      && Fresh(Some(Raw(kept)), verified, today).policy == kept
      && (a.policy == kept ==> Revised(a, Some(Raw(kept)), None) == a)
  {
    hide NormalizePolicy;
    NormalizeIsIdempotent(p, NormalizePolicy(p));
  }

  // ---------------------------------------------------------------------------------------------
  // The server's objects
  // ---------------------------------------------------------------------------------------------

  class AgentRecord {
    var policy: Policy
    var hasRule: bool
    var day: int
    var spent: int
    var lastTrade: int
    var session: Option<Fence.SessionRec>

    ghost function State(): Account
      reads this
    {
      Account(policy, hasRule, day, spent, lastTrade, session)
    }

    constructor (policy: Policy, hasRule: bool, today: int)
      ensures State() == Account(policy, hasRule, today, 0, 0, None)
    {
      this.policy := policy;
      this.hasRule := hasRule;
      day := today;
      spent := 0;
      lastTrade := 0;
      session := None;
    }

    /** What provisioning changes in a record that is there. */
    method Revise(p: Option<RawPolicy>, verified: Option<bool>)
      modifies this`policy, this`hasRule
      ensures State() == Revised(old(State()), p, verified)
    {
      if p.Some? { policy := NormalizePolicy(p.value); }
      if verified.Some? { hasRule := verified.value; }
    }

    /** The session route. */
    method OpenSession(tokenHash: Fence.Hash) returns (epoch: nat)
      modifies this`session
      ensures session == Some(Fence.Opened(old(session), tokenHash)) && epoch == session.value.epoch
    {
      epoch := (if session.Some? then session.value.epoch else 0) + 1;
      session := Some(Fence.SessionRec(epoch, tokenHash));
    }

    /** The checks of the intent route before it looks at the day. */
    method Check(r: Request, now: int) returns (refused: Option<Refusal>)
      ensures refused == Vet(State(), r, now)
    {
      if session.None? { return Some(Fenced); }
      if r.epoch != session.value.epoch || r.tokenHash != session.value.tokenHash { return Some(Fenced); }
      if policy.requireVerified {
        if !hasRule { return Some(NoRule); }
        if !r.gateOk { return Some(GateRejected); }
      }
      var i := r.intent;
      if i.kind.None? { return Some(BadKind); }
      if i.kind.value !in policy.allow { return Some(ActionNotAllowed); }
      if i.token != "" && i.token in policy.denyTokens { return Some(TokenDenied); }
      if i.token != "" && policy.allowTokens.Some? && i.token !in policy.allowTokens.value {
        return Some(TokenNotAllowed);
      }
      if now - lastTrade < policy.cooldownMs { return Some(Cooldown); }
      return None;
    }

    /** The intent route up to its first wait. */
    method BeginIntent(r: Request, now: int, today: int) returns (out: Outcome)
      modifies this`day, this`spent, this`lastTrade
      ensures (State(), out) == Begin(old(State()), r, now, today)
    {
      var refused := Check(r, now);
      if refused.Some? { return Refused(refused.value); }
      assert r.intent.kind.Some?;
      hide Vet;
      var i := r.intent;
      if day != today {
        day := today;
        spent := 0;
      }
      var liveSell := i.kind == Some(Sell) && !policy.paper;
      if !liveSell {
        if i.size.None? || i.size.value <= 0 { return Refused(BadSize); }
        if i.size.value > policy.maxNotional { return Refused(OverTradeCap); }
        if spent + i.size.value > policy.maxDaily { return Refused(OverDailyCap); }
      } else if i.amount.None? || i.amount.value <= 0 {
        return Refused(BadAmount);
      }
      if policy.paper {
        spent := spent + i.size.value;
        lastTrade := now;
        return SignedPaper(i.size.value);
      }
      var remaining := Max(0, policy.maxDaily - spent);
      var size := if i.size.Some? then i.size.value else 0;
      out := Live(Ticket(i.kind.value, i.token, size, policy.maxNotional, remaining, now));
    }

    /** The intent route after the swap. */
    method Settle(t: Ticket, inAmount: Option<int>, outAmount: Option<int>) returns (charged: Option<int>)
      modifies this`spent, this`lastTrade
      ensures charged == Charge(t, inAmount, outAmount)
      ensures State() == Landed(old(State()), t, charged)
    {
      charged := Charge(t, inAmount, outAmount);
      if charged.Some? {
        spent := spent + charged.value;
        lastTrade := t.ts;
      }
    }
  }

  class Server {
    var agents: map<string, AgentRecord>

    /** Different ids never share a record. */
    ghost predicate Valid()
      reads this
    {
      forall x, y :: x in agents && y in agents && agents[x] == agents[y] ==> x == y
    }

    ghost function Accounts(): map<string, Account>
      reads this, agents.Values
    {
      map id | id in agents :: agents[id].State()
    }

    ghost function Sessions(): Fence.Table
      reads this, agents.Values
    {
      map id | id in agents :: agents[id].session
    }

    constructor ()
      ensures Valid() && Accounts() == map[]
    {
      agents := map[];
    }

    /** Provisioning: a fresh record, or new limits and a new rule, where sent, for the one that is
        there. `verified` is whether what was sent holds a rule. */
    method Provision(id: string, policy: Option<RawPolicy>, verified: Option<bool>, today: int,
                     ghost H: Fence.Token -> Fence.Hash)
      requires Valid()
      modifies this, agents.Values
      ensures Valid()
      ensures Accounts() == old(Accounts())[id :=
        if id in old(agents) then Revised(old(agents[id].State()), policy, verified)
          else Fresh(policy, verified, today)]
      ensures Sessions() == Fence.Apply(old(Sessions()), Fence.Provision(id), H)
    {
      hide NormalizePolicy, Revised;
      if id in agents {
        agents[id].Revise(policy, verified);
      } else {
        var limits := NormalizePolicy(if policy.Some? then policy.value else NOTHING_SENT);
        var a := new AgentRecord(limits, verified == Some(true), today);
        agents := agents[id := a];
      }
    }

    method OpenSession(id: string, token: Fence.Token, H: Fence.Token -> Fence.Hash) returns (epoch: Option<nat>)
      requires Valid()
      modifies agents.Values
      ensures Valid()
      ensures epoch.Some? <==> id in agents
      ensures Sessions() == Fence.Apply(old(Sessions()), Fence.Open(id, token), H)
      ensures epoch.Some? ==> Sessions()[id] == Some(Fence.SessionRec(epoch.value, H(token)))
      ensures forall x :: x in agents ==> Accounts()[x] == old(Accounts()[x]).(session := Sessions()[x])
    {
      if id !in agents { return None; }
      var e := agents[id].OpenSession(H(token));
      epoch := Some(e);
    }

    method Delete(id: string, ghost H: Fence.Token -> Fence.Hash)
      requires Valid()
      modifies this
      ensures Valid() && Accounts() == old(Accounts()) - {id}
      ensures Sessions() == Fence.Apply(old(Sessions()), Fence.Delete(id), H)
    {
      agents := agents - {id};
    }

    /** The intent route up to its first wait: only the agent's own record changes. The caller of a
        live intent keeps the record itself, not its id. */
    method BeginIntent(id: string, r: Request, now: int, today: int) returns (out: Option<(AgentRecord, Outcome)>)
      requires Valid()
      modifies agents.Values
      ensures Valid()
      ensures id !in agents ==> out == None && Accounts() == old(Accounts())
      ensures id in agents ==>
        && out.Some? && out.value.0 == agents[id]
        && (Accounts()[id], out.value.1) == Begin(old(Accounts()[id]), r, now, today)
        && Accounts() == old(Accounts())[id := Accounts()[id]]
    {
      if id !in agents { return None; }
      var o := agents[id].BeginIntent(r, now, today);
      out := Some((agents[id], o));
    }

    /** The end of a live intent charges the record it began with. If that agent was deleted in the
        meantime, even if created anew under the same id, no account in the table changes. */
    method FinishIntent(rec: AgentRecord, t: Ticket, inAmount: Option<int>, outAmount: Option<int>)
      returns (charged: Option<int>)
      requires Valid()
      modifies rec
      ensures Valid() && charged == Charge(t, inAmount, outAmount)
      ensures rec.State() == Landed(old(rec.State()), t, charged)
      ensures rec !in agents.Values ==> Accounts() == old(Accounts())
      ensures forall id :: id in agents && agents[id] != rec ==> Accounts()[id] == old(Accounts()[id])
    {
      charged := rec.Settle(t, inAmount, outAmount);
    }
  }

  /** An intent gets past the fence exactly when it is authorised by the session table. */
  lemma PastTheFenceIff(a: Account, r: Request, now: int, day: int, t: Fence.Table, id: string, token: Fence.Token,
                        H: Fence.Token -> Fence.Hash)
    requires id in t && t[id] == a.session && r.tokenHash == H(token)
    ensures Begin(a, r, now, day).1 != Refused(Fenced) <==> Fence.Authorized(t, id, r.epoch, token, H)
  {
    hide Rolled;
  }
}
