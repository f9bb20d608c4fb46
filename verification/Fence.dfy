/** signer/server.js: sessions, the fence that lets one holder at a time trade an agent. */
module Fence {
  import opened Bytes

  type AgentId = string
  type Token = string
  type Hash = string

  datatype SessionRec = SessionRec(epoch: nat, tokenHash: Hash)

  /** Provisioned agents and the session each has open. */
  type Table = map<AgentId, Option<SessionRec>>

  datatype Event =
    | Provision(id: AgentId)
    | Open(id: AgentId, token: Token)
    | Delete(id: AgentId)

  /** The session after one more is opened: the epoch goes up by one, the token is new. */
  function Opened(s: Option<SessionRec>, hash: Hash): SessionRec {
    SessionRec((if s.Some? then s.value.epoch else 0) + 1, hash)
  }

  /** The routes that touch sessions. Provisioning an agent that exists keeps its session; opening
      one for an agent that does not exist is refused. */
  function Apply(t: Table, e: Event, H: Token -> Hash): Table {
    match e
    case Provision(id) => if id in t then t else t[id := None]
    case Open(id, token) => if id in t then t[id := Some(Opened(t[id], H(token)))] else t
    case Delete(id) => t - {id}
  }

  function After(es: seq<Event>, H: Token -> Hash): Table {
    if es == [] then map[] else Apply(After(es[..|es| - 1], H), es[|es| - 1], H)
  }

  /** The check at the head of the intent route. */
  predicate Authorized(t: Table, id: AgentId, epoch: int, token: Token, H: Token -> Hash) {
    id in t && t[id].Some? && epoch == t[id].value.epoch && H(token) == t[id].value.tokenHash
  }

  ghost predicate Injective(H: Token -> Hash) {
    forall x: Token, y: Token :: H(x) == H(y) ==> x == y
  }

  /** Random tokens do not repeat. */
  ghost predicate FreshTokens(es: seq<Event>) {
    forall i, j :: 0 <= i < j < |es| && es[i].Open? && es[j].Open? ==> es[i].token != es[j].token
  }

  // What the history says, without looking at the table.

  /** Whether the agent exists: provisioned since it was last deleted. */
  function Exists(es: seq<Event>, id: AgentId): bool {
    if es == [] then false
    else match es[|es| - 1]
      case Provision(i) => i == id || Exists(es[..|es| - 1], id)
      case Open(_, _) => Exists(es[..|es| - 1], id)
      case Delete(i) => i != id && Exists(es[..|es| - 1], id)
  }

  /** The sessions opened for the agent since it was last created, oldest first. */
  function Opens(es: seq<Event>, id: AgentId): seq<Token> {
    if es == [] then []
    else
      var before := es[..|es| - 1];
      match es[|es| - 1]
      case Provision(_) => Opens(before, id)
      case Open(i, token) => if i == id && Exists(before, id) then Opens(before, id) + [token] else Opens(before, id)
      case Delete(i) => if i == id then [] else Opens(before, id)
  }

  lemma {:induction false} TableMatchesHistory(es: seq<Event>, id: AgentId, H: Token -> Hash)
    ensures var t := After(es, H); var os := Opens(es, id);
      && (id in t <==> Exists(es, id))
      && (os != [] ==> id in t)
      && (id in t ==> t[id] == if os == [] then None else Some(SessionRec(|os|, H(os[|os| - 1]))))
  {
    if es != [] {
      TableMatchesHistory(es[..|es| - 1], id, H);
    }
  }

  /** An intent is authorised exactly when it carries the token of the latest session opened since
      the agent was created, under that session's number. */
  lemma AuthorizedIffLatest(es: seq<Event>, id: AgentId, epoch: int, token: Token, H: Token -> Hash)
    requires Injective(H)
    ensures Authorized(After(es, H), id, epoch, token, H) <==>
      var os := Opens(es, id); os != [] && token == os[|os| - 1] && epoch == |os|
  {
    TableMatchesHistory(es, id, H);
  }

  /** Every session of the current life was opened by some event, in order. */
  lemma {:induction false} OpensAreEvents(es: seq<Event>, id: AgentId, k: nat)
    requires k < |Opens(es, id)|
    ensures exists i :: 0 <= i < |es| && es[i] == Open(id, Opens(es, id)[k])
  {
    var before := es[..|es| - 1];
    if k < |Opens(before, id)| {
      OpensAreEvents(before, id, k);
      var i :| 0 <= i < |before| && before[i] == Open(id, Opens(before, id)[k]);
      assert es[i] == before[i];
    } else {
      assert es[|es| - 1] == Open(id, Opens(es, id)[k]);
    }
  }

  /** Between creation and deletion each newly opened session has a higher epoch than all before. */
  lemma EpochsIncrease(es: seq<Event>, id: AgentId, token: Token, H: Token -> Hash)
    requires id in After(es, H)
    ensures var t, t' := After(es, H), After(es + [Open(id, token)], H);
      && id in t' && t'[id].Some?
      && t'[id].value.epoch == |Opens(es, id)| + 1
      && (t[id].Some? ==> t'[id].value.epoch > t[id].value.epoch)
  {
    TableMatchesHistory(es, id, H);
    var es' := es + [Open(id, token)];
    assert es'[..|es|] == es;
    TableMatchesHistory(es', id, H);
  }

  /** Something happened after position j that ends the session opened there. */
  ghost predicate Superseded(es: seq<Event>, j: nat)
    requires j < |es| && es[j].Open?
  {
    exists k :: j < k < |es| && es[k].id == es[j].id && (es[k].Open? || es[k].Delete?)
  }

  lemma {:induction false} LatestIsNotBefore(es: seq<Event>, j: nat)
    requires FreshTokens(es) && j < |es| && es[j].Open? && Superseded(es, j)
    ensures var os := Opens(es, es[j].id); os != [] ==> os[|os| - 1] != es[j].token
  {
    var id := es[j].id;
    var before := es[..|es| - 1];
    var last := es[|es| - 1];
    var os := Opens(es, id);
    if os != [] {
      OpensAreEvents(es, id, |os| - 1);
      if last.Open? && last.id == id && Exists(before, id) {
        assert os[|os| - 1] == last.token && j < |es| - 1;
      } else {
        assert os == Opens(before, id);
        var k :| j < k < |es| && es[k].id == es[j].id && (es[k].Open? || es[k].Delete?);
        if k == |es| - 1 {
          assert last.Open? && !Exists(before, id);
          NoOpensUnlessExists(before, id);
        } else {
          assert before[j] == es[j] && before[k] == es[k];
          LatestIsNotBefore(before, j);
        }
      }
    }
  }

  lemma {:induction false} NoOpensUnlessExists(es: seq<Event>, id: AgentId)
    requires !Exists(es, id)
    ensures Opens(es, id) == []
  {
    if es != [] {
      var before := es[..|es| - 1];
      if !Exists(before, id) { NoOpensUnlessExists(before, id); }
    }
  }

  /** A session that was replaced, or whose agent was deleted, is never accepted again, under any
      epoch, even when the agent is created anew and its epochs restart at 1. */
  lemma SupersededNeverAgain(es: seq<Event>, j: nat, epoch: int, H: Token -> Hash)
    requires Injective(H) && FreshTokens(es)
    requires j < |es| && es[j].Open? && Superseded(es, j)
    ensures !Authorized(After(es, H), es[j].id, epoch, es[j].token, H)
  {
    hide Injective, Authorized, After, Opens, Superseded, FreshTokens;
    AuthorizedIffLatest(es, es[j].id, epoch, es[j].token, H);
    LatestIsNotBefore(es, j);
  }

  /** A token opened for one agent is never accepted for another. */
  lemma TokensAreScoped(es: seq<Event>, j: nat, id: AgentId, epoch: int, H: Token -> Hash)
    requires Injective(H) && FreshTokens(es)
    requires j < |es| && es[j].Open? && es[j].id != id
    ensures !Authorized(After(es, H), id, epoch, es[j].token, H)
  {
    hide Injective, Authorized, After, Opens, FreshTokens;
    AuthorizedIffLatest(es, id, epoch, es[j].token, H);
    var os := Opens(es, id);
    if os != [] {
      OpensAreEvents(es, id, |os| - 1);
      var i :| 0 <= i < |es| && es[i] == Open(id, os[|os| - 1]);
      if os[|os| - 1] == es[j].token { SameOpen(es, i, j); }
    }
  }

  lemma SameOpen(es: seq<Event>, i: nat, j: nat)
    requires FreshTokens(es) && i < |es| && j < |es|
    requires es[i].Open? && es[j].Open? && es[i].token == es[j].token
    ensures i == j
  {
  }
}
