/** The control plane and the signer's session table as one state machine. Every handler is one step,
    including the heartbeat with the session requests it makes. */
module Cloud {
  import opened Bytes
  import opened Proto
  import opened ControlPlane
  import Fence

  /** How a session request of a heartbeat ended when the signer did open the session; a request that
      is missing was refused and changed nothing. */
  datatype Reply = Answered(token: Token) | LostReply(token: Token)

  datatype Event =
    | Register(id: NodeId, sandbox: string, maxAgents: int, now: int)
    | Trust(id: NodeId, trusted: bool)
    | Beat(node: NodeId, running: seq<AgentId>, now: int, replies: map<AgentId, Reply>)
    | Sweep(t: int)
    | StartAgent(id: AgentId, now: int)
    | StopAgent(id: AgentId)
    | Create(id: AgentId, spec: Spec)
    | Delete(id: AgentId)

  /** A session the signer opened: for which agent, under which epoch, for a placement on which node. */
  datatype Issue = Issue(token: Token, agent: AgentId, epoch: nat, node: NodeId)

  /** A credential a node was given. */
  datatype Handout = Handout(agent: AgentId, epoch: nat, token: Token, node: NodeId)

  /** `issued` and `handed` record history; the servers keep neither. */
  datatype State = State(nodes: seq<Node>, agents: seq<Agent>, signer: Fence.Table, issued: set<Issue>,
                         handed: set<Handout>)

  const Init := State([], [], map[], {}, {})

  /** What the signer's table becomes when these sessions are opened. */
  function Rotated(signer: Fence.Table, replies: map<AgentId, Reply>, H: Token -> Fence.Hash): Fence.Table {
    map id | id in signer :: if id in replies then Some(Fence.Opened(signer[id], H(replies[id].token))) else signer[id]
  }

  function NextEpoch(signer: Fence.Table, id: AgentId): nat {
    (if id in signer && signer[id].Some? then signer[id].value.epoch else 0) + 1
  }

  function AnswersOf(signer: Fence.Table, replies: map<AgentId, Reply>): Answers {
    map id | id in replies && replies[id].Answered? :: (NextEpoch(signer, id), replies[id].token)
  }

  function IssuesOf(signer: Fence.Table, replies: map<AgentId, Reply>, n: NodeId): set<Issue> {
    set id | id in replies :: Issue(replies[id].token, id, NextEpoch(signer, id), n)
  }

  function HandoutsOf(orders: seq<Assignment>, n: NodeId): set<Handout> {
    set o | o in orders && o.Start? && o.credential.Some? ::
      Handout(o.id, o.credential.value.epoch, o.credential.value.token, n)
  }

  function Beaten(s: State, e: Event): (seq<Agent>, seq<Assignment>)
    requires e.Beat?
  {
    var i := IndexOfNode(s.nodes, e.node);
    if i < 0 then (s.agents, [])
    else BeatResult(s.agents, e.node, s.nodes[i].maxAgents, e.running, AnswersOf(s.signer, e.replies))
  }

  function Apply(s: State, e: Event, cfg: Config, H: Token -> Fence.Hash): State {
    match e
    case Register(id, sandbox, maxAgents, now) => s.(nodes := Registered(s.nodes, id, sandbox, maxAgents, now))
    case Trust(id, trusted) =>
      var i := IndexOfNode(s.nodes, id);
      if i < 0 then s else s.(nodes := s.nodes[i := Attested(s.nodes[i], trusted)])
    case Beat(n, running, now, replies) =>
      var i := IndexOfNode(s.nodes, n);
      if i < 0 then s
      else
        var (agents, orders) := Beaten(s, e);
        State(s.nodes[i := Heard(s.nodes[i], now)], agents, Rotated(s.signer, replies, H),
              s.issued + IssuesOf(s.signer, replies, n), s.handed + HandoutsOf(orders, n))
    case Sweep(t) => s.(nodes := DownNodes(s.nodes, t, cfg), agents := Swept(s.nodes, s.agents, t, cfg))
    case StartAgent(id, now) =>
      var k := IndexOfAgent(s.agents, id);
      if k < 0 then s
      else
        var asked := s.agents[k := StartRequested(s.agents[k])];
        s.(agents := asked[k := Place(s.nodes, asked, asked[k], now)])
    case StopAgent(id) =>
      var k := IndexOfAgent(s.agents, id);
      if k < 0 then s else s.(agents := s.agents[k := StopRequested(s.agents[k])])
    case Create(id, spec) =>
      if IndexOfAgent(s.agents, id) >= 0 then s
      else s.(agents := s.agents + [NewAgent(id, spec)], signer := Fence.Apply(s.signer, Fence.Provision(id), H))
    case Delete(id) =>
      if IndexOfAgent(s.agents, id) < 0 then s
      else s.(agents := Without(s.agents, id), signer := Fence.Apply(s.signer, Fence.Delete(id), H))
  }

  /** The signer only opens sessions for agents it has, and its random tokens are new. */
  ghost predicate Possible(s: State, e: Event) {
    e.Beat? ==>
      && (forall id :: id in e.replies ==> id in s.signer)
      && (forall id, i :: id in e.replies && i in s.issued ==> e.replies[id].token != i.token)
      && (forall x, y :: x in e.replies && y in e.replies && x != y ==> e.replies[x].token != e.replies[y].token)
  }

  /** The state after a run. */
  function Run(es: seq<Event>, cfg: Config, H: Token -> Fence.Hash): State {
    if es == [] then Init else Apply(Run(es[..|es| - 1], cfg, H), es[|es| - 1], cfg, H)
  }

  ghost predicate PossibleRun(es: seq<Event>, cfg: Config, H: Token -> Fence.Hash) {
    forall i :: 0 <= i < |es| ==> Possible(Run(es[..i], cfg, H), es[i])
  }
}
