/** control-plane/server.js with lib/store.js: placement, the failover sweep with its watchdog, and
    the heartbeat. The store's insertion-ordered tables are sequences with distinct ids. */
module ControlPlane {
  import opened Bytes
  import opened Proto

  type NodeId = string
  type AgentId = string
  type Token = string

  datatype Status = Up | Down

  datatype Node = Node(id: NodeId, sandbox: string, trusted: bool, maxAgents: int, status: Status, lastSeen: int)

  datatype Phase = Pending | Scheduled | Running | Stopping | Stopped | Failed

  datatype Session = Session(epoch: nat, token: Token, node: NodeId)

  /** `desired` is whether the owner wants it running. */
  datatype Agent = Agent(id: AgentId, spec: Spec, desired: bool, phase: Phase, nodeId: Option<NodeId>,
                         failed: seq<NodeId>, attempts: nat, placedAt: int, session: Option<Session>)

  datatype Config = Config(nodeTimeout: int, stuck: int)

  /** What a start or stop order tells the node; a start carries the session block, if any. */
  datatype Assignment = Start(id: AgentId, credential: Option<Session>) | Stop(id: AgentId)

  predicate DistinctNodes(nodes: seq<Node>) {
    forall i, j :: 0 <= i < j < |nodes| ==> nodes[i].id != nodes[j].id
  }

  predicate DistinctAgents(agents: seq<Agent>) {
    forall i, j :: 0 <= i < j < |agents| ==> agents[i].id != agents[j].id
  }

  // ---------------------------------------------------------------------------------------------
  // Counting and picking
  // ---------------------------------------------------------------------------------------------

  predicate On(a: Agent, n: NodeId) {
    a.nodeId == Some(n) && a.desired
  }

  /** `countAssigned`. */
  function Assigned(agents: seq<Agent>, n: NodeId): nat {
    if agents == [] then 0 else (if On(agents[0], n) then 1 else 0) + Assigned(agents[1..], n)
  }

  lemma {:induction false} AssignedUpdate(agents: seq<Agent>, k: nat, a: Agent, n: NodeId)
    requires k < |agents|
    ensures Assigned(agents[k := a], n) + (if On(agents[k], n) then 1 else 0)
      == Assigned(agents, n) + (if On(a, n) then 1 else 0)
  {
    if k == 0 {
      assert agents[0 := a][1..] == agents[1..];
    } else {
      assert agents[k := a][1..] == agents[1..][k - 1 := a];
      AssignedUpdate(agents[1..], k - 1, a, n);
    }
  }

  /** Turning assignments off one by one can only lower a count. */
  lemma {:induction false} AssignedFewer(before: seq<Agent>, after: seq<Agent>, n: NodeId)
    requires |before| == |after|
    requires forall k :: 0 <= k < |before| && On(after[k], n) ==> On(before[k], n)
    ensures Assigned(after, n) <= Assigned(before, n)
  {
    if before != [] { AssignedFewer(before[1..], after[1..], n); }
  }

  function Free(n: Node, agents: seq<Agent>): int {
    n.maxAgents - Assigned(agents, n.id)
  }

  /** A live node that passes the placement rule for this agent and has a slot. */
  predicate Open(n: Node, agents: seq<Agent>, a: Agent) {
    n.status.Up? && Satisfies(n.sandbox, n.trusted, a.spec) && Free(n, agents) > 0
  }

  predicate Candidate(n: Node, agents: seq<Agent>, a: Agent, avoid: seq<NodeId>) {
    Open(n, agents, a) && n.id !in avoid
  }

  /** `pickNode`: of the candidates, the first with the most free slots. */
  function PickNode(nodes: seq<Node>, agents: seq<Agent>, a: Agent, avoid: seq<NodeId>): (r: Option<Node>)
    ensures r.None? <==> forall n :: n in nodes ==> !Candidate(n, agents, a, avoid)
    ensures r.Some? ==> r.value in nodes && Candidate(r.value, agents, a, avoid)
    ensures r.Some? ==> forall n :: n in nodes && Candidate(n, agents, a, avoid) ==>
      Free(n, agents) <= Free(r.value, agents)
  {
    if nodes == [] then None
    else
      var last := nodes[|nodes| - 1];
      var best := PickNode(nodes[..|nodes| - 1], agents, a, avoid);
      assert nodes == nodes[..|nodes| - 1] + [last];
      if Candidate(last, agents, a, avoid) && (best.None? || Free(last, agents) > Free(best.value, agents)) then
        Some(last)
      else best
  }

  lemma {:induction false} PickNodeIsFirst(nodes: seq<Node>, agents: seq<Agent>, a: Agent, avoid: seq<NodeId>, i: nat,
                                           j: nat)
    requires i < j < |nodes| && DistinctNodes(nodes)
    requires PickNode(nodes, agents, a, avoid) == Some(nodes[j]) && Candidate(nodes[i], agents, a, avoid)
    ensures Free(nodes[i], agents) < Free(nodes[j], agents)
  {
    var front := nodes[..|nodes| - 1];
    if j < |nodes| - 1 {
      PickNodeIsFirst(front, agents, a, avoid, i, j);
    } else {
      assert nodes[i] == front[i];
      assert forall k :: 0 <= k < |front| ==> front[k].id != nodes[j].id;
    }
  }

  function FindNode(nodes: seq<Node>, id: NodeId): (r: Option<Node>)
    ensures r.Some? ==> r.value in nodes && r.value.id == id
    ensures r.None? ==> forall n :: n in nodes ==> n.id != id
  {
    if nodes == [] then None
    else if nodes[0].id == id then Some(nodes[0])
    else FindNode(nodes[1..], id)
  }

  predicate OnLiveNode(nodes: seq<Node>, a: Agent) {
    a.nodeId.Some? && FindNode(nodes, a.nodeId.value).Some? && FindNode(nodes, a.nodeId.value).value.status.Up?
  }

  /** Whether `schedule` forgets the nodes that failed this agent. */
  predicate Forgets(nodes: seq<Node>, agents: seq<Agent>, a: Agent) {
    a.desired && !OnLiveNode(nodes, a) && a.failed != [] && PickNode(nodes, agents, a, a.failed).None?
  }

  /** The agent record after `schedule`. */
  function Place(nodes: seq<Node>, agents: seq<Agent>, a: Agent, now: int): (b: Agent)
    ensures b.id == a.id && b.session == a.session && b.desired == a.desired && b.spec == a.spec
  {
    if !a.desired || OnLiveNode(nodes, a) then a
    else
      var failed := if Forgets(nodes, agents, a) then [] else a.failed;
      match PickNode(nodes, agents, a, failed)
      case None => a.(failed := failed, nodeId := None, phase := Pending)
      case Some(n) => a.(failed := failed, nodeId := Some(n.id), phase := Scheduled, placedAt := now)
  }

  // ---------------------------------------------------------------------------------------------
  // The sweep
  // ---------------------------------------------------------------------------------------------

  predicate TimedOut(n: Node, t: int, cfg: Config) {
    n.status != Down && t - n.lastSeen > cfg.nodeTimeout
  }

  function DownNodes(nodes: seq<Node>, t: int, cfg: Config): (r: seq<Node>)
    ensures |r| == |nodes|
    ensures forall i :: 0 <= i < |nodes| ==>
      r[i] == if TimedOut(nodes[i], t, cfg) then nodes[i].(status := Down) else nodes[i]
  {
    seq(|nodes|, i requires 0 <= i < |nodes| =>
      if TimedOut(nodes[i], t, cfg) then nodes[i].(status := Down) else nodes[i])
  }

  /** An agent whose node went down. */
  function Dropped(a: Agent): Agent {
    a.(phase := Failed, nodeId := None)
  }

  predicate Lost(nodes: seq<Node>, a: Agent, t: int, cfg: Config) {
    && a.desired && a.nodeId.Some?
    && exists i :: 0 <= i < |nodes| && nodes[i].id == a.nodeId.value && TimedOut(nodes[i], t, cfg)
  }

  predicate Stuck(a: Agent, t: int, cfg: Config) {
    a.desired && a.phase == Scheduled && a.nodeId.Some? && t - a.placedAt > cfg.stuck
  }

  /** `[...new Set([...failed, node])]`. */
  function Remember(failed: seq<NodeId>, n: NodeId): seq<NodeId> {
    if n in failed then failed else failed + [n]
  }

  /** An agent after the first two passes: dropped with its node, or bounced by the watchdog. */
  function Freed(nodes: seq<Node>, a: Agent, t: int, cfg: Config): Agent {
    var b := if Lost(nodes, a, t, cfg) then Dropped(a) else a;
    if Stuck(b, t, cfg) then
      b.(failed := Remember(b.failed, b.nodeId.value), attempts := b.attempts + 1, nodeId := None, phase := Pending)
    else b
  }

  function FreedAll(nodes: seq<Node>, agents: seq<Agent>, t: int, cfg: Config): (r: seq<Agent>)
    ensures |r| == |agents| && forall k :: 0 <= k < |agents| ==> r[k] == Freed(nodes, agents[k], t, cfg)
  {
    seq(|agents|, k requires 0 <= k < |agents| => Freed(nodes, agents[k], t, cfg))
  }

  predicate Waiting(a: Agent) {
    a.desired && (a.nodeId.None? || a.phase == Pending || a.phase == Failed)
  }

  /** One turn of the placing pass. */
  function Turn(nodes: seq<Node>, agents: seq<Agent>, k: nat, t: int): (r: seq<Agent>)
    requires k < |agents|
    ensures |r| == |agents| && forall i :: 0 <= i < |agents| && i != k ==> r[i] == agents[i]
  {
    if Waiting(agents[k]) then agents[k := Place(nodes, agents, agents[k], t)] else agents
  }

  /** The third pass: waiting agents are placed in table order, each seeing the placements before
      it. */
  function PlaceFrom(nodes: seq<Node>, agents: seq<Agent>, k: nat, t: int): (r: seq<Agent>)
    requires k <= |agents|
    ensures |r| == |agents|
    decreases |agents| - k
  {
    if k == |agents| then agents
    else PlaceFrom(nodes, Turn(nodes, agents, k, t), k + 1, t)
  }

  function Swept(nodes: seq<Node>, agents: seq<Agent>, t: int, cfg: Config): (r: seq<Agent>)
    ensures |r| == |agents|
  {
    PlaceFrom(DownNodes(nodes, t, cfg), FreedAll(nodes, agents, t, cfg), 0, t)
  }

  // ---------------------------------------------------------------------------------------------
  // The heartbeat
  // ---------------------------------------------------------------------------------------------

  /** The signer's answers to the session requests of one heartbeat; an agent that is missing was
      refused. */
  type Answers = map<AgentId, (nat, Token)>

  predicate Current(a: Agent, n: NodeId) {
    a.session.Some? && a.session.value.node == n
  }

  /** `ensureSession` for an agent whose placement is `n`: on failure the old session stays. */
  function WithSession(a: Agent, n: NodeId, answers: Answers): Agent {
    if Current(a, n) || a.id !in answers then a
    else a.(session := Some(Session(answers[a.id].0, answers[a.id].1, n)))
  }

  /** One agent's turn in the heartbeat of the node it is on, with `free` slots left. */
  function BeatAgent(a: Agent, n: NodeId, reported: bool, free: int, answers: Answers): Agent {
    if a.desired && !reported then
      if free <= 0 then a.(nodeId := None, phase := Pending) else WithSession(a, n, answers)
    else if a.desired then a.(phase := Running, attempts := 0, failed := [])
    else if reported then a.(phase := Stopping)
    else a.(phase := Stopped)
  }

  predicate Starts(a: Agent, n: NodeId, running: seq<AgentId>, free: int) {
    a.nodeId == Some(n) && a.desired && a.id !in running && free > 0
  }

  function Orders(a: Agent, n: NodeId, running: seq<AgentId>, free: int, answers: Answers): seq<Assignment> {
    if Starts(a, n, running, free) then [Start(a.id, WithSession(a, n, answers).session)]
    else if a.nodeId == Some(n) && !a.desired && a.id in running then [Stop(a.id)]
    else []
  }

  function FreeAfter(a: Agent, n: NodeId, running: seq<AgentId>, free: int): int {
    if Starts(a, n, running, free) then free - 1 else free
  }

  function Beaten(a: Agent, n: NodeId, running: seq<AgentId>, free: int, answers: Answers): (b: Agent)
    ensures b.id == a.id
  {
    if a.nodeId == Some(n) then BeatAgent(a, n, a.id in running, free, answers) else a
  }

  /** The reconciliation loop: agents in table order, the free slots counted down. */
  function BeatAgents(agents: seq<Agent>, n: NodeId, running: seq<AgentId>, free: int,
                      answers: Answers): (r: seq<Agent>)
    ensures |r| == |agents|
  {
    if agents == [] then []
    else
      var a := agents[0];
      [Beaten(a, n, running, free, answers)]
        + BeatAgents(agents[1..], n, running, FreeAfter(a, n, running, free), answers)
  }

  function BeatOrders(agents: seq<Agent>, n: NodeId, running: seq<AgentId>, free: int,
                      answers: Answers): seq<Assignment> {
    if agents == [] then []
    else
      Orders(agents[0], n, running, free, answers)
      + BeatOrders(agents[1..], n, running, FreeAfter(agents[0], n, running, free), answers)
  }

  predicate Here(agents: seq<Agent>, id: AgentId, n: NodeId) {
    exists k :: 0 <= k < |agents| && agents[k].id == id && agents[k].nodeId == Some(n)
  }

  /** Stop orders for what the node runs without being assigned it. */
  function OrphanStops(agents: seq<Agent>, n: NodeId, running: seq<AgentId>): seq<Assignment> {
    if running == [] then []
    else (if Here(agents, running[0], n) then [] else [Stop(running[0])]) + OrphanStops(agents, n, running[1..])
  }

  function BeatResult(agents: seq<Agent>, n: NodeId, maxAgents: int, running: seq<AgentId>,
                      answers: Answers): (seq<Agent>, seq<Assignment>) {
    var free := maxAgents - |running|;
    var after := BeatAgents(agents, n, running, free, answers);
    (after, BeatOrders(agents, n, running, free, answers) + OrphanStops(after, n, running))
  }

  // ---------------------------------------------------------------------------------------------
  // The server
  // ---------------------------------------------------------------------------------------------

  function IndexOfAgent(agents: seq<Agent>, id: AgentId): (r: int)
    ensures r >= 0 ==> r < |agents| && agents[r].id == id
    ensures r < 0 ==> forall k :: 0 <= k < |agents| ==> agents[k].id != id
  {
    if agents == [] then -1
    else if agents[0].id == id then 0
    else var r := IndexOfAgent(agents[1..], id); if r < 0 then -1 else r + 1
  }

  function IndexOfNode(nodes: seq<Node>, id: NodeId): (r: int)
    ensures r >= 0 ==> r < |nodes| && nodes[r].id == id
    ensures r < 0 ==> forall k :: 0 <= k < |nodes| ==> nodes[k].id != id
  {
    if nodes == [] then -1
    else if nodes[0].id == id then 0
    else var r := IndexOfNode(nodes[1..], id); if r < 0 then -1 else r + 1
  }

  /** `upsertNode`: fields of an earlier registration that are not sent again stay (here: trust). */
  function Registered(nodes: seq<Node>, id: NodeId, sandbox: string, maxAgents: int, now: int): (r: seq<Node>)
    ensures |nodes| <= |r| <= |nodes| + 1
  {
    var i := IndexOfNode(nodes, id);
    if i < 0 then nodes + [Node(id, sandbox, false, maxAgents, Up, now)]
    else nodes[i := Node(id, sandbox, nodes[i].trusted, maxAgents, Up, now)]
  }

  /** A node after its heartbeat, and after its administrator's word on it. */
  function Heard(n: Node, now: int): Node {
    n.(status := Up, lastSeen := now)
  }

  function Attested(n: Node, trusted: bool): Node {
    n.(trusted := trusted)
  }

  function StartRequested(a: Agent): Agent {
    a.(desired := true, phase := if a.phase == Stopped || a.phase == Failed then Pending else a.phase)
  }

  function StopRequested(a: Agent): Agent {
    a.(desired := false, phase := if a.phase == Running then Stopping else Stopped)
  }

  function NewAgent(id: AgentId, spec: Spec): Agent {
    Agent(id, spec, false, Pending, None, [], 0, 0, None)
  }

  function Without(agents: seq<Agent>, id: AgentId): (r: seq<Agent>)
    ensures |r| <= |agents|
  {
    var k := IndexOfAgent(agents, id);
    if k < 0 then agents else agents[..k] + agents[k + 1..]
  }

  lemma BeatUnroll(agents: seq<Agent>, k: nat, n: NodeId, running: seq<AgentId>, free: int, answers: Answers)
    requires k < |agents|
    ensures var free' := FreeAfter(agents[k], n, running, free);
      && BeatAgents(agents[k..], n, running, free, answers)
         == [Beaten(agents[k], n, running, free, answers)] + BeatAgents(agents[k + 1..], n, running, free', answers)
      && BeatOrders(agents[k..], n, running, free, answers)
         == Orders(agents[k], n, running, free, answers) + BeatOrders(agents[k + 1..], n, running, free', answers)
  {
    assert agents[k..][1..] == agents[k + 1..];
  }

  class Server {
    var nodes: seq<Node>
    var agents: seq<Agent>
    const cfg: Config

    ghost predicate Valid()
      reads this
    {
      DistinctNodes(nodes) && DistinctAgents(agents)
    }

    constructor (cfg: Config)
      ensures Valid() && nodes == [] && agents == [] && this.cfg == cfg
    {
      nodes := [];
      agents := [];
      this.cfg := cfg;
    }

    method Register(id: NodeId, sandbox: string, maxAgents: int, now: int)
      requires Valid()
      modifies this`nodes
      ensures Valid() && nodes == Registered(old(nodes), id, sandbox, maxAgents, now)
    {
      var i := IndexOfNode(nodes, id);
      if i < 0 {
        nodes := nodes + [Node(id, sandbox, false, maxAgents, Up, now)];
      } else {
        nodes := nodes[i := Node(id, sandbox, nodes[i].trusted, maxAgents, Up, now)];
      }
    }

    /** `schedule` on the agent at index k. */
    method Schedule(k: nat, now: int)
      requires Valid() && k < |agents|
      modifies this`agents
      ensures Valid() && agents == old(agents)[k := Place(nodes, old(agents), old(agents)[k], now)]
    {
      hide PickNode, FindNode;
      var a := agents[k];
      if !a.desired { return; }
      if a.nodeId.Some? {
        var n := FindNode(nodes, a.nodeId.value);
        if n.Some? && n.value.status.Up? { return; }
      }
      var node := PickNode(nodes, agents, a, a.failed);
      if node.None? && a.failed != [] {
        SameBesidesFailed(nodes, agents, k);
        agents := agents[k := agents[k].(failed := [])];
        node := PickNode(nodes, agents, agents[k], []);
      }
      if node.None? {
        agents := agents[k := agents[k].(nodeId := None, phase := Pending)];
        return;
      }
      agents := agents[k := agents[k].(nodeId := Some(node.value.id), phase := Scheduled, placedAt := now)];
    }

    /** The interval callback: nodes not heard from, stuck agents, then everything waiting. */
    method Sweep(t: int)
      requires Valid()
      modifies this
      ensures Valid()
      ensures nodes == DownNodes(old(nodes), t, cfg)
      ensures agents == Swept(old(nodes), old(agents), t, cfg)
    {
      ghost var nodes0, agents0 := nodes, agents;
      MarkDown(t);
      for k := 0 to |agents|
        invariant nodes == DownNodes(nodes0, t, cfg)
        invariant |agents| == |agents0|
        invariant forall j :: 0 <= j < k ==> agents[j] == Freed(nodes0, agents0[j], t, cfg)
        invariant forall j :: k <= j < |agents| ==>
          agents[j] == if Lost(nodes0, agents0[j], t, cfg) then Dropped(agents0[j]) else agents0[j]
      {
        var a := agents[k];
        if Stuck(a, t, cfg) {
          agents := agents[k := a.(failed := Remember(a.failed, a.nodeId.value), attempts := a.attempts + 1,
                                   nodeId := None, phase := Pending)];
        }
      }
      assert agents == FreedAll(nodes0, agents0, t, cfg);
      for k := 0 to |agents|
        invariant Valid() && nodes == DownNodes(nodes0, t, cfg)
        invariant |agents| == |agents0|
        invariant Swept(nodes0, agents0, t, cfg) == PlaceFrom(nodes, agents, k, t)
      {
        if Waiting(agents[k]) {
          Schedule(k, t);
        }
      }
    }

    /** First pass: each silent node goes down and drops the agents that should run on it. */
    method MarkDown(t: int)
      requires Valid()
      modifies this
      ensures Valid()
      ensures nodes == DownNodes(old(nodes), t, cfg)
      ensures |agents| == |old(agents)|
      ensures forall k :: 0 <= k < |agents| ==>
        agents[k] == if Lost(old(nodes), old(agents)[k], t, cfg) then Dropped(old(agents)[k]) else old(agents)[k]
    {
      ghost var nodes0, agents0 := nodes, agents;
      for i := 0 to |nodes|
        invariant |nodes| == |nodes0| && |agents| == |agents0|
        invariant forall j :: 0 <= j < i ==> nodes[j] == DownNodes(nodes0, t, cfg)[j]
        invariant forall j :: i <= j < |nodes| ==> nodes[j] == nodes0[j]
        invariant forall k :: 0 <= k < |agents| ==>
          agents[k] == if Lost(nodes0[..i], agents0[k], t, cfg) then Dropped(agents0[k]) else agents0[k]
      {
        LostPush(nodes0, i, agents0, t, cfg);
        if TimedOut(nodes[i], t, cfg) {
          nodes := nodes[i := nodes[i].(status := Down)];
          agents := DropFrom(agents, nodes[i].id);
        }
      }
      assert nodes0[..|nodes|] == nodes0;
    }

    static method DropFrom(agents: seq<Agent>, n: NodeId) returns (r: seq<Agent>)
      ensures |r| == |agents|
      ensures forall k :: 0 <= k < |agents| ==>
        r[k] == if On(agents[k], n) then Dropped(agents[k]) else agents[k]
    {
      r := agents;
      for k := 0 to |agents|
        invariant |r| == |agents|
        invariant forall j :: 0 <= j < k ==> r[j] == if On(agents[j], n) then Dropped(agents[j]) else agents[j]
        invariant forall j :: k <= j < |agents| ==> r[j] == agents[j]
      {
        if On(agents[k], n) {
          r := r[k := Dropped(r[k])];
        }
      }
    }

    /** The heartbeat route; an unregistered node is refused. */
    method Heartbeat(nodeId: NodeId, running: seq<AgentId>, now: int, answers: Answers)
      returns (r: Option<seq<Assignment>>)
      requires Valid()
      modifies this
      ensures Valid()
      ensures var i := IndexOfNode(old(nodes), nodeId);
        if i < 0 then r == None && nodes == old(nodes) && agents == old(agents)
        else
          var (after, orders) := BeatResult(old(agents), nodeId, old(nodes)[i].maxAgents, running, answers);
          nodes == old(nodes)[i := Heard(old(nodes)[i], now)] && agents == after &&
            r == Some(orders)
    {
      var i := IndexOfNode(nodes, nodeId);
      hide BeatAgents, BeatOrders, OrphanStops;
      if i < 0 { return None; }
      nodes := nodes[i := nodes[i].(status := Up, lastSeen := now)];
      var free := nodes[i].maxAgents - |running|;
      var orders := Reconcile(nodeId, running, free, answers);
      var stops := StopOrphans(nodeId, running);
      r := Some(orders + stops);
    }

    /** The orphan loop of the heartbeat. */
    method StopOrphans(n: NodeId, running: seq<AgentId>) returns (stops: seq<Assignment>)
      requires Valid()
      ensures stops == OrphanStops(agents, n, running)
    {
      stops := [];
      ghost var all := OrphanStops(agents, n, running);
      for j := 0 to |running|
        invariant all == stops + OrphanStops(agents, n, running[j..])
      {
        assert running[j..][0] == running[j] && running[j..][1..] == running[j + 1..];
        ghost var before, rest := stops, OrphanStops(agents, n, running[j + 1..]);
        ghost var mine := if Here(agents, running[j], n) then [] else [Stop(running[j])];
        assert before + (mine + rest) == (before + mine) + rest;
        var k := IndexOfAgent(agents, running[j]);
        if k < 0 || agents[k].nodeId != Some(n) {
          stops := stops + [Stop(running[j])];
        }
        assert stops == before + mine;
      }
    }

    /** The reconciliation loop of the heartbeat. */
    method Reconcile(n: NodeId, running: seq<AgentId>, slots: int, answers: Answers) returns (orders: seq<Assignment>)
      requires Valid()
      modifies this`agents
      ensures Valid() && agents == BeatAgents(old(agents), n, running, slots, answers)
      ensures orders == BeatOrders(old(agents), n, running, slots, answers)
    {
      hide Beaten, Orders, FreeAfter;
      ghost var agents0 := agents;
      var free := slots;
      orders := [];
      for k := 0 to |agents|
        invariant |agents| == |agents0| && Valid()
        invariant agents[k..] == agents0[k..]
        invariant BeatAgents(agents0, n, running, slots, answers) ==
          agents[..k] + BeatAgents(agents0[k..], n, running, free, answers)
        invariant BeatOrders(agents0, n, running, slots, answers) ==
          orders + BeatOrders(agents0[k..], n, running, free, answers)
      {
        ghost var a, front, orders0 := agents[k], agents[..k], orders;
        assert a == agents[k..][0] == agents0[k..][0];
        ghost var free' := FreeAfter(a, n, running, free);
        BeatUnroll(agents0, k, n, running, free, answers);
        ghost var tail, more := BeatAgents(agents0[k + 1..], n, running, free', answers),
          BeatOrders(agents0[k + 1..], n, running, free', answers);
        ghost var b, mine := Beaten(a, n, running, free, answers), Orders(a, n, running, free, answers);
        assert front + ([b] + tail) == (front + [b]) + tail;
        assert orders0 + (mine + more) == (orders0 + mine) + more;
        ghost var before := agents;
        var order;
        free, order := ReconcileOne(k, n, running, free, answers);
        orders := orders + order;
        assert agents[..k + 1] == front + [b];
        assert agents[k + 1..] == before[k..][1..] == agents0[k..][1..] == agents0[k + 1..];
      }
      assert agents[..|agents|] == agents;
    }

    /** One agent's turn. */
    method ReconcileOne(k: nat, n: NodeId, running: seq<AgentId>, slots: int, answers: Answers)
      returns (free: int, order: seq<Assignment>)
      requires Valid() && k < |agents|
      modifies this`agents
      ensures Valid() && agents == old(agents)[k := Beaten(old(agents)[k], n, running, slots, answers)]
      ensures order == Orders(old(agents)[k], n, running, slots, answers)
      ensures free == FreeAfter(old(agents)[k], n, running, slots)
    {
      var a := agents[k];
      free, order := slots, [];
      if a.nodeId != Some(n) { return; }
      var isRunning := a.id in running;
      if a.desired && !isRunning {
        if free <= 0 {
          agents := agents[k := a.(nodeId := None, phase := Pending)];
          return;
        }
        free := free - 1;
        agents := agents[k := WithSession(a, n, answers)];
        order := [Start(a.id, agents[k].session)];
      } else if a.desired && isRunning {
        agents := agents[k := a.(phase := Running)];
        if a.attempts != 0 || a.failed != [] {
          agents := agents[k := agents[k].(attempts := 0, failed := [])];
        }
      } else if !a.desired && isRunning {
        agents := agents[k := a.(phase := Stopping)];
        order := [Stop(a.id)];
      } else {
        agents := agents[k := a.(phase := Stopped)];
      }
    }

    method CreateAgent(id: AgentId, spec: Spec) returns (created: bool)
      requires Valid()
      modifies this`agents
      ensures Valid()
      ensures created <==> IndexOfAgent(old(agents), id) < 0
      ensures agents == if created then old(agents) + [NewAgent(id, spec)] else old(agents)
    {
      created := IndexOfAgent(agents, id) < 0;
      if created { agents := agents + [NewAgent(id, spec)]; }
    }

    method DeleteAgent(id: AgentId)
      requires Valid()
      modifies this`agents
      ensures Valid() && agents == Without(old(agents), id)
      ensures forall k :: 0 <= k < |agents| ==> agents[k].id != id
    {
      var k := IndexOfAgent(agents, id);
      if k >= 0 { agents := agents[..k] + agents[k + 1..]; }
    }

    method TrustNode(id: NodeId, trusted: bool) returns (found: bool)
      requires Valid()
      modifies this`nodes
      ensures Valid()
      ensures var i := IndexOfNode(old(nodes), id);
        found == (i >= 0) && nodes == if i < 0 then old(nodes) else old(nodes)[i := Attested(old(nodes)[i], trusted)]
    {
      var i := IndexOfNode(nodes, id);
      found := i >= 0;
      if found { nodes := nodes[i := nodes[i].(trusted := trusted)]; }
    }

    method StartAgent(id: AgentId, now: int) returns (found: bool)
      requires Valid()
      modifies this`agents
      ensures Valid()
      ensures var k := IndexOfAgent(old(agents), id);
        found == (k >= 0) &&
        agents == if k < 0 then old(agents) else
          var asked := old(agents)[k := StartRequested(old(agents)[k])];
          asked[k := Place(nodes, asked, asked[k], now)]
    {
      var k := IndexOfAgent(agents, id);
      if k < 0 { return false; }
      agents := agents[k := StartRequested(agents[k])];
      Schedule(k, now);
      found := true;
    }

    method StopAgent(id: AgentId) returns (found: bool)
      requires Valid()
      modifies this`agents
      ensures Valid()
      ensures var k := IndexOfAgent(old(agents), id);
        found == (k >= 0) && agents == if k < 0 then old(agents) else old(agents)[k := StopRequested(old(agents)[k])]
    {
      var k := IndexOfAgent(agents, id);
      if k < 0 { return false; }
      agents := agents[k := StopRequested(agents[k])];
      found := true;
    }
  }

  /** Clearing an agent's failure memory changes no count and no candidate. */
  lemma SameBesidesFailed(nodes: seq<Node>, agents: seq<Agent>, k: nat)
    requires k < |agents|
    ensures var cleared := agents[k := agents[k].(failed := [])];
      PickNode(nodes, cleared, cleared[k], []) == PickNode(nodes, agents, agents[k], [])
  {
    var cleared := agents[k := agents[k].(failed := [])];
    forall n ensures Assigned(cleared, n) == Assigned(agents, n) {
      AssignedUpdate(agents, k, agents[k].(failed := []), n);
    }
    SamePick(nodes, cleared, cleared[k], agents, agents[k]);
  }

  lemma {:induction false} SamePick(nodes: seq<Node>, agents1: seq<Agent>, a1: Agent, agents2: seq<Agent>, a2: Agent)
    requires a1.spec == a2.spec
    requires forall n :: Assigned(agents1, n) == Assigned(agents2, n)
    ensures PickNode(nodes, agents1, a1, []) == PickNode(nodes, agents2, a2, [])
  {
    if nodes != [] { SamePick(nodes[..|nodes| - 1], agents1, a1, agents2, a2); }
  }

  lemma LostPush(nodes: seq<Node>, i: nat, agents: seq<Agent>, t: int, cfg: Config)
    requires i < |nodes|
    ensures forall k :: 0 <= k < |agents| ==>
      (Lost(nodes[..i + 1], agents[k], t, cfg) <==>
        Lost(nodes[..i], agents[k], t, cfg) || (On(agents[k], nodes[i].id) && TimedOut(nodes[i], t, cfg)))
  {
    forall k | 0 <= k < |agents|
      ensures Lost(nodes[..i + 1], agents[k], t, cfg) <==>
        Lost(nodes[..i], agents[k], t, cfg) || (On(agents[k], nodes[i].id) && TimedOut(nodes[i], t, cfg))
    {
      var a := agents[k];
      if Lost(nodes[..i], a, t, cfg) {
        var j :| 0 <= j < i && nodes[..i][j].id == a.nodeId.value && TimedOut(nodes[..i][j], t, cfg);
        assert nodes[..i + 1][j] == nodes[..i][j];
      } else if On(a, nodes[i].id) && TimedOut(nodes[i], t, cfg) {
        assert nodes[..i + 1][i] == nodes[i];
      } else {
        assert forall j :: 0 <= j < i ==> nodes[..i + 1][j] == nodes[..i][j];
      }
    }
  }
}
