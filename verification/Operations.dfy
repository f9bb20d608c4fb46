/** What the callers of control-plane/server.js see of one sweep, heartbeat, start, stop or registration,
    told from the records before and after; no function of the handlers' decisions is named. */
module Operations {
  import opened Bytes
  import opened Proto
  import opened ControlPlane
  import opened Placement
  import opened Cloud
  import Fence
  import Rotation

  // ---------------------------------------------------------------------------------------------
  // The sweep
  // ---------------------------------------------------------------------------------------------

  /** Live until now, and silent for longer than the timeout. */
  predicate Silent(n: Node, t: int, cfg: Config) {
    n.status.Up? && n.lastSeen + cfg.nodeTimeout < t
  }

  /** The agent's node goes down in this sweep. */
  ghost predicate LosesNode(nodes: seq<Node>, a: Agent, t: int, cfg: Config) {
    exists i :: 0 <= i < |nodes| && a.nodeId == Some(nodes[i].id) && Silent(nodes[i], t, cfg)
  }

  /** Wanted and placed, but not reported running yet. */
  predicate Awaited(a: Agent) {
    a.desired && a.phase == Scheduled && a.nodeId.Some?
  }

  /** A node is live after a sweep exactly if it was and has been heard within the timeout; nothing else
      of it changes. */
  lemma SweptNodes(nodes: seq<Node>, t: int, cfg: Config, i: nat)
    requires i < |nodes|
    ensures |DownNodes(nodes, t, cfg)| == |nodes|
    ensures var n := DownNodes(nodes, t, cfg)[i];
      && (n.status.Up? <==> nodes[i].status.Up? && t <= nodes[i].lastSeen + cfg.nodeTimeout)
      && n.id == nodes[i].id && n.sandbox == nodes[i].sandbox && n.trusted == nodes[i].trusted
      && n.maxAgents == nodes[i].maxAgents && n.lastSeen == nodes[i].lastSeen
  {
  }

  /** No wanted agent is left waiting for a node longer than the watchdog allows. */
  lemma NoneStuck(nodes: seq<Node>, agents: seq<Agent>, t: int, cfg: Config, k: nat)
    requires k < |agents| && cfg.stuck >= 0
    ensures var b := Swept(nodes, agents, t, cfg)[k]; Awaited(b) ==> t - b.placedAt <= cfg.stuck
  {
    hide PlaceFrom, PickNode;
    Rotation.PlaceFromAt(DownNodes(nodes, t, cfg), FreedAll(nodes, agents, t, cfg), 0, t, k);
  }

  /** An agent placed no longer ago than that, on a node that stays, is left alone; so is one that is
      running there, or not wanted. */
  lemma LeftAlone(nodes: seq<Node>, agents: seq<Agent>, t: int, cfg: Config, k: nat)
    requires k < |agents| && !LosesNode(nodes, agents[k], t, cfg)
    requires Awaited(agents[k]) ==> t - agents[k].placedAt <= cfg.stuck
    requires agents[k].desired ==> agents[k].nodeId.Some? && agents[k].phase != Pending && agents[k].phase != Failed
    ensures Swept(nodes, agents, t, cfg)[k] == agents[k]
  {
    hide PlaceFrom, PickNode;
    Rotation.PlaceFromAt(DownNodes(nodes, t, cfg), FreedAll(nodes, agents, t, cfg), 0, t, k);
    NotLost(nodes, agents[k], t, cfg);
  }

  lemma NotLost(nodes: seq<Node>, a: Agent, t: int, cfg: Config)
    ensures a.desired ==> (Lost(nodes, a, t, cfg) <==> LosesNode(nodes, a, t, cfg))
  {
    forall i | 0 <= i < |nodes| ensures TimedOut(nodes[i], t, cfg) <==> Silent(nodes[i], t, cfg) {
      assert nodes[i].status.Up? || nodes[i].status.Down?;
    }
  }

  /** The list with n in it once: added at the end if it is not there yet. */
  function OnceMore(failed: seq<NodeId>, n: NodeId): seq<NodeId> {
    failed + if n in failed then [] else [n]
  }

  /** One that waits longer loses its node: it is one attempt on, and is without a node and pending, or
      placed anew at this moment. */
  lemma Bounced(nodes: seq<Node>, agents: seq<Agent>, t: int, cfg: Config, k: nat)
    requires k < |agents| && Awaited(agents[k]) && t - agents[k].placedAt > cfg.stuck
    requires !LosesNode(nodes, agents[k], t, cfg)
    ensures var b := Swept(nodes, agents, t, cfg)[k];
      && b.attempts == agents[k].attempts + 1
      && (b.failed == [] || b.failed == OnceMore(agents[k].failed, agents[k].nodeId.value))
      && (b.failed != [] ==> b.nodeId != agents[k].nodeId)
      && (if b.nodeId.None? then b.phase == Pending else b.phase == Scheduled && b.placedAt == t)
  {
    hide PlaceFrom;
    var nodes', freed := DownNodes(nodes, t, cfg), FreedAll(nodes, agents, t, cfg);
    Rotation.PlaceFromAt(nodes', freed, 0, t, k);
    NotLost(nodes, agents[k], t, cfg);
  }

  /** No wanted agent is left on a node that went down in this sweep. */
  lemma NoneOnSilent(nodes: seq<Node>, agents: seq<Agent>, t: int, cfg: Config, k: nat)
    requires DistinctNodes(nodes) && k < |agents|
    ensures var b := Swept(nodes, agents, t, cfg)[k]; b.desired ==> !LosesNode(nodes, b, t, cfg)
  {
    hide Swept, Assigned, Open, Satisfies, Home;
    SweepSafeAndWorkConserving(nodes, agents, t, cfg);
    var b := Swept(nodes, agents, t, cfg)[k];
    if b.desired && LosesNode(nodes, b, t, cfg) {
      NotLost(nodes, b, t, cfg);
      SilentIsNoHome(nodes, b, t, cfg);
      assert false;
    }
  }

  lemma SilentIsNoHome(nodes: seq<Node>, b: Agent, t: int, cfg: Config)
    requires DistinctNodes(nodes) && LosesNode(nodes, b, t, cfg)
    ensures !Home(DownNodes(nodes, t, cfg), b)
  {
    hide Satisfies;
    var nodes' := DownNodes(nodes, t, cfg);
    var i :| 0 <= i < |nodes| && b.nodeId == Some(nodes[i].id) && Silent(nodes[i], t, cfg);
    forall n | n in nodes' && n.id == b.nodeId.value ensures !n.status.Up? {
      var j :| 0 <= j < |nodes'| && nodes'[j] == n;
      assert nodes[j].id == nodes[i].id && i == j;
    }
  }

  // ---------------------------------------------------------------------------------------------
  // The heartbeat
  // ---------------------------------------------------------------------------------------------

  /** Wanted here and not reported. */
  predicate Missing(a: Agent, n: NodeId, running: seq<AgentId>) {
    a.nodeId == Some(n) && a.desired && a.id !in running
  }

  function MissingCount(agents: seq<Agent>, n: NodeId, running: seq<AgentId>): nat {
    if agents == [] then 0
    else (if Missing(agents[0], n, running) then 1 else 0) + MissingCount(agents[1..], n, running)
  }

  /** No free slot is wasted: as many agents are started as are missing, up to the free slots. */
  lemma {:induction false} SlotsAreUsed(agents: seq<Agent>, n: NodeId, running: seq<AgentId>, free: int,
                                        answers: Answers)
    ensures var missing := MissingCount(agents, n, running);
      StartCount(BeatOrders(agents, n, running, free, answers))
        == if free <= 0 then 0 else if missing <= free then missing else free
  {
    if agents != [] {
      var a := agents[0];
      var free' := FreeAfter(a, n, running, free);
      SlotsAreUsed(agents[1..], n, running, free', answers);
      StartCountAppend(Orders(a, n, running, free, answers), BeatOrders(agents[1..], n, running, free', answers));
      OneOrder(a, n, running, free, answers);
    }
  }

  lemma HeartbeatStarts(agents: seq<Agent>, n: NodeId, maxAgents: int, running: seq<AgentId>, answers: Answers)
    ensures var missing, free := MissingCount(agents, n, running), maxAgents - |running|;
      StartCount(BeatResult(agents, n, maxAgents, running, answers).1)
        == if free <= 0 then 0 else if missing <= free then missing else free
  {
    hide BeatAgents, BeatOrders, OrphanStops, MissingCount, StartCount;
    var free := maxAgents - |running|;
    var after := BeatAgents(agents, n, running, free, answers);
    SlotsAreUsed(agents, n, running, free, answers);
    StartCountAppend(BeatOrders(agents, n, running, free, answers), OrphanStops(after, n, running));
    OrphansStartNothing(after, n, running);
  }

  lemma {:induction false} OrphansStartNothing(agents: seq<Agent>, n: NodeId, running: seq<AgentId>)
    ensures StartCount(OrphanStops(agents, n, running)) == 0
  {
    if running != [] {
      OrphansStartNothing(agents, n, running[1..]);
      var mine := if Here(agents, running[0], n) then [] else [Stop(running[0])];
      StartCountAppend(mine, OrphanStops(agents, n, running[1..]));
    }
  }

  /** The session an agent is started with: the one it has on this node, else the one the signer answered
      with, else whatever it had. */
  function SessionFor(a: Agent, n: NodeId, answers: Answers): Option<Session> {
    if a.session.Some? && a.session.value.node == n then a.session
    else if a.id in answers then Some(Session(answers[a.id].0, answers[a.id].1, n))
    else a.session
  }

  /** A start order is for a missing agent of the node, and carries that session. */
  lemma {:induction false} StartOrders(agents: seq<Agent>, n: NodeId, running: seq<AgentId>, free: int,
                                       answers: Answers, o: Assignment)
    requires o in BeatOrders(agents, n, running, free, answers) && o.Start?
    ensures exists a :: a in agents && Missing(a, n, running) && o == Start(a.id, SessionFor(a, n, answers))
  {
    if agents != [] && o !in Orders(agents[0], n, running, free, answers) {
      StartOrders(agents[1..], n, running, FreeAfter(agents[0], n, running, free), answers, o);
      var a :| a in agents[1..] && Missing(a, n, running) && o == Start(a.id, SessionFor(a, n, answers));
      assert a in agents;
    }
  }

  lemma StartsCarry(agents: seq<Agent>, n: NodeId, maxAgents: int, running: seq<AgentId>, answers: Answers,
                    o: Assignment)
    requires o in BeatResult(agents, n, maxAgents, running, answers).1 && o.Start?
    ensures exists a :: a in agents && Missing(a, n, running) && o == Start(a.id, SessionFor(a, n, answers))
  {
    var free := maxAgents - |running|;
    var after := BeatAgents(agents, n, running, free, answers);
    if o in OrphanStops(after, n, running) {
      OrphansAreStops(after, n, running, o);
    } else {
      StartOrders(agents, n, running, free, answers, o);
    }
  }

  lemma {:induction false} OrphansAreStops(agents: seq<Agent>, n: NodeId, running: seq<AgentId>, o: Assignment)
    requires o in OrphanStops(agents, n, running)
    ensures o.Stop?
  {
    if !(!Here(agents, running[0], n) && o == Stop(running[0])) { OrphansAreStops(agents, n, running[1..], o); }
  }

  /** The node itself is live and heard now; the others are as they were. */
  lemma BeatNode(s: State, e: Event, cfg: Config, H: Token -> Fence.Hash, i: nat)
    requires e.Beat? && i < |s.nodes| && DistinctNodes(s.nodes)
    ensures |Apply(s, e, cfg, H).nodes| == |s.nodes|
    ensures var m, n := Apply(s, e, cfg, H).nodes[i], s.nodes[i];
      && (n.id != e.node ==> m == n)
      && (n.id == e.node ==>
            && m.status.Up? && m.lastSeen == e.now && m.id == n.id
            && m.sandbox == n.sandbox && m.trusted == n.trusted && m.maxAgents == n.maxAgents)
  {
    hide BeatResult, Rotated, IssuesOf, HandoutsOf;
  }

  /** What a heartbeat of node n makes of one agent: a running one is on record as running, its failures
      forgotten; a missing one stays to be started or goes back to the scheduler; one that is not wanted
      is stopping while it is reported and stopped after; the agents of other nodes are not touched. */
  lemma BeatRecord(agents: seq<Agent>, n: NodeId, maxAgents: int, running: seq<AgentId>, answers: Answers, k: nat)
    requires k < |agents|
    ensures var a, b := agents[k], BeatResult(agents, n, maxAgents, running, answers).0[k];
      && b.id == a.id && b.desired == a.desired && b.spec == a.spec && b.placedAt == a.placedAt
      && (a.nodeId != Some(n) ==> b == a)
      && (a.nodeId == Some(n) && a.desired && a.id in running ==>
            b.nodeId == a.nodeId && b.phase == Running && b.failed == [] && b.attempts == 0 && b.session == a.session)
      && (Missing(a, n, running) ==>
            && b.failed == a.failed && b.attempts == a.attempts
            && (|| (b.nodeId == a.nodeId && b.phase == a.phase && b.session == SessionFor(a, n, answers))
                || (b.nodeId.None? && b.phase == Pending && b.session == a.session)))
      && (a.nodeId == Some(n) && !a.desired ==>
            b.nodeId == a.nodeId && b.session == a.session && b.phase == if a.id in running then Stopping else Stopped)
  {
    hide BeatAgents, BeatOrders, OrphanStops;
    BeatAgentsAt(agents, n, running, maxAgents - |running|, answers, k);
  }

  // ---------------------------------------------------------------------------------------------
  // Starting and stopping
  // ---------------------------------------------------------------------------------------------

  /** A stopped agent is not wanted any more, keeps its place, and no other record changes. */
  lemma StopMeans(s: State, id: AgentId, cfg: Config, H: Token -> Fence.Hash, k: nat)
    requires DistinctAgents(s.agents) && k < |s.agents|
    ensures |Apply(s, StopAgent(id), cfg, H).agents| == |s.agents|
    ensures var a, b := s.agents[k], Apply(s, StopAgent(id), cfg, H).agents[k];
      && (a.id != id ==> b == a)
      && (a.id == id ==> !b.desired && b.nodeId == a.nodeId && b.session == a.session && b.failed == a.failed
                         && b.phase == if a.phase == Running then Stopping else Stopped)
  {
  }

  /** So the next heartbeat of its node that reports it gets the order to stop it, and never one to start
      it. */
  lemma StopIsOrdered(s: State, id: AgentId, cfg: Config, H: Token -> Fence.Hash, n: NodeId, maxAgents: int,
                      running: seq<AgentId>, answers: Answers)
    requires DistinctAgents(s.agents) && DistinctIds(running) && id in running
    ensures var orders := BeatResult(Apply(s, StopAgent(id), cfg, H).agents, n, maxAgents, running, answers).1;
      Stop(id) in orders && forall o :: o in orders && o.Start? ==> o.id != id
  {
    hide BeatResult, Apply;
    var agents := Apply(s, StopAgent(id), cfg, H).agents;
    StoppedIsOff(s, id, cfg, H);
    HeartbeatRestoresBudget(agents, n, maxAgents, running, answers);
  }

  lemma StoppedIsOff(s: State, id: AgentId, cfg: Config, H: Token -> Fence.Hash)
    requires DistinctAgents(s.agents)
    ensures var agents := Apply(s, StopAgent(id), cfg, H).agents;
      DistinctAgents(agents) && forall k :: 0 <= k < |agents| && agents[k].id == id ==> !agents[k].desired
  {
    hide Apply;
    var agents := Apply(s, StopAgent(id), cfg, H).agents;
    StopKeepsIds(s, id, cfg, H);
    forall k | 0 <= k < |agents| ensures agents[k].id == id ==> !agents[k].desired {
      StopMeans(s, id, cfg, H, k);
    }
  }

  lemma StopKeepsIds(s: State, id: AgentId, cfg: Config, H: Token -> Fence.Hash)
    ensures var agents := Apply(s, StopAgent(id), cfg, H).agents;
      |agents| == |s.agents| && forall k :: 0 <= k < |agents| ==> agents[k].id == s.agents[k].id
  {
  }

  /** A started agent is wanted, and is on a live node: the one it was on, or a suitable one with a slot
      that it is placed on now; or it is pending because there is none. No other record changes. */
  lemma StartMeans(s: State, id: AgentId, now: int, cfg: Config, H: Token -> Fence.Hash, k: nat)
    requires DistinctAgents(s.agents) && k < |s.agents|
    ensures |Apply(s, StartAgent(id, now), cfg, H).agents| == |s.agents|
    ensures var a, b := s.agents[k], Apply(s, StartAgent(id, now), cfg, H).agents[k];
      && (a.id != id ==> b == a)
      && (a.id == id ==>
            && b.desired && b.session == a.session && b.attempts == a.attempts
            && (|| (b.nodeId == a.nodeId && b.nodeId.Some? && b.phase != Stopped && b.phase != Failed
                    && b.failed == a.failed && b.placedAt == a.placedAt && exists n :: LiveNode(s.nodes, b, n))
                || (b.phase == Scheduled && b.placedAt == now && Home(s.nodes, b))
                || (b.phase == Pending && b.nodeId.None? && forall n :: n in s.nodes ==> !Open(n, WithStart(s, k), b))))
  {
    hide Assigned, Open, Satisfies, Home;
    if s.agents[k].id == id {
      Rotation.IndexOf(s.agents, s.agents[k]);
      SameIndex(s.agents, k);
      var asked := WithStart(s, k);
      var b := Place(s.nodes, asked, asked[k], now);
      PlaceTarget(s.nodes, asked, asked[k], now);
      if OnLiveNode(s.nodes, asked[k]) {
        assert LiveNode(s.nodes, b, FindNode(s.nodes, b.nodeId.value).value);
      } else {
        PlacedAnew(s.nodes, asked, asked[k], now);
        if b.nodeId.None? { PlaceGivesUp(s.nodes, asked, asked[k], now); StillClosed(s.nodes, asked, asked[k], b); }
      }
    } else {
      OtherIndex(s.agents, k, id);
    }
  }

  predicate LiveNode(nodes: seq<Node>, a: Agent, n: Node) {
    n in nodes && a.nodeId == Some(n.id) && n.status.Up?
  }

  /** The table with agent k wanted. */
  function WithStart(s: State, k: nat): seq<Agent>
    requires k < |s.agents|
  {
    s.agents[k := StartRequested(s.agents[k])]
  }

  lemma PlacedAnew(nodes: seq<Node>, agents: seq<Agent>, a: Agent, now: int)
    requires a.desired && !OnLiveNode(nodes, a)
    ensures var b := Place(nodes, agents, a, now);
      && b.desired && b.spec == a.spec && b.attempts == a.attempts && b.session == a.session
      && (b.nodeId.None? ==> b.phase == Pending)
      && (b.nodeId.Some? ==> b.phase == Scheduled && b.placedAt == now && Home(nodes, b))
  {
    hide Open, Satisfies;
    var failed := if Forgets(nodes, agents, a) then [] else a.failed;
    var pick := PickNode(nodes, agents, a, failed);
    if pick.Some? { OpenIsHome(nodes, agents, pick.value, a, Place(nodes, agents, a, now)); }
  }

  lemma OpenIsHome(nodes: seq<Node>, agents: seq<Agent>, n: Node, a: Agent, b: Agent)
    requires n in nodes && Open(n, agents, a) && b.spec == a.spec && b.nodeId == Some(n.id)
    ensures Home(nodes, b)
  {
  }

  lemma StillClosed(nodes: seq<Node>, agents: seq<Agent>, a: Agent, b: Agent)
    requires a.spec == b.spec && forall n :: n in nodes ==> !Open(n, agents, a)
    ensures forall n :: n in nodes ==> !Open(n, agents, b)
  {
  }

  lemma SameIndex(agents: seq<Agent>, k: nat)
    requires DistinctAgents(agents) && k < |agents|
    ensures IndexOfAgent(agents, agents[k].id) == k
  {
  }

  lemma OtherIndex(agents: seq<Agent>, k: nat, id: AgentId)
    requires k < |agents| && agents[k].id != id
    ensures IndexOfAgent(agents, id) != k
  {
  }

  /** A created agent is not wanted and nowhere, has failed nothing and holds no session; one whose id is
      taken is not created. A deleted one is gone. No other record changes. */
  lemma CreateMeans(s: State, id: AgentId, spec: Spec, cfg: Config, H: Token -> Fence.Hash)
    ensures var agents := Apply(s, Create(id, spec), cfg, H).agents;
      && s.agents <= agents
      && (agents == s.agents <==> exists k :: 0 <= k < |s.agents| && s.agents[k].id == id)
      && (agents != s.agents ==>
            var b := agents[|s.agents|];
            && |agents| == |s.agents| + 1 && b.id == id && b.spec == spec && !b.desired
            && b.nodeId.None? && b.session.None? && b.failed == [] && b.attempts == 0)
  {
  }

  lemma DeleteMeans(s: State, id: AgentId, cfg: Config, H: Token -> Fence.Hash, a: Agent)
    requires DistinctAgents(s.agents)
    ensures a in Apply(s, Delete(id), cfg, H).agents <==> a in s.agents && a.id != id
  {
    var k := IndexOfAgent(s.agents, id);
    if k >= 0 {
      var front, back := s.agents[..k], s.agents[k + 1..];
      assert s.agents == front + [s.agents[k]] + back;
    }
  }

  // ---------------------------------------------------------------------------------------------
  // Registration and trust
  // ---------------------------------------------------------------------------------------------

  /** A registered node is live, heard now, with the sandbox and budget it declares; a new one is not
      trusted, an old one as it was; the others are not touched. */
  lemma RegisterMeans(nodes: seq<Node>, id: NodeId, sandbox: string, maxAgents: int, now: int, m: Node)
    requires DistinctNodes(nodes)
    ensures var after := Registered(nodes, id, sandbox, maxAgents, now);
      && (m in after && m.id == id ==>
            && m.status.Up? && m.lastSeen == now && m.sandbox == sandbox && m.maxAgents == maxAgents
            && (m.trusted <==> exists n :: n in nodes && n.id == id && n.trusted))
      && (m.id != id ==> (m in after <==> m in nodes))
      && (exists n :: n in after && n.id == id)
  {
    var i, after := IndexOfNode(nodes, id), Registered(nodes, id, sandbox, maxAgents, now);
    if i < 0 {
      assert after[|nodes|].id == id;
    } else {
      assert after[i].id == id && nodes[i] in nodes;
      forall j | 0 <= j < |nodes| && nodes[j].id == id ensures j == i {}
      if m.id != id && m in nodes {
        var j :| 0 <= j < |nodes| && nodes[j] == m;
        assert after[j] == m;
      }
    }
  }

  /** Whether the history of a run leaves a node trusted: its administrator's last word since it first
      registered. */
  function TrustGiven(es: seq<Event>, id: NodeId): bool {
    if es == [] then false
    else
      var before, last := es[..|es| - 1], es[|es| - 1];
      if last.Trust? && last.id == id && HasRegistered(before, id) then last.trusted else TrustGiven(before, id)
  }

  predicate HasRegistered(es: seq<Event>, id: NodeId) {
    exists i :: 0 <= i < |es| && es[i].Register? && es[i].id == id
  }

  lemma {:induction false} HasRegisteredPush(es: seq<Event>, e: Event, id: NodeId)
    ensures HasRegistered(es + [e], id) <==> HasRegistered(es, id) || (e.Register? && e.id == id)
  {
    if HasRegistered(es, id) {
      var i :| 0 <= i < |es| && es[i].Register? && es[i].id == id;
      assert (es + [e])[i] == es[i];
    }
    if e.Register? && e.id == id { assert (es + [e])[|es|] == e; }
  }

  ghost predicate Trusted(nodes: seq<Node>, id: NodeId) {
    exists n :: n in nodes && n.id == id && n.trusted
  }

  ghost predicate Listed(nodes: seq<Node>, id: NodeId) {
    exists n :: n in nodes && n.id == id
  }

  /** In every run a node is trusted exactly if its administrator's last word says so. No registration,
      heartbeat or sweep grants or takes trust. */
  lemma {:induction false} TrustIff(es: seq<Event>, cfg: Config, H: Token -> Fence.Hash, id: NodeId)
    ensures DistinctNodes(Run(es, cfg, H).nodes)
    ensures Listed(Run(es, cfg, H).nodes, id) <==> HasRegistered(es, id)
    ensures Trusted(Run(es, cfg, H).nodes, id) <==> TrustGiven(es, id)
  {
    if es != [] {
      hide Apply, DistinctNodes, Listed, Trusted, HasRegistered;
      var before, last := es[..|es| - 1], es[|es| - 1];
      TrustIff(before, cfg, H, id);
      assert before + [last] == es;
      HasRegisteredPush(before, last, id);
      TrustStep(Run(before, cfg, H), last, cfg, H, id);
    }
  }

  lemma TrustStep(s: State, e: Event, cfg: Config, H: Token -> Fence.Hash, id: NodeId)
    requires DistinctNodes(s.nodes)
    ensures var nodes := Apply(s, e, cfg, H).nodes;
      && DistinctNodes(nodes)
      && (Listed(nodes, id) <==> Listed(s.nodes, id) || (e.Register? && e.id == id))
      && (Trusted(nodes, id) <==>
            if e.Trust? && e.id == id && Listed(s.nodes, id) then e.trusted else Trusted(s.nodes, id))
  {
    Rotation.NodesKept(s, e, cfg, H);
    hide BeatResult, Swept, Place, Rotated;
    var nodes := Apply(s, e, cfg, H).nodes;
    match e
    case Register(n, sandbox, maxAgents, now) => RegisterTrust(s.nodes, n, sandbox, maxAgents, now, id);
    case Trust(n, trusted) => SetTrust(s.nodes, n, trusted, id);
    case Beat(n, running, now, _) =>
      var i := IndexOfNode(s.nodes, n);
      if i >= 0 { SameTrust(s.nodes, nodes, id); }
    case Sweep(t) => SameTrust(s.nodes, nodes, id);
    case _ =>
  }

  /** Tables that differ in other fields only. */
  lemma SameTrust(before: seq<Node>, after: seq<Node>, id: NodeId)
    requires |after| == |before|
    requires forall i :: 0 <= i < |before| ==> after[i].id == before[i].id && after[i].trusted == before[i].trusted
    ensures (Listed(after, id) <==> Listed(before, id)) && (Trusted(after, id) <==> Trusted(before, id))
  {
    forall n | n in before && n.id == id ensures Listed(after, id) && (n.trusted ==> Trusted(after, id)) {
      var i :| 0 <= i < |before| && before[i] == n;
      assert after[i] in after;
    }
    forall n | n in after && n.id == id ensures Listed(before, id) && (n.trusted ==> Trusted(before, id)) {
      var i :| 0 <= i < |after| && after[i] == n;
      assert before[i] in before;
    }
  }

  lemma RegisterTrust(nodes: seq<Node>, n: NodeId, sandbox: string, maxAgents: int, now: int, id: NodeId)
    requires DistinctNodes(nodes)
    ensures var after := Registered(nodes, n, sandbox, maxAgents, now);
      && (Listed(after, id) <==> Listed(nodes, id) || n == id) && (Trusted(after, id) <==> Trusted(nodes, id))
  {
    hide Registered;
    var after := Registered(nodes, n, sandbox, maxAgents, now);
    forall m: Node ensures m.id == id && m.id != n ==> (m in after <==> m in nodes) {
      RegisterMeans(nodes, n, sandbox, maxAgents, now, m);
    }
    forall m | m in after && m.id == n ensures m.trusted <==> Trusted(nodes, n) {
      RegisterMeans(nodes, n, sandbox, maxAgents, now, m);
    }
    RegisterMeans(nodes, n, sandbox, maxAgents, now, Node(n, sandbox, false, maxAgents, Up, now));
  }

  lemma SetTrust(nodes: seq<Node>, n: NodeId, trusted: bool, id: NodeId)
    requires DistinctNodes(nodes)
    ensures var i := IndexOfNode(nodes, n);
      var after := if i < 0 then nodes else nodes[i := Attested(nodes[i], trusted)];
      && (Listed(after, id) <==> Listed(nodes, id))
      && (Trusted(after, id) <==> if n == id && Listed(nodes, id) then trusted else Trusted(nodes, id))
  {
    var i := IndexOfNode(nodes, n);
    if i >= 0 {
      var after := nodes[i := Attested(nodes[i], trusted)];
      assert after[i].id == n && after[i] in after && nodes[i] in nodes;
      if n != id {
        forall m: Node | m.id == id ensures m in after <==> m in nodes {
          if m in nodes {
            var j :| 0 <= j < |nodes| && nodes[j] == m;
            assert after[j] == m;
          }
        }
      } else {
        forall m | m in after && m.id == id ensures m == after[i] {
          var j :| 0 <= j < |after| && after[j] == m;
          assert nodes[j].id == n;
        }
      }
    }
  }
}
