/** The watchdog's memory: an agent is never placed on a node that failed it since the memory was last
    cleared, and the memory is only cleared for a reason. */
module Rotation {
  import opened Bytes
  import opened Proto
  import opened ControlPlane
  import opened Placement
  import opened Cloud
  import Fence

  predicate Known(nodes: seq<Node>, n: NodeId) {
    exists i :: 0 <= i < |nodes| && nodes[i].id == n
  }

  /** Not on a node that failed it; the failures are distinct registered nodes. */
  ghost predicate Rotates(nodes: seq<Node>, a: Agent) {
    && (a.nodeId.Some? ==> a.nodeId.value !in a.failed && Known(nodes, a.nodeId.value))
    && DistinctIds(a.failed)
    && (forall n :: n in a.failed ==> Known(nodes, n))
  }

  ghost predicate AllRotate(s: State) {
    && DistinctNodes(s.nodes) && DistinctAgents(s.agents)
    && forall a :: a in s.agents ==> Rotates(s.nodes, a)
  }

  /** No node id is forgotten. */
  ghost predicate Keeps(before: seq<Node>, after: seq<Node>) {
    forall n :: Known(before, n) ==> Known(after, n)
  }

  lemma RotatesLater(before: seq<Node>, after: seq<Node>, a: Agent)
    requires Keeps(before, after) && Rotates(before, a)
    ensures Rotates(after, a)
  {
  }

  lemma PlaceRotates(nodes: seq<Node>, agents: seq<Agent>, a: Agent, t: int)
    requires Rotates(nodes, a)
    ensures Rotates(nodes, Place(nodes, agents, a, t))
  {
    var failed := if Forgets(nodes, agents, a) then [] else a.failed;
    var pick := PickNode(nodes, agents, a, failed);
    if pick.Some? {
      var i :| 0 <= i < |nodes| && nodes[i] == pick.value;
      assert Known(nodes, pick.value.id);
    }
  }

  lemma FreedRotates(nodes: seq<Node>, a: Agent, t: int, cfg: Config)
    requires Rotates(nodes, a)
    ensures Rotates(nodes, Freed(nodes, a, t, cfg))
  {
  }

  lemma {:induction false} PlaceFromRotates(nodes: seq<Node>, agents: seq<Agent>, k: nat, t: int)
    requires k <= |agents| && forall a :: a in agents ==> Rotates(nodes, a)
    ensures forall a :: a in PlaceFrom(nodes, agents, k, t) ==> Rotates(nodes, a)
    decreases |agents| - k
  {
    if k < |agents| {
      hide Place, Rotates;
      assert agents[k] in agents;
      PlaceRotates(nodes, agents, agents[k], t);
      PlaceFromRotates(nodes, Turn(nodes, agents, k, t), k + 1, t);
    }
  }

  lemma BeatRotates(nodes: seq<Node>, agents: seq<Agent>, n: NodeId, running: seq<AgentId>, free: int, answers: Answers)
    requires forall a :: a in agents ==> Rotates(nodes, a)
    ensures forall a :: a in BeatAgents(agents, n, running, free, answers) ==> Rotates(nodes, a)
  {
    var after := BeatAgents(agents, n, running, free, answers);
    forall a | a in after ensures Rotates(nodes, a) {
      var k :| 0 <= k < |after| && after[k] == a;
      BeatAgentsAt(agents, n, running, free, answers, k);
      assert agents[k] in agents;
    }
  }

  lemma BeatKeepsIds(agents: seq<Agent>, n: NodeId, running: seq<AgentId>, free: int, answers: Answers)
    requires DistinctAgents(agents)
    ensures DistinctAgents(BeatAgents(agents, n, running, free, answers))
  {
    var after := BeatAgents(agents, n, running, free, answers);
    forall k | 0 <= k < |agents| ensures after[k].id == agents[k].id {
      BeatAgentsAt(agents, n, running, free, answers, k);
    }
  }

  lemma NodesKept(s: State, e: Event, cfg: Config, H: Token -> Fence.Hash)
    requires DistinctNodes(s.nodes)
    ensures Keeps(s.nodes, Apply(s, e, cfg, H).nodes) && DistinctNodes(Apply(s, e, cfg, H).nodes)
  {
    hide BeatResult, Swept, Place, Rotated;
    var s' := Apply(s, e, cfg, H);
    assert |s.nodes| <= |s'.nodes| && forall i :: 0 <= i < |s.nodes| ==> s'.nodes[i].id == s.nodes[i].id;
    forall n | Known(s.nodes, n) ensures Known(s'.nodes, n) {
      var i :| 0 <= i < |s.nodes| && s.nodes[i].id == n;
      assert s'.nodes[i].id == n;
    }
  }

  lemma SweepRotates(s: State, t: int, cfg: Config)
    requires AllRotate(s)
    ensures var agents := Swept(s.nodes, s.agents, t, cfg);
      && DistinctAgents(agents)
      && forall a :: a in agents ==> Rotates(DownNodes(s.nodes, t, cfg), a)
  {
    hide PlaceFrom, Rotates, Freed, DistinctNodes, DistinctAgents;
    var nodes := DownNodes(s.nodes, t, cfg);
    var freed := FreedAll(s.nodes, s.agents, t, cfg);
    DownKeepsKnown(s.nodes, t, cfg);
    forall a | a in freed ensures Rotates(nodes, a) {
      var k :| 0 <= k < |freed| && freed[k] == a;
      assert s.agents[k] in s.agents;
      FreedRotates(s.nodes, s.agents[k], t, cfg);
      RotatesLater(s.nodes, nodes, a);
    }
    PlaceFromRotates(nodes, freed, 0, t);
    DownKeepsDistinct(s.nodes, t, cfg);
    PlaceFromLemma(nodes, freed, 0, t);
    SweepKeepsIds(s.nodes, s.agents, t, cfg);
  }

  lemma DownKeepsKnown(nodes: seq<Node>, t: int, cfg: Config)
    ensures Keeps(nodes, DownNodes(nodes, t, cfg))
  {
    forall n | Known(nodes, n) ensures Known(DownNodes(nodes, t, cfg), n) {
      var i :| 0 <= i < |nodes| && nodes[i].id == n;
      assert DownNodes(nodes, t, cfg)[i].id == n;
    }
  }

  lemma SweepKeepsIds(nodes: seq<Node>, agents: seq<Agent>, t: int, cfg: Config)
    requires SameAgents(FreedAll(nodes, agents, t, cfg), Swept(nodes, agents, t, cfg))
    requires DistinctAgents(agents)
    ensures DistinctAgents(Swept(nodes, agents, t, cfg))
  {
    var freed := FreedAll(nodes, agents, t, cfg);
    forall k | 0 <= k < |agents| ensures Swept(nodes, agents, t, cfg)[k].id == agents[k].id {
      assert freed[k].id == agents[k].id;
    }
  }

  lemma StepRotates(s: State, e: Event, cfg: Config, H: Token -> Fence.Hash)
    requires AllRotate(s)
    ensures AllRotate(Apply(s, e, cfg, H))
  {
    hide Rotates, Place, BeatAgents, BeatOrders, Swept, Rotated, OrphanStops;
    var s' := Apply(s, e, cfg, H);
    NodesKept(s, e, cfg, H);
    match e
    case Sweep(t) => SweepRotates(s, t, cfg);
    case Beat(n, running, now, replies) =>
      var i := IndexOfNode(s.nodes, n);
      if i >= 0 {
        var free := s.nodes[i].maxAgents - |running|;
        BeatRotates(s.nodes, s.agents, n, running, free, AnswersOf(s.signer, replies));
        BeatKeepsIds(s.agents, n, running, free, AnswersOf(s.signer, replies));
        RotateLaterAll(s.nodes, s'.nodes, s'.agents);
      }
    case StartAgent(id, now) =>
      var k := IndexOfAgent(s.agents, id);
      if k >= 0 {
        var asked := s.agents[k := StartRequested(s.agents[k])];
        assert s.agents[k] in s.agents;
        assert Rotates(s.nodes, asked[k]) by { RotatesAlike(s.nodes, s.agents[k], asked[k]); }
        PlaceRotates(s.nodes, asked, asked[k], now);
      }
    case StopAgent(id) =>
      var k := IndexOfAgent(s.agents, id);
      if k >= 0 {
        assert s.agents[k] in s.agents;
        RotatesAlike(s.nodes, s.agents[k], StopRequested(s.agents[k]));
      }
    case Create(id, spec) =>
      NewRotates(s.nodes, id, spec);
    case Delete(id) =>
      WithoutKeeps(s.agents, id);
    case Register(_, _, _, _) =>
      RotateLaterAll(s.nodes, s'.nodes, s.agents);
    case Trust(_, _) =>
      RotateLaterAll(s.nodes, s'.nodes, s.agents);
  }

  lemma RotatesAlike(nodes: seq<Node>, a: Agent, b: Agent)
    requires Rotates(nodes, a) && b.nodeId == a.nodeId && b.failed == a.failed
    ensures Rotates(nodes, b)
  {
  }

  lemma NewRotates(nodes: seq<Node>, id: AgentId, spec: Spec)
    ensures Rotates(nodes, NewAgent(id, spec))
  {
  }

  lemma RotateLaterAll(before: seq<Node>, after: seq<Node>, agents: seq<Agent>)
    requires Keeps(before, after) && forall a :: a in agents ==> Rotates(before, a)
    ensures forall a :: a in agents ==> Rotates(after, a)
  {
    hide Rotates;
    forall a | a in agents ensures Rotates(after, a) {
      RotatesLater(before, after, a);
    }
  }

  lemma WithoutKeeps(agents: seq<Agent>, id: AgentId)
    ensures forall a :: a in Without(agents, id) ==> a in agents
    ensures DistinctAgents(agents) ==> DistinctAgents(Without(agents, id))
  {
  }

  /** In every reachable state no agent is on a node that failed it, and what failed it are distinct
      registered nodes. */
  lemma {:induction false} RunRotates(es: seq<Event>, cfg: Config, H: Token -> Fence.Hash)
    ensures AllRotate(Run(es, cfg, H))
  {
    if es != [] {
      RunRotates(es[..|es| - 1], cfg, H);
      StepRotates(Run(es[..|es| - 1], cfg, H), es[|es| - 1], cfg, H);
    }
  }

  // ---------------------------------------------------------------------------------------------
  // Between two clears
  // ---------------------------------------------------------------------------------------------

  /** The node the watchdog bounces this agent off in this step, if any. */
  function Bounce(s: State, e: Event, a: Agent, cfg: Config): seq<NodeId> {
    if e.Sweep? && !Lost(s.nodes, a, e.t, cfg) && Stuck(a, e.t, cfg) then [a.nodeId.value] else []
  }

  /** Every live, suitable node with a free slot in this table has failed the agent. */
  ghost predicate NoneUntried(nodes: seq<Node>, table: seq<Agent>, a: Agent) {
    forall n :: n in nodes && Open(n, table, a) ==> n.id in a.failed
  }

  lemma ForgetsIff(nodes: seq<Node>, table: seq<Agent>, a: Agent)
    ensures Forgets(nodes, table, a)
       <==> a.desired && !OnLiveNode(nodes, a) && a.failed != [] && NoneUntried(nodes, table, a)
  {
    hide Open;
    if NoneUntried(nodes, table, a) {
      assert forall n :: n in nodes ==> !Candidate(n, table, a, a.failed);
    }
    if PickNode(nodes, table, a, a.failed).None? {
      forall n | n in nodes && Open(n, table, a) ensures n.id in a.failed {
        assert !Candidate(n, table, a, a.failed);
      }
    }
  }

  /** The table as the placing pass finds it when it comes to agent j. */
  function PlacedTo(nodes: seq<Node>, agents: seq<Agent>, k: nat, j: nat, t: int): (r: seq<Agent>)
    requires k <= j <= |agents|
    ensures |r| == |agents| && forall i :: j <= i < |agents| ==> r[i] == agents[i]
    decreases j - k
  {
    if k == j then agents else PlacedTo(nodes, Turn(nodes, agents, k, t), k + 1, j, t)
  }

  lemma {:induction false} PlaceFromKeeps(nodes: seq<Node>, agents: seq<Agent>, k: nat, t: int, j: nat)
    requires j < k <= |agents|
    ensures PlaceFrom(nodes, agents, k, t)[j] == agents[j]
    decreases |agents| - k
  {
    hide Place;
    if k < |agents| { PlaceFromKeeps(nodes, Turn(nodes, agents, k, t), k + 1, t, j); }
  }

  /** What the pass makes of agent j is decided on that table. */
  lemma {:induction false} PlaceFromAt(nodes: seq<Node>, agents: seq<Agent>, k: nat, t: int, j: nat)
    requires k <= j < |agents|
    ensures PlaceFrom(nodes, agents, k, t)[j] == Turn(nodes, PlacedTo(nodes, agents, k, j, t), j, t)[j]
    decreases j - k
  {
    hide Place;
    var next := Turn(nodes, agents, k, t);
    assert PlaceFrom(nodes, agents, k, t) == PlaceFrom(nodes, next, k + 1, t);
    if k == j {
      PlaceFromKeeps(nodes, next, k + 1, t, j);
    } else {
      PlaceFromAt(nodes, next, k + 1, t, j);
    }
  }

  /** The steps that forget an agent's failures, told from the state before: its node reports it
      running; or it is being placed, is on no live node, and every suitable live node with a free
      slot has failed it, in the table as it is when its turn comes. */
  ghost predicate Clears(s: State, e: Event, a: Agent, cfg: Config) {
    match e
    case Beat(n, running, _, _) =>
      IndexOfNode(s.nodes, n) >= 0 && a.nodeId == Some(n) && a.desired && a.id in running && a.failed != []
    case Sweep(t) =>
      var k := IndexOfAgent(s.agents, a.id);
      var nodes, freed, f := DownNodes(s.nodes, t, cfg), FreedAll(s.nodes, s.agents, t, cfg), Freed(s.nodes, a, t, cfg);
      && k >= 0 && Waiting(f) && !OnLiveNode(nodes, f) && f.failed != []
      && NoneUntried(nodes, PlacedTo(nodes, freed, 0, k, t), f)
    case StartAgent(id, _) =>
      var k := IndexOfAgent(s.agents, id);
      && id == a.id && k >= 0 && !OnLiveNode(s.nodes, a) && a.failed != []
      && NoneUntried(s.nodes, s.agents[k := StartRequested(s.agents[k])], a)
    case _ => false
  }

  lemma IndexOf(agents: seq<Agent>, a: Agent)
    requires DistinctAgents(agents) && a in agents
    ensures var k := IndexOfAgent(agents, a.id); k >= 0 && agents[k] == a
  {
  }

  lemma SweepMemory(s: State, t: int, a: Agent, a': Agent, cfg: Config)
    requires AllRotate(s) && a in s.agents && a' in Swept(s.nodes, s.agents, t, cfg) && a.id == a'.id
    ensures a'.failed == if Clears(s, Sweep(t), a, cfg) then [] else a.failed + Bounce(s, Sweep(t), a, cfg)
  {
    hide PlaceFrom, PlacedTo, Place, Rotates, Known, NoneUntried, OnLiveNode;
    var nodes, freed, after := DownNodes(s.nodes, t, cfg), FreedAll(s.nodes, s.agents, t, cfg),
      Swept(s.nodes, s.agents, t, cfg);
    DownKeepsDistinct(s.nodes, t, cfg);
    PlaceFromLemma(nodes, freed, 0, t);
    IndexOf(s.agents, a);
    var k := IndexOfAgent(s.agents, a.id);
    var j :| 0 <= j < |after| && after[j] == a';
    assert s.agents[j].id == a.id && j == k;
    FreedMemory(s, t, a, cfg);
    var f := Freed(s.nodes, a, t, cfg);
    var table := PlacedTo(nodes, freed, 0, k, t);
    PlaceFromAt(nodes, freed, 0, t, k);
    assert table[k] == f;
    ForgetsIff(nodes, table, f);
    PlaceMemory(nodes, table, f, t);
  }

  lemma PlaceMemory(nodes: seq<Node>, table: seq<Agent>, a: Agent, t: int)
    ensures Place(nodes, table, a, t).failed == if Forgets(nodes, table, a) then [] else a.failed
  {
  }

  lemma FreedMemory(s: State, t: int, a: Agent, cfg: Config)
    requires Rotates(s.nodes, a)
    ensures Freed(s.nodes, a, t, cfg).failed == a.failed + Bounce(s, Sweep(t), a, cfg)
  {
    assert a.failed + [] == a.failed;
  }

  lemma BeatMemory(s: State, e: Event, a: Agent, a': Agent, cfg: Config, H: Token -> Fence.Hash)
    requires AllRotate(s) && e.Beat?
    requires a in s.agents && a' in Apply(s, e, cfg, H).agents && a.id == a'.id
    ensures a'.failed == if Clears(s, e, a, cfg) then [] else a.failed
  {
    hide BeatAgents, BeatOrders, OrphanStops, Open, Rotates;
    var i := IndexOfNode(s.nodes, e.node);
    if i >= 0 {
      var after := Apply(s, e, cfg, H).agents;
      var k :| 0 <= k < |after| && after[k] == a';
      BeatAgentsAt(s.agents, e.node, e.running, s.nodes[i].maxAgents - |e.running|, AnswersOf(s.signer, e.replies), k);
      assert s.agents[k] == a;
    }
  }

  lemma StartMemory(s: State, e: Event, a: Agent, a': Agent, cfg: Config, H: Token -> Fence.Hash)
    requires AllRotate(s) && e.StartAgent?
    requires a in s.agents && a' in Apply(s, e, cfg, H).agents && a.id == a'.id
    ensures a'.failed == if Clears(s, e, a, cfg) then [] else a.failed
  {
    hide Assigned, Rotates, Place, Open;
    var k := IndexOfAgent(s.agents, e.id);
    if k >= 0 {
      var asked := s.agents[k := StartRequested(s.agents[k])];
      var after := Apply(s, e, cfg, H).agents;
      var j :| 0 <= j < |after| && after[j] == a';
      assert s.agents[j].id == a.id;
      assert s.agents[j] == a;
      if e.id == a.id {
        assert j == k;
        PlaceMemory(s.nodes, asked, asked[k], e.now);
        ForgetsIff(s.nodes, asked, asked[k]);
        SameOpen(s.nodes, asked, asked[k], a);
      }
    }
  }

  lemma SameOpen(nodes: seq<Node>, table: seq<Agent>, a: Agent, b: Agent)
    requires a.spec == b.spec && a.failed == b.failed
    ensures NoneUntried(nodes, table, a) <==> NoneUntried(nodes, table, b)
  {
    forall n: Node ensures Open(n, table, a) <==> Open(n, table, b) {}
  }

  /** What each step makes of an agent's failures, exactly: all forgotten in a clearing step, else
      kept with the node the watchdog bounced it off added. */
  lemma StepMemory(s: State, e: Event, a: Agent, a': Agent, cfg: Config, H: Token -> Fence.Hash)
    requires AllRotate(s) && a in s.agents && a' in Apply(s, e, cfg, H).agents && a.id == a'.id
    ensures a'.failed == if Clears(s, e, a, cfg) then [] else a.failed + Bounce(s, e, a, cfg)
  {
    hide Place, BeatAgents, BeatOrders, Swept, Rotated, OrphanStops, Rotates, Known, Bounce, NoneUntried, PlacedTo,
      Freed, FreedAll;
    if !e.Sweep? { NoBounce(s, e, a, cfg); }
    match e
    case Sweep(t) => SweepMemory(s, t, a, a', cfg);
    case Beat(_, _, _, _) => BeatMemory(s, e, a, a', cfg, H);
    case StartAgent(_, _) => StartMemory(s, e, a, a', cfg, H);
    case Delete(id) => WithoutKeeps(s.agents, id);
    case _ =>
  }

  lemma NoBounce(s: State, e: Event, a: Agent, cfg: Config)
    requires !e.Sweep?
    ensures a.failed + Bounce(s, e, a, cfg) == a.failed
  {
  }

  /** An agent's record in a state, if it has one. */
  function Record(s: State, id: AgentId): (r: Option<Agent>)
    ensures r.Some? ==> r.value in s.agents && r.value.id == id
  {
    var k := IndexOfAgent(s.agents, id);
    if k < 0 then None else Some(s.agents[k])
  }

  function At(es: seq<Event>, m: nat, cfg: Config, H: Token -> Fence.Hash): State
    requires m <= |es|
  {
    Run(es[..m], cfg, H)
  }

  /** The bounces of an agent in steps i to j of a run. */
  function Bounces(es: seq<Event>, i: nat, j: nat, id: AgentId, cfg: Config, H: Token -> Fence.Hash): seq<NodeId>
    requires i <= j <= |es|
  {
    if i == j then []
    else
      var s := At(es, j - 1, cfg, H);
      var last := match Record(s, id) case Some(a) => Bounce(s, es[j - 1], a, cfg) case None => [];
      Bounces(es, i, j - 1, id, cfg, H) + last
  }

  /** The agent exists through steps i to j and none of them clears its failures. */
  ghost predicate Uncleared(es: seq<Event>, i: nat, j: nat, id: AgentId, cfg: Config, H: Token -> Fence.Hash)
    requires i <= j <= |es|
  {
    && (forall m :: i <= m <= j ==> Record(At(es, m, cfg, H), id).Some?)
    && (forall m :: i <= m < j ==> !Clears(At(es, m, cfg, H), es[m], Record(At(es, m, cfg, H), id).value, cfg))
  }

  /** Between clears what is remembered is what the watchdog did, in order. */
  lemma {:induction false} MemoryIsBounces(es: seq<Event>, i: nat, j: nat, id: AgentId, cfg: Config,
                                           H: Token -> Fence.Hash)
    requires i <= j <= |es| && Uncleared(es, i, j, id, cfg, H)
    ensures Record(At(es, j, cfg, H), id).value.failed
         == Record(At(es, i, cfg, H), id).value.failed + Bounces(es, i, j, id, cfg, H)
    decreases j - i
  {
    hide Record, Bounce, Clears, At;
    if i < j {
      MemoryIsBounces(es, i, j - 1, id, cfg, H);
      LastStepMemory(es, j, id, cfg, H);
    }
  }

  lemma LastStepMemory(es: seq<Event>, j: nat, id: AgentId, cfg: Config, H: Token -> Fence.Hash)
    requires 1 <= j <= |es|
    requires Record(At(es, j - 1, cfg, H), id).Some? && Record(At(es, j, cfg, H), id).Some?
    requires !Clears(At(es, j - 1, cfg, H), es[j - 1], Record(At(es, j - 1, cfg, H), id).value, cfg)
    ensures var a := Record(At(es, j - 1, cfg, H), id).value;
      Record(At(es, j, cfg, H), id).value.failed == a.failed + Bounce(At(es, j - 1, cfg, H), es[j - 1], a, cfg)
  {
    hide Record, Bounce, Clears, Apply, AllRotate;
    var s := At(es, j - 1, cfg, H);
    assert es[..j][..j - 1] == es[..j - 1];
    assert At(es, j, cfg, H) == Apply(s, es[j - 1], cfg, H);
    RunRotates(es[..j - 1], cfg, H);
    StepMemory(s, es[j - 1], Record(s, id).value, Record(At(es, j, cfg, H), id).value, cfg, H);
  }

  lemma KnownIdsCount(nodes: seq<Node>, ids: seq<NodeId>)
    requires DistinctIds(ids) && forall n :: n in ids ==> Known(nodes, n)
    ensures |ids| <= |nodes|
  {
    var names := seq(|nodes|, i requires 0 <= i < |nodes| => nodes[i].id);
    var sub := set n | n in ids;
    DistinctSetSize(ids);
    forall n | n in sub ensures n in names {
      var i :| 0 <= i < |nodes| && nodes[i].id == n;
      assert names[i] == n;
    }
    SetOfSeqSize(names, sub);
  }

  lemma {:induction false} DistinctSetSize(ids: seq<NodeId>)
    requires DistinctIds(ids)
    ensures |set n | n in ids| == |ids|
  {
    if ids != [] {
      var rest := ids[1..];
      DistinctSetSize(rest);
      assert (set n | n in ids) == (set n | n in rest) + {ids[0]};
    }
  }

  /** Between two clears the watchdog bounces an agent off pairwise different nodes, and no more often
      than there are nodes. */
  lemma BouncesRotate(es: seq<Event>, i: nat, j: nat, id: AgentId, cfg: Config, H: Token -> Fence.Hash)
    requires i <= j <= |es| && Uncleared(es, i, j, id, cfg, H)
    ensures DistinctIds(Bounces(es, i, j, id, cfg, H))
    ensures |Bounces(es, i, j, id, cfg, H)| <= |At(es, j, cfg, H).nodes|
    ensures forall n :: n in Bounces(es, i, j, id, cfg, H) ==> n !in Record(At(es, i, cfg, H), id).value.failed
  {
    hide Bounces, Run;
    MemoryIsBounces(es, i, j, id, cfg, H);
    RunRotates(es[..j], cfg, H);
    var s := At(es, j, cfg, H);
    var a := Record(s, id).value;
    var front, bs := Record(At(es, i, cfg, H), id).value.failed, Bounces(es, i, j, id, cfg, H);
    assert Rotates(s.nodes, a);
    KnownIdsCount(s.nodes, a.failed);
    forall x, y | 0 <= x < y < |bs| ensures bs[x] != bs[y] {
      assert a.failed[|front| + x] == bs[x] && a.failed[|front| + y] == bs[y];
    }
    forall n | n in bs ensures n !in front {
      var x :| 0 <= x < |bs| && bs[x] == n;
      assert a.failed[|front| + x] == n;
      forall y | 0 <= y < |front| ensures front[y] != n {
        assert a.failed[y] == front[y];
      }
    }
  }
}
