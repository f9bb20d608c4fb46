/** What one sweep and one heartbeat guarantee about placement and capacity. */
module Placement {
  import opened Bytes
  import opened Proto
  import opened ControlPlane

  // ---------------------------------------------------------------------------------------------
  // The sweep is capacity-safe and work-conserving
  // ---------------------------------------------------------------------------------------------

  /** No table loses agents or changes what an agent is. */
  ghost predicate SameAgents(before: seq<Agent>, after: seq<Agent>) {
    && |before| == |after|
    && forall k :: 0 <= k < |before| ==>
         after[k].id == before[k].id && after[k].spec == before[k].spec && after[k].desired == before[k].desired
  }

  /** Counts stay within budget or do not grow; on a live node they never shrink. */
  ghost predicate Fills(nodes: seq<Node>, before: seq<Agent>, after: seq<Agent>) {
    forall n :: n in nodes ==>
      && Assigned(after, n.id) <= Max(n.maxAgents, Assigned(before, n.id))
      && (n.status.Up? ==> Assigned(before, n.id) <= Assigned(after, n.id))
  }

  lemma LiveNodeFound(nodes: seq<Node>, n: Node)
    requires DistinctNodes(nodes) && n in nodes
    ensures FindNode(nodes, n.id) == Some(n)
  {
    var i :| 0 <= i < |nodes| && nodes[i] == n;
    var f := FindNode(nodes, n.id).value;
    var j :| 0 <= j < |nodes| && nodes[j] == f;
    assert nodes[j].id == nodes[i].id;
  }

  lemma PlaceFills(nodes: seq<Node>, agents: seq<Agent>, k: nat, t: int)
    requires DistinctNodes(nodes) && k < |agents|
    ensures Fills(nodes, agents, agents[k := Place(nodes, agents, agents[k], t)])
  {
    var a := agents[k];
    var b := Place(nodes, agents, a, t);
    forall n | n in nodes
      ensures Assigned(agents[k := b], n.id) <= Max(n.maxAgents, Assigned(agents, n.id))
      ensures n.status.Up? ==> Assigned(agents, n.id) <= Assigned(agents[k := b], n.id)
    {
      AssignedUpdate(agents, k, b, n.id);
      LiveNodeFound(nodes, n);
      if On(b, n.id) && !On(a, n.id) {
        var picked := PickNode(nodes, agents, a, b.failed).value;
        LiveNodeFound(nodes, picked);
      }
    }
  }

  /** An agent left without a node by `Place` had no open node. */
  lemma PlaceGivesUp(nodes: seq<Node>, agents: seq<Agent>, a: Agent, t: int)
    requires a.desired && Place(nodes, agents, a, t).nodeId.None?
    ensures forall n :: n in nodes ==> !Open(n, agents, a)
  {
    var failed := if Forgets(nodes, agents, a) then [] else a.failed;
    assert PickNode(nodes, agents, a, failed).None?;
    assert failed == [];
    forall n | n in nodes ensures !Open(n, agents, a) {
      assert !Candidate(n, agents, a, []);
    }
  }

  /** A placement only ever names a live node that passes the rule. */
  lemma PlaceTarget(nodes: seq<Node>, agents: seq<Agent>, a: Agent, t: int)
    ensures var b := Place(nodes, agents, a, t);
      b.nodeId.Some? ==> b == a || Home(nodes, b)
  {
  }

  ghost predicate Home(nodes: seq<Node>, a: Agent) {
    && a.nodeId.Some?
    && exists n :: n in nodes && n.id == a.nodeId.value && n.status.Up? && Satisfies(n.sandbox, n.trusted, a.spec)
  }

  ghost predicate Settled(nodes: seq<Node>, agents: seq<Agent>, a: Agent) {
    a.desired && a.nodeId.None? ==> forall n :: n in nodes ==> !Open(n, agents, a)
  }

  lemma FillsTrans(nodes: seq<Node>, a: seq<Agent>, b: seq<Agent>, c: seq<Agent>)
    requires Fills(nodes, a, b) && Fills(nodes, b, c)
    ensures Fills(nodes, a, c)
  {
  }

  lemma SettledLater(nodes: seq<Node>, before: seq<Agent>, after: seq<Agent>, a: Agent)
    requires Fills(nodes, before, after) && Settled(nodes, before, a)
    ensures Settled(nodes, after, a)
  {
    if a.desired && a.nodeId.None? {
      forall n | n in nodes ensures !Open(n, after, a) {
        assert !Open(n, before, a);
      }
    }
  }

  /** One turn of the placing pass. */
  lemma TurnStep(nodes: seq<Node>, agents: seq<Agent>, k: nat, t: int)
    requires DistinctNodes(nodes) && k < |agents|
    ensures var next := Turn(nodes, agents, k, t);
      && SameAgents(agents, next) && Fills(nodes, agents, next)
      && (next[k].nodeId.Some? ==> next[k] == agents[k] || Home(nodes, next[k]))
      && Settled(nodes, next, next[k])
  {
    hide PickNode, Open, Assigned;
    if Waiting(agents[k]) {
      PlaceFills(nodes, agents, k, t);
      PlaceTarget(nodes, agents, agents[k], t);
      PlaceSettles(nodes, agents, k, t);
    }
  }

  lemma {:induction false} PlaceFromLemma(nodes: seq<Node>, agents: seq<Agent>, k: nat, t: int)
    requires DistinctNodes(nodes) && k <= |agents|
    ensures var after := PlaceFrom(nodes, agents, k, t);
      && SameAgents(agents, after)
      && Fills(nodes, agents, after)
      && (forall j :: 0 <= j < k ==> after[j] == agents[j])
      && (forall j :: k <= j < |agents| && after[j].nodeId.Some? ==> after[j] == agents[j] || Home(nodes, after[j]))
      && (forall j :: k <= j < |agents| ==> Settled(nodes, after, after[j]))
    decreases |agents| - k
  {
    if k < |agents| {
      hide Turn, Open, Assigned, Fills, Settled, Home;
      var next := Turn(nodes, agents, k, t);
      var after := PlaceFrom(nodes, next, k + 1, t);
      PlaceFromLemma(nodes, next, k + 1, t);
      TurnStep(nodes, agents, k, t);
      FillsTrans(nodes, agents, next, after);
      assert after[k] == next[k];
      SettledLater(nodes, next, after, next[k]);
    }
  }

  lemma PlaceSettles(nodes: seq<Node>, agents: seq<Agent>, k: nat, t: int)
    requires DistinctNodes(nodes) && k < |agents|
    ensures var b := if Waiting(agents[k]) then Place(nodes, agents, agents[k], t) else agents[k];
      Settled(nodes, agents[k := b], b)
  {
    var a := agents[k];
    if Waiting(a) {
      var b := Place(nodes, agents, a, t);
      if b.nodeId.None? && b.desired {
        PlaceGivesUp(nodes, agents, a, t);
        PlaceFills(nodes, agents, k, t);
        assert Settled(nodes, agents, b);
        SettledLater(nodes, agents, agents[k := b], b);
      }
    }
  }

  lemma DownKeepsDistinct(nodes: seq<Node>, t: int, cfg: Config)
    requires DistinctNodes(nodes)
    ensures DistinctNodes(DownNodes(nodes, t, cfg))
  {
  }

  /** One whole sweep: no node ends above both its budget and its earlier count; an agent that is
      assigned kept its place or sits on a live node that passes the placement rule; and no agent
      that should run is left without a node while some live, suitable node has a free slot. */
  lemma SweepSafeAndWorkConserving(nodes: seq<Node>, agents: seq<Agent>, t: int, cfg: Config)
    requires DistinctNodes(nodes)
    ensures var nodes' := DownNodes(nodes, t, cfg); var after := Swept(nodes, agents, t, cfg);
      && SameAgents(agents, after)
      && (forall n :: n in nodes' ==> Assigned(after, n.id) <= Max(n.maxAgents, Assigned(agents, n.id)))
      && (forall k :: 0 <= k < |agents| && after[k].nodeId.Some? ==>
            || (after[k] == agents[k] && !Lost(nodes, agents[k], t, cfg) && !Stuck(agents[k], t, cfg))
            || Home(nodes', after[k]))
      && (forall k :: 0 <= k < |agents| && after[k].desired && after[k].nodeId.None? ==>
            forall n :: n in nodes' ==> !Open(n, after, after[k]))
  {
    hide PlaceFrom, Assigned, Open, Satisfies;
    var nodes' := DownNodes(nodes, t, cfg);
    var freed := FreedAll(nodes, agents, t, cfg);
    var after := Swept(nodes, agents, t, cfg);
    DownKeepsDistinct(nodes, t, cfg);
    PlaceFromLemma(nodes', freed, 0, t);
    forall n | n in nodes' ensures Assigned(after, n.id) <= Max(n.maxAgents, Assigned(agents, n.id)) {
      AssignedFewer(agents, freed, n.id);
    }
    forall k | 0 <= k < |agents| && after[k].desired && after[k].nodeId.None?
      ensures forall n :: n in nodes' ==> !Open(n, after, after[k])
    {
      assert Settled(nodes', after, after[k]);
    }
  }

  /** So a sweep moves a bundle only to a live node that contains it as the design demands, whatever
      else is in the tables, as far as no sandbox goes by an inherited name. */
  lemma SweepContains(nodes: seq<Node>, agents: seq<Agent>, t: int, cfg: Config, k: nat)
    requires DistinctNodes(nodes) && k < |agents|
    ensures var a := Swept(nodes, agents, t, cfg)[k];
      a.nodeId.Some? && a != agents[k] && a.spec.requireSandbox !in INHERITED ==>
        exists n :: n in DownNodes(nodes, t, cfg) && n.id == a.nodeId.value && n.status.Up?
          && (n.sandbox in INHERITED || Contains(n.sandbox, n.trusted, a.spec))
  {
    hide Swept, Satisfies, Contains, Assigned, Open;
    SweepSafeAndWorkConserving(nodes, agents, t, cfg);
    var a := Swept(nodes, agents, t, cfg)[k];
    if a.nodeId.Some? && a != agents[k] && a.spec.requireSandbox !in INHERITED {
      var n :| n in DownNodes(nodes, t, cfg) && n.id == a.nodeId.value && n.status.Up? &&
        Satisfies(n.sandbox, n.trusted, a.spec);
      if n.sandbox !in INHERITED {
        SatisfiesIff(n.sandbox, a.spec);
        assert Satisfies(n.sandbox, n.trusted, a.spec) <==> Contains(n.sandbox, n.trusted, a.spec);
      }
    }
  }

  // ---------------------------------------------------------------------------------------------
  // The heartbeat restores the budget
  // ---------------------------------------------------------------------------------------------

  function StartCount(orders: seq<Assignment>): nat {
    if orders == [] then 0 else (if orders[0].Start? then 1 else 0) + StartCount(orders[1..])
  }

  lemma {:induction false} StartCountAppend(a: seq<Assignment>, b: seq<Assignment>)
    ensures StartCount(a + b) == StartCount(a) + StartCount(b)
  {
    if a == [] {
      assert a + b == b;
    } else {
      assert (a + b)[1..] == a[1..] + b;
      StartCountAppend(a[1..], b);
    }
  }

  function ReportedCount(agents: seq<Agent>, n: NodeId, running: seq<AgentId>): nat {
    if agents == [] then 0
    else (if On(agents[0], n) && agents[0].id in running then 1 else 0) + ReportedCount(agents[1..], n, running)
  }

  /** After the loop a node holds what it reported and what it was told to start. */
  lemma {:induction false} BeatCounts(agents: seq<Agent>, n: NodeId, running: seq<AgentId>, free: int, answers: Answers)
    ensures var starts := StartCount(BeatOrders(agents, n, running, free, answers));
      && Assigned(BeatAgents(agents, n, running, free, answers), n) == ReportedCount(agents, n, running) + starts
      && starts <= Max(0, free)
  {
    if agents != [] {
      var a := agents[0];
      var free' := FreeAfter(a, n, running, free);
      BeatCounts(agents[1..], n, running, free', answers);
      var rest := BeatAgents(agents[1..], n, running, free', answers);
      var b := Beaten(a, n, running, free, answers);
      assert ([b] + rest)[1..] == rest;
      StartCountAppend(Orders(a, n, running, free, answers), BeatOrders(agents[1..], n, running, free', answers));
      OneOrder(a, n, running, free, answers);
    }
  }

  lemma OneOrder(a: Agent, n: NodeId, running: seq<AgentId>, free: int, answers: Answers)
    ensures StartCount(Orders(a, n, running, free, answers)) == if Starts(a, n, running, free) then 1 else 0
    ensures On(Beaten(a, n, running, free, answers), n) <==> On(a, n) && (a.id in running || free > 0)
  {
  }

  function ReportedIds(agents: seq<Agent>, n: NodeId, running: seq<AgentId>): (r: set<AgentId>)
    ensures forall id :: id in r ==> id in running && exists k :: 0 <= k < |agents| && agents[k].id == id
  {
    if agents == [] then {}
    else
      var rest := ReportedIds(agents[1..], n, running);
      if On(agents[0], n) && agents[0].id in running then rest + {agents[0].id} else rest
  }

  lemma {:induction false} ReportedIdsCount(agents: seq<Agent>, n: NodeId, running: seq<AgentId>)
    requires DistinctAgents(agents)
    ensures |ReportedIds(agents, n, running)| == ReportedCount(agents, n, running)
  {
    if agents != [] {
      ReportedIdsCount(agents[1..], n, running);
      var rest := ReportedIds(agents[1..], n, running);
      assert agents[0].id !in rest;
    }
  }

  lemma {:induction false} SetOfSeqSize<T>(s: seq<T>, sub: set<T>)
    requires forall x :: x in sub ==> x in s
    ensures |sub| <= |s|
  {
    if s == [] {
      assert sub == {};
    } else {
      SetOfSeqSize(s[1..], sub - {s[0]});
      assert sub <= (sub - {s[0]}) + {s[0]};
      if s[0] in sub { assert |sub| == |sub - {s[0]}| + 1; } else { assert sub - {s[0]} == sub; }
    }
  }

  ghost predicate DistinctOrders(orders: seq<Assignment>) {
    forall i, j :: 0 <= i < j < |orders| ==> orders[i].id != orders[j].id
  }

  ghost predicate DistinctIds(s: seq<string>) {
    forall i, j :: 0 <= i < j < |s| ==> s[i] != s[j]
  }

  /** Agent k is this one, is placed and reported here, and is not wanted. */
  ghost predicate Unwanted(agents: seq<Agent>, n: NodeId, running: seq<AgentId>, id: AgentId, k: int) {
    0 <= k < |agents| && agents[k].id == id && agents[k].nodeId == Some(n) && !agents[k].desired && id in running
  }

  /** What the loop orders, agent by agent. */
  lemma {:induction false} BeatOrdersMembers(agents: seq<Agent>, n: NodeId, running: seq<AgentId>, free: int,
                                             answers: Answers, o: Assignment)
    ensures o in BeatOrders(agents, n, running, free, answers) ==>
      exists k :: 0 <= k < |agents| && agents[k].id == o.id && agents[k].nodeId == Some(n)
        && (o.Start? ==> agents[k].desired && o.id !in running)
        && (o.Stop? ==> !agents[k].desired && o.id in running)
    ensures o.Stop? && (exists k :: Unwanted(agents, n, running, o.id, k)) ==>
      o in BeatOrders(agents, n, running, free, answers)
  {
    if agents != [] {
      var a := agents[0];
      var free' := FreeAfter(a, n, running, free);
      var mine, rest := Orders(a, n, running, free, answers), BeatOrders(agents[1..], n, running, free', answers);
      BeatOrdersMembers(agents[1..], n, running, free', answers, o);
      if o in rest {
        var k :| 0 <= k < |agents[1..]| && agents[1..][k].id == o.id && agents[1..][k].nodeId == Some(n)
          && (o.Start? ==> agents[1..][k].desired && o.id !in running)
          && (o.Stop? ==> !agents[1..][k].desired && o.id in running);
        assert agents[k + 1] == agents[1..][k];
      } else if o in mine {
        assert agents[0].id == o.id;
      }
      if o.Stop? && exists k :: Unwanted(agents, n, running, o.id, k) {
        var k :| Unwanted(agents, n, running, o.id, k);
        if k > 0 {
          assert Unwanted(agents[1..], n, running, o.id, k - 1);
        } else {
          assert mine == [o];
        }
      }
    }
  }

  lemma {:induction false} BeatOrdersDistinct(agents: seq<Agent>, n: NodeId, running: seq<AgentId>, free: int,
                                              answers: Answers)
    requires DistinctAgents(agents)
    ensures DistinctOrders(BeatOrders(agents, n, running, free, answers))
  {
    if agents != [] {
      var a := agents[0];
      var free' := FreeAfter(a, n, running, free);
      var mine, rest := Orders(a, n, running, free, answers), BeatOrders(agents[1..], n, running, free', answers);
      BeatOrdersDistinct(agents[1..], n, running, free', answers);
      forall o | o in rest ensures o.id != a.id {
        BeatOrdersMembers(agents[1..], n, running, free', answers, o);
        var k :| 0 <= k < |agents[1..]| && agents[1..][k].id == o.id;
        assert agents[k + 1].id == o.id;
      }
      assert |mine| <= 1;
      forall i, j | 0 <= i < j < |mine + rest| ensures (mine + rest)[i].id != (mine + rest)[j].id {
        if i < |mine| { assert (mine + rest)[j] in rest; }
      }
    }
  }

  lemma {:induction false} OrphanStopsMembers(agents: seq<Agent>, n: NodeId, running: seq<AgentId>, o: Assignment)
    ensures o in OrphanStops(agents, n, running) <==> o.Stop? && o.id in running && !Here(agents, o.id, n)
  {
    if running != [] {
      OrphanStopsMembers(agents, n, running[1..], o);
      assert running == [running[0]] + running[1..];
      var mine := if Here(agents, running[0], n) then [] else [Stop(running[0])];
      assert o in OrphanStops(agents, n, running) <==> o in mine || o in OrphanStops(agents, n, running[1..]);
    }
  }

  lemma {:induction false} OrphanStopsDistinct(agents: seq<Agent>, n: NodeId, running: seq<AgentId>)
    requires DistinctIds(running)
    ensures DistinctOrders(OrphanStops(agents, n, running))
    ensures StartCount(OrphanStops(agents, n, running)) == 0
  {
    if running != [] {
      OrphanStopsDistinct(agents, n, running[1..]);
      var mine := if Here(agents, running[0], n) then [] else [Stop(running[0])];
      var rest := OrphanStops(agents, n, running[1..]);
      assert OrphanStops(agents, n, running) == mine + rest;
      forall o | o in rest ensures o.id != running[0] {
        OrphanStopsMembers(agents, n, running[1..], o);
      }
      StartCountAppend(mine, rest);
      forall i, j | 0 <= i < j < |mine + rest| ensures (mine + rest)[i].id != (mine + rest)[j].id {
        if i < |mine| { assert (mine + rest)[j] in rest; }
      }
    }
  }

  lemma {:induction false} BeatAgentsAt(agents: seq<Agent>, n: NodeId, running: seq<AgentId>, free: int,
                                        answers: Answers, k: nat)
    requires k < |agents|
    ensures exists f :: BeatAgents(agents, n, running, free, answers)[k] == Beaten(agents[k], n, running, f, answers)
  {
    if k > 0 {
      BeatAgentsAt(agents[1..], n, running, FreeAfter(agents[0], n, running, free), answers, k - 1);
      assert agents[1..][k - 1] == agents[k];
    } else {
      assert BeatAgents(agents, n, running, free, answers)[0] == Beaten(agents[0], n, running, free, answers);
    }
  }

  /** A reported id stays here exactly when it was here. */
  lemma ReportedStays(agents: seq<Agent>, n: NodeId, running: seq<AgentId>, free: int, answers: Answers, id: AgentId)
    requires id in running
    ensures Here(BeatAgents(agents, n, running, free, answers), id, n) <==> Here(agents, id, n)
  {
    var after := BeatAgents(agents, n, running, free, answers);
    if Here(agents, id, n) {
      var k :| 0 <= k < |agents| && agents[k].id == id && agents[k].nodeId == Some(n);
      BeatAgentsAt(agents, n, running, free, answers, k);
      assert after[k].id == id && after[k].nodeId == Some(n);
    }
    if Here(after, id, n) {
      var k :| 0 <= k < |after| && after[k].id == id && after[k].nodeId == Some(n);
      BeatAgentsAt(agents, n, running, free, answers, k);
      assert agents[k].id == id && agents[k].nodeId == Some(n);
    }
  }

  /** After a heartbeat with distinct reported ids: the node holds at most its budget, or what it
      already runs if that is more; it is told to start no more than its free slots; no id is ordered
      twice; a reported id is stopped exactly when it is not an assigned agent that should run; and
      no reported agent that belongs here loses its place. */
  lemma HeartbeatRestoresBudget(agents: seq<Agent>, n: NodeId, maxAgents: int, running: seq<AgentId>, answers: Answers)
    requires DistinctAgents(agents) && DistinctIds(running)
    ensures var (after, orders) := BeatResult(agents, n, maxAgents, running, answers);
      && Assigned(after, n) <= Max(maxAgents, |running|)
      && StartCount(orders) <= Max(0, maxAgents - |running|)
      && DistinctOrders(orders)
      && (forall id :: id in running ==>
            (Stop(id) in orders <==> !exists k :: 0 <= k < |agents| && agents[k].id == id && On(agents[k], n)))
      && (forall k :: 0 <= k < |agents| && On(agents[k], n) && agents[k].id in running ==>
            On(after[k], n) && after[k].phase == Running)
  {
    hide BeatAgents, BeatOrders, OrphanStops, ReportedIds, ReportedCount, Assigned, StartCount, DistinctOrders;
    var free := maxAgents - |running|;
    var after := BeatAgents(agents, n, running, free, answers);
    var first, orphans := BeatOrders(agents, n, running, free, answers), OrphanStops(after, n, running);
    BeatCounts(agents, n, running, free, answers);
    ReportedIdsCount(agents, n, running);
    SetOfSeqSize(running, ReportedIds(agents, n, running));
    BeatOrdersDistinct(agents, n, running, free, answers);
    OrphanStopsDistinct(after, n, running);
    StartCountAppend(first, orphans);
    OrdersDisjoint(agents, n, running, free, answers);
    forall id | id in running
      ensures Stop(id) in first + orphans <==> !exists k :: 0 <= k < |agents| && agents[k].id == id && On(agents[k], n)
    {
      StopIff(agents, n, running, free, answers, id);
    }
    forall k | 0 <= k < |agents| && On(agents[k], n) && agents[k].id in running
      ensures On(after[k], n) && after[k].phase == Running
    {
      BeatAgentsAt(agents, n, running, free, answers, k);
    }
  }

  lemma OrdersDisjoint(agents: seq<Agent>, n: NodeId, running: seq<AgentId>, free: int, answers: Answers)
    requires DistinctOrders(BeatOrders(agents, n, running, free, answers))
    requires DistinctOrders(OrphanStops(BeatAgents(agents, n, running, free, answers), n, running))
    ensures DistinctOrders(BeatOrders(agents, n, running, free, answers) +
      OrphanStops(BeatAgents(agents, n, running, free, answers), n, running))
  {
    var after := BeatAgents(agents, n, running, free, answers);
    var first, orphans := BeatOrders(agents, n, running, free, answers), OrphanStops(after, n, running);
    forall o, p | o in first && p in orphans ensures o.id != p.id {
      OrphanStopsMembers(after, n, running, p);
      BeatOrdersMembers(agents, n, running, free, answers, o);
      if o.id == p.id {
        ReportedStays(agents, n, running, free, answers, o.id);
        assert false;
      }
    }
    forall i, j | 0 <= i < j < |first + orphans| ensures (first + orphans)[i].id != (first + orphans)[j].id {
      if i < |first| <= j { assert (first + orphans)[i] in first && (first + orphans)[j] in orphans; }
    }
  }

  lemma StopIff(agents: seq<Agent>, n: NodeId, running: seq<AgentId>, free: int, answers: Answers, id: AgentId)
    requires DistinctAgents(agents) && id in running
    ensures Stop(id) in BeatOrders(agents, n, running, free, answers) +
      OrphanStops(BeatAgents(agents, n, running, free, answers), n, running)
      <==> !exists k :: 0 <= k < |agents| && agents[k].id == id && On(agents[k], n)
  {
    var after := BeatAgents(agents, n, running, free, answers);
    BeatOrdersMembers(agents, n, running, free, answers, Stop(id));
    OrphanStopsMembers(after, n, running, Stop(id));
    ReportedStays(agents, n, running, free, answers, id);
    if exists k :: 0 <= k < |agents| && agents[k].id == id && On(agents[k], n) {
      var k :| 0 <= k < |agents| && agents[k].id == id && On(agents[k], n);
      assert Here(agents, id, n);
      assert forall j :: 0 <= j < |agents| && agents[j].id == id ==> j == k;
    } else if Here(agents, id, n) {
      var k :| 0 <= k < |agents| && agents[k].id == id && agents[k].nodeId == Some(n);
      assert Unwanted(agents, n, running, id, k);
    }
  }
}
