/** At most one node can trade an agent: what the fence gives over whole runs, and exactly when. */
module AtMostOne {
  import opened Bytes
  import opened Proto
  import opened ControlPlane
  import opened Cloud
  import Fence

  ghost predicate Accepted(s: State, h: Handout, H: Token -> Fence.Hash) {
    Fence.Authorized(s.signer, h.agent, h.epoch, h.token, H)
  }

  /** No two nodes hold a credential the signer accepts for the same agent now. */
  ghost predicate Exclusive(s: State, H: Token -> Fence.Hash) {
    forall h, g :: h in s.handed && g in s.handed && h.agent == g.agent && Accepted(s, h, H) && Accepted(s, g, H) ==>
      h.node == g.node
  }

  /** The heartbeat hands a node a session that was opened for another node and that the signer still
      accepts: the branch in which the session request failed and the old session stayed in place. */
  ghost predicate StaleHandout(s: State, e: Event, cfg: Config, H: Token -> Fence.Hash) {
    e.Beat? && exists o ::
      && o in Cloud.Beaten(s, e).1 && o.Start? && o.credential.Some?
      && o.credential.value.node != e.node
      && Fence.Authorized(Apply(s, e, cfg, H).signer, o.id, o.credential.value.epoch, o.credential.value.token, H)
  }

  ghost predicate IssuedOnce(s: State) {
    forall i, j :: i in s.issued && j in s.issued && i.token == j.token ==> i == j
  }

  ghost predicate HandedWereIssued(s: State) {
    forall h :: h in s.handed ==> exists n :: Issue(h.token, h.agent, h.epoch, n) in s.issued
  }

  ghost predicate SessionsKnown(s: State) {
    forall k :: 0 <= k < |s.agents| && s.agents[k].session.Some? ==>
      var c := s.agents[k].session.value;
      Issue(c.token, s.agents[k].id, c.epoch, c.node) in s.issued &&
        Handout(s.agents[k].id, c.epoch, c.token, c.node) in s.handed
  }

  ghost predicate Honest(s: State, id: AgentId, r: Fence.SessionRec, H: Token -> Fence.Hash) {
    exists t, n :: Issue(t, id, r.epoch, n) in s.issued && H(t) == r.tokenHash
  }

  ghost predicate SignerKnown(s: State, H: Token -> Fence.Hash) {
    forall id :: id in s.signer && s.signer[id].Some? ==> Honest(s, id, s.signer[id].value, H)
  }

  /** Holds in every run. */
  ghost predicate Invariant(s: State, H: Token -> Fence.Hash) {
    IssuedOnce(s) && HandedWereIssued(s) && SessionsKnown(s) && SignerKnown(s, H)
  }

  /** What an accepted credential must be for the fence to do its work. */
  ghost predicate AcceptedAreHome(s: State, H: Token -> Fence.Hash) {
    forall h :: h in s.handed && Accepted(s, h, H) ==> Issue(h.token, h.agent, h.epoch, h.node) in s.issued
  }

  lemma HomeIsExclusive(s: State, H: Token -> Fence.Hash)
    requires Fence.Injective(H) && IssuedOnce(s) && AcceptedAreHome(s, H)
    ensures Exclusive(s, H)
  {
    forall h, g | h in s.handed && g in s.handed && h.agent == g.agent && Accepted(s, h, H) && Accepted(s, g, H)
      ensures h.node == g.node
    {
      assert H(h.token) == H(g.token);
      assert h.token == g.token;
      assert Issue(h.token, h.agent, h.epoch, h.node) == Issue(g.token, g.agent, g.epoch, g.node);
    }
  }

  // ---------------------------------------------------------------------------------------------
  // Steps that touch no session
  // ---------------------------------------------------------------------------------------------

  /** Every session of the new table was the same agent's session in the old one. */
  ghost predicate SessionsFrom(before: seq<Agent>, after: seq<Agent>) {
    forall k :: 0 <= k < |after| && after[k].session.Some? ==>
      exists j :: 0 <= j < |before| && before[j].id == after[k].id && before[j].session == after[k].session
  }

  lemma {:induction false} PlaceFromSessions(nodes: seq<Node>, agents: seq<Agent>, k: nat, t: int)
    requires k <= |agents|
    ensures var after := PlaceFrom(nodes, agents, k, t);
      forall j :: 0 <= j < |agents| ==> after[j].id == agents[j].id && after[j].session == agents[j].session
    decreases |agents| - k
  {
    if k < |agents| {
      hide PickNode;
      PlaceFromSessions(nodes, Turn(nodes, agents, k, t), k + 1, t);
    }
  }

  lemma QuietStep(s: State, e: Event, cfg: Config, H: Token -> Fence.Hash)
    requires !e.Beat?
    ensures var s' := Apply(s, e, cfg, H);
      && SessionsFrom(s.agents, s'.agents) && s'.issued == s.issued && s'.handed == s.handed
      && (forall id :: id in s'.signer && s'.signer[id].Some? ==> id in s.signer && s'.signer[id] == s.signer[id])
  {
    hide Place, Swept, SessionsFrom, StartRequested, StopRequested, DownNodes, Registered, Without;
    match e
    case Sweep(t) =>
      SweepSessions(s.nodes, s.agents, t, cfg);
      SameSessions(s.agents, Swept(s.nodes, s.agents, t, cfg));
    case Delete(id) =>
      SameSessions(s.agents, s.agents);
      WithoutSessions(s.agents, id);
    case Create(id, spec) =>
      SameSessions(s.agents, s.agents);
      CreateSessions(s.agents, id, spec);
    case StartAgent(id, now) => StartSessions(s, id, now, cfg, H);
    case StopAgent(id) => StopSessions(s, id, cfg, H);
    case Register(_, _, _, _) => SameSessions(s.agents, s.agents);
    case Trust(_, _) => SameSessions(s.agents, s.agents);
  }

  lemma CreateSessions(agents: seq<Agent>, id: AgentId, spec: Spec)
    ensures SessionsFrom(agents, agents + [NewAgent(id, spec)])
  {
    forall k | 0 <= k < |agents| ensures (agents + [NewAgent(id, spec)])[k] == agents[k] {
    }
  }

  lemma StartSessions(s: State, id: AgentId, now: int, cfg: Config, H: Token -> Fence.Hash)
    ensures SessionsFrom(s.agents, Apply(s, StartAgent(id, now), cfg, H).agents)
  {
    hide Place, SessionsFrom;
    SameSessions(s.agents, Apply(s, StartAgent(id, now), cfg, H).agents);
  }

  lemma StopSessions(s: State, id: AgentId, cfg: Config, H: Token -> Fence.Hash)
    ensures SessionsFrom(s.agents, Apply(s, StopAgent(id), cfg, H).agents)
  {
    hide SessionsFrom;
    SameSessions(s.agents, Apply(s, StopAgent(id), cfg, H).agents);
  }

  lemma SameSessions(before: seq<Agent>, after: seq<Agent>)
    requires |before| == |after|
    requires forall k :: 0 <= k < |before| ==> after[k].id == before[k].id && after[k].session == before[k].session
    ensures SessionsFrom(before, after)
  {
  }

  lemma SweepSessions(nodes: seq<Node>, agents: seq<Agent>, t: int, cfg: Config)
    ensures var after := Swept(nodes, agents, t, cfg);
      forall k :: 0 <= k < |agents| ==> after[k].id == agents[k].id && after[k].session == agents[k].session
  {
    hide PlaceFrom;
    var freed := FreedAll(nodes, agents, t, cfg);
    PlaceFromSessions(DownNodes(nodes, t, cfg), freed, 0, t);
    forall k | 0 <= k < |agents| ensures freed[k].id == agents[k].id && freed[k].session == agents[k].session {
    }
  }

  lemma WithoutSessions(agents: seq<Agent>, id: AgentId)
    ensures SessionsFrom(agents, Without(agents, id))
  {
    var i := IndexOfAgent(agents, id);
    var after := Without(agents, id);
    forall k | 0 <= k < |after| ensures after[k] == agents[if i < 0 || k < i then k else k + 1] {
    }
  }

  lemma QuietKeeps(s: State, s': State, H: Token -> Fence.Hash)
    requires SessionsFrom(s.agents, s'.agents) && s'.issued == s.issued && s'.handed == s.handed
    requires forall id :: id in s'.signer && s'.signer[id].Some? ==> id in s.signer && s'.signer[id] == s.signer[id]
    requires Invariant(s, H)
    ensures Invariant(s', H)
    ensures AcceptedAreHome(s, H) ==> AcceptedAreHome(s', H)
  {
    forall k | 0 <= k < |s'.agents| && s'.agents[k].session.Some?
      ensures var c := s'.agents[k].session.value;
        Issue(c.token, s'.agents[k].id, c.epoch, c.node) in s'.issued &&
          Handout(s'.agents[k].id, c.epoch, c.token, c.node) in s'.handed
    {
      var j :| 0 <= j < |s.agents| && s.agents[j].id == s'.agents[k].id && s.agents[j].session == s'.agents[k].session;
    }
    forall id | id in s'.signer && s'.signer[id].Some? ensures Honest(s', id, s'.signer[id].value, H) {
      assert Honest(s, id, s.signer[id].value, H);
      var t, n :| Issue(t, id, s.signer[id].value.epoch, n) in s.issued && H(t) == s.signer[id].value.tokenHash;
      assert Issue(t, id, s'.signer[id].value.epoch, n) in s'.issued;
    }
    forall h | h in s'.handed ensures exists n :: Issue(h.token, h.agent, h.epoch, n) in s'.issued {
      var n :| Issue(h.token, h.agent, h.epoch, n) in s.issued;
    }
    if AcceptedAreHome(s, H) {
      forall h | h in s'.handed && Accepted(s', h, H) ensures Issue(h.token, h.agent, h.epoch, h.node) in s'.issued {
        assert Accepted(s, h, H);
      }
    }
  }

  // ---------------------------------------------------------------------------------------------
  // The heartbeat
  // ---------------------------------------------------------------------------------------------

  /** The free slots the reconciliation has left when it comes to agent k. */
  function FreeAt(agents: seq<Agent>, n: NodeId, running: seq<AgentId>, free: int, k: nat): int
    requires k <= |agents|
  {
    if k == 0 then free else FreeAt(agents[1..], n, running, FreeAfter(agents[0], n, running, free), k - 1)
  }

  /** Agent k is started, and this is the order. */
  ghost predicate StartedAs(agents: seq<Agent>, n: NodeId, running: seq<AgentId>, free: int, answers: Answers,
                            o: Assignment, k: int) {
    && 0 <= k < |agents| && Starts(agents[k], n, running, FreeAt(agents, n, running, free, k))
    && o == Start(agents[k].id, WithSession(agents[k], n, answers).session)
  }

  /** The start orders are those for the agents that start, with their sessions after `ensureSession`. */
  lemma {:induction false} StartsIff(agents: seq<Agent>, n: NodeId, running: seq<AgentId>, free: int,
                                     answers: Answers, o: Assignment)
    requires o.Start?
    ensures o in BeatOrders(agents, n, running, free, answers)
       <==> exists k :: StartedAs(agents, n, running, free, answers, o, k)
  {
    hide WithSession;
    if agents != [] {
      var free' := FreeAfter(agents[0], n, running, free);
      StartsIff(agents[1..], n, running, free', answers, o);
      assert o in Orders(agents[0], n, running, free, answers) <==> StartedAs(agents, n, running, free, answers, o, 0);
      forall k | 0 < k < |agents|
        ensures StartedAs(agents, n, running, free, answers, o, k) <==>
          StartedAs(agents[1..], n, running, free', answers, o, k - 1)
      {
        assert agents[1..][k - 1] == agents[k];
      }
      if o in BeatOrders(agents[1..], n, running, free', answers) {
        var k :| StartedAs(agents[1..], n, running, free', answers, o, k);
        assert StartedAs(agents, n, running, free, answers, o, k + 1);
      }
    }
  }

  /** A session that is new in the table was handed out in the same step. */
  lemma {:induction false} NewSessionHanded(agents: seq<Agent>, n: NodeId, running: seq<AgentId>, free: int,
                                            answers: Answers, k: nat)
    requires k < |agents|
    ensures var a, b := agents[k], BeatAgents(agents, n, running, free, answers)[k];
      && b.id == a.id
      && (b.session != a.session ==>
            && a.id in answers && b.session == Some(Session(answers[a.id].0, answers[a.id].1, n))
            && Start(a.id, b.session) in BeatOrders(agents, n, running, free, answers))
  {
    var free' := FreeAfter(agents[0], n, running, free);
    if k == 0 {
      assert BeatAgents(agents, n, running, free, answers)[0] ==
        ControlPlane.Beaten(agents[0], n, running, free, answers);
    } else {
      NewSessionHanded(agents[1..], n, running, free', answers, k - 1);
      assert BeatAgents(agents, n, running, free, answers)[k] ==
        BeatAgents(agents[1..], n, running, free', answers)[k - 1];
      assert agents[1..][k - 1] == agents[k];
    }
  }

  lemma {:induction false} OrphansAreStops(agents: seq<Agent>, n: NodeId, running: seq<AgentId>, o: Assignment)
    requires o in OrphanStops(agents, n, running)
    ensures o.Stop?
  {
    if !(o in OrphanStops(agents, n, running[1..])) {
      assert o in (if Here(agents, running[0], n) then [] else [Stop(running[0])]);
    } else {
      OrphansAreStops(agents, n, running[1..], o);
    }
  }

  /** A credential handed out in a heartbeat is either freshly opened for this node or the session the
      agent already had. */
  lemma HandedIs(s: State, e: Event, o: Assignment)
    requires e.Beat? && IndexOfNode(s.nodes, e.node) >= 0
    requires o in Cloud.Beaten(s, e).1 && o.Start? && o.credential.Some?
    ensures var c := o.credential.value;
      || (o.id in e.replies && e.replies[o.id].Answered?
          && c == Session(NextEpoch(s.signer, o.id), e.replies[o.id].token, e.node))
      || exists k :: 0 <= k < |s.agents| && s.agents[k].id == o.id && s.agents[k].session == Some(c)
  {
    hide BeatAgents, BeatOrders;
    var i := IndexOfNode(s.nodes, e.node);
    var free := s.nodes[i].maxAgents - |e.running|;
    var answers := AnswersOf(s.signer, e.replies);
    var after := BeatAgents(s.agents, e.node, e.running, free, answers);
    if o in OrphanStops(after, e.node, e.running) {
      OrphansAreStops(after, e.node, e.running, o);
      assert false;
    }
    StartsIff(s.agents, e.node, e.running, free, answers, o);
    var k :| StartedAs(s.agents, e.node, e.running, free, answers, o, k);
  }

  lemma BeatLength(s: State, e: Event)
    requires e.Beat?
    ensures |Cloud.Beaten(s, e).0| == |s.agents|
  {
  }

  lemma BeatSessions(s: State, e: Event, k: nat)
    requires e.Beat? && IndexOfNode(s.nodes, e.node) >= 0 && k < |s.agents|
    ensures |Cloud.Beaten(s, e).0| == |s.agents|
    ensures var a, b := s.agents[k], Cloud.Beaten(s, e).0[k];
      && b.id == a.id
      && (b.session != a.session ==>
            && a.id in e.replies && b.session == Some(Session(NextEpoch(s.signer, a.id), e.replies[a.id].token, e.node))
            && Start(a.id, b.session) in Cloud.Beaten(s, e).1)
  {
    hide BeatAgents, BeatOrders;
    var i := IndexOfNode(s.nodes, e.node);
    NewSessionHanded(s.agents, e.node, e.running, s.nodes[i].maxAgents - |e.running|, AnswersOf(s.signer, e.replies),
      k);
  }

  lemma IssueOf(s: State, e: Event, id: AgentId)
    requires e.Beat? && id in e.replies
    ensures Issue(e.replies[id].token, id, NextEpoch(s.signer, id), e.node) in IssuesOf(s.signer, e.replies, e.node)
  {
  }

  lemma HandoutOf(orders: seq<Assignment>, n: NodeId, id: AgentId, c: Session)
    requires Start(id, Some(c)) in orders
    ensures Handout(id, c.epoch, c.token, n) in HandoutsOf(orders, n)
  {
    var o := Start(id, Some(c));
    assert o in orders && o.Start? && o.credential.Some?;
  }

  /** The signer after a heartbeat. */
  lemma SignerAfterBeat(s: State, e: Event, cfg: Config, H: Token -> Fence.Hash)
    requires e.Beat? && IndexOfNode(s.nodes, e.node) >= 0
    ensures var s' := Apply(s, e, cfg, H);
      && s'.signer == Rotated(s.signer, e.replies, H)
      && s'.issued == s.issued + IssuesOf(s.signer, e.replies, e.node)
      && s'.handed == s.handed + HandoutsOf(Cloud.Beaten(s, e).1, e.node)
      && s'.agents == Cloud.Beaten(s, e).0
  {
  }

  lemma BeatKeepsIssued(s: State, e: Event, cfg: Config, H: Token -> Fence.Hash)
    requires e.Beat? && IndexOfNode(s.nodes, e.node) >= 0 && Possible(s, e) && IssuedOnce(s)
    ensures IssuedOnce(Apply(s, e, cfg, H))
  {
    hide Apply, Cloud.Beaten;
    SignerAfterBeat(s, e, cfg, H);
  }

  lemma BeatKeepsHanded(s: State, e: Event, cfg: Config, H: Token -> Fence.Hash)
    requires e.Beat? && IndexOfNode(s.nodes, e.node) >= 0 && Possible(s, e) && HandedWereIssued(s) && SessionsKnown(s)
    ensures HandedWereIssued(Apply(s, e, cfg, H)) && SessionsKnown(Apply(s, e, cfg, H))
  {
    hide Apply, Cloud.Beaten, HandoutsOf, IssuesOf;
    var s' := Apply(s, e, cfg, H);
    SignerAfterBeat(s, e, cfg, H);
    forall h | h in s'.handed ensures exists n :: Issue(h.token, h.agent, h.epoch, n) in s'.issued {
      if h in s.handed {
        var n :| Issue(h.token, h.agent, h.epoch, n) in s.issued;
        assert Issue(h.token, h.agent, h.epoch, n) in s'.issued;
      } else {
        var n := NewHandoutIssued(s, e, h);
        assert Issue(h.token, h.agent, h.epoch, n) in s'.issued;
      }
    }
    forall k | 0 <= k < |s'.agents| && s'.agents[k].session.Some?
      ensures var c := s'.agents[k].session.value;
        Issue(c.token, s'.agents[k].id, c.epoch, c.node) in s'.issued &&
          Handout(s'.agents[k].id, c.epoch, c.token, c.node) in s'.handed
    {
      BeatLength(s, e);
      BeatSessions(s, e, k);
      if s'.agents[k].session != s.agents[k].session {
        IssueOf(s, e, s.agents[k].id);
        HandoutOf(Cloud.Beaten(s, e).1, e.node, s.agents[k].id, s'.agents[k].session.value);
      }
    }
  }

  lemma NewHandoutIssued(s: State, e: Event, h: Handout) returns (n: NodeId)
    requires e.Beat? && IndexOfNode(s.nodes, e.node) >= 0 && SessionsKnown(s)
    requires h in HandoutsOf(Cloud.Beaten(s, e).1, e.node)
    ensures Issue(h.token, h.agent, h.epoch, n) in s.issued + IssuesOf(s.signer, e.replies, e.node)
  {
    hide Cloud.Beaten, IssuesOf;
    var o :| o in Cloud.Beaten(s, e).1 && o.Start? && o.credential.Some?
      && h == Handout(o.id, o.credential.value.epoch, o.credential.value.token, e.node);
    HandedIs(s, e, o);
    n := o.credential.value.node;
    if k :| 0 <= k < |s.agents| && s.agents[k].id == o.id && s.agents[k].session == Some(o.credential.value) {
    } else {
      IssueOf(s, e, o.id);
    }
  }

  lemma BeatKeepsSigner(s: State, e: Event, cfg: Config, H: Token -> Fence.Hash)
    requires e.Beat? && IndexOfNode(s.nodes, e.node) >= 0 && Possible(s, e) && SignerKnown(s, H)
    ensures SignerKnown(Apply(s, e, cfg, H), H)
  {
    hide Apply, Cloud.Beaten, IssuesOf;
    var s' := Apply(s, e, cfg, H);
    SignerAfterBeat(s, e, cfg, H);
    forall id | id in s'.signer && s'.signer[id].Some? ensures Honest(s', id, s'.signer[id].value, H) {
      if id in e.replies {
        IssueOf(s, e, id);
        assert Issue(e.replies[id].token, id, s'.signer[id].value.epoch, e.node) in s'.issued;
      } else {
        assert Honest(s, id, s.signer[id].value, H);
        var t, n :| Issue(t, id, s.signer[id].value.epoch, n) in s.issued && H(t) == s.signer[id].value.tokenHash;
        assert Issue(t, id, s'.signer[id].value.epoch, n) in s'.issued;
      }
    }
  }

  /** A credential from before that is accepted after a heartbeat was accepted before it: rotation
      brings in new tokens only. */
  lemma AcceptedBefore(s: State, e: Event, cfg: Config, H: Token -> Fence.Hash, h: Handout)
    requires e.Beat? && IndexOfNode(s.nodes, e.node) >= 0 && Possible(s, e) && Fence.Injective(H)
    requires HandedWereIssued(s) && h in s.handed && Accepted(Apply(s, e, cfg, H), h, H)
    ensures Accepted(s, h, H) && h.agent !in e.replies
  {
    hide Apply, Cloud.Beaten;
    SignerAfterBeat(s, e, cfg, H);
    if h.agent in e.replies {
      assert false;
    }
  }

  lemma BeatKeepsHome(s: State, e: Event, cfg: Config, H: Token -> Fence.Hash)
    requires e.Beat? && IndexOfNode(s.nodes, e.node) >= 0 && Possible(s, e) && Fence.Injective(H)
    requires Invariant(s, H) && AcceptedAreHome(s, H) && !StaleHandout(s, e, cfg, H)
    ensures AcceptedAreHome(Apply(s, e, cfg, H), H)
  {
    hide Apply, Cloud.Beaten, IssuesOf;
    var s' := Apply(s, e, cfg, H);
    SignerAfterBeat(s, e, cfg, H);
    forall h | h in s'.handed && Accepted(s', h, H) ensures Issue(h.token, h.agent, h.epoch, h.node) in s'.issued {
      if h in s.handed {
        AcceptedBefore(s, e, cfg, H, h);
      } else {
        var o :| o in Cloud.Beaten(s, e).1 && o.Start? && o.credential.Some?
          && h == Handout(o.id, o.credential.value.epoch, o.credential.value.token, e.node);
        assert o.credential.value.node == e.node;
        HandedIs(s, e, o);
        if k :| 0 <= k < |s.agents| && s.agents[k].id == o.id && s.agents[k].session == Some(o.credential.value) {
        } else {
          IssueOf(s, e, o.id);
        }
      }
    }
  }

  lemma StaleBreaks(s: State, e: Event, cfg: Config, H: Token -> Fence.Hash)
    requires Invariant(s, H) && StaleHandout(s, e, cfg, H)
    ensures !Exclusive(Apply(s, e, cfg, H), H)
  {
    hide Apply, Cloud.Beaten, HandoutsOf;
    var s' := Apply(s, e, cfg, H);
    var o :| o in Cloud.Beaten(s, e).1 && o.Start? && o.credential.Some? && o.credential.value.node != e.node
      && Fence.Authorized(s'.signer, o.id, o.credential.value.epoch, o.credential.value.token, H);
    var c := o.credential.value;
    if IndexOfNode(s.nodes, e.node) < 0 {
      UnknownNodeGetsNothing(s, e);
      assert false;
    }
    SignerAfterBeat(s, e, cfg, H);
    HandedIs(s, e, o);
    HandoutOf(Cloud.Beaten(s, e).1, e.node, o.id, c);
    var k :| 0 <= k < |s.agents| && s.agents[k].id == o.id && s.agents[k].session == Some(c);
    var h, g := Handout(o.id, c.epoch, c.token, e.node), Handout(o.id, c.epoch, c.token, c.node);
    assert h in s'.handed && g in s'.handed && Accepted(s', h, H) && Accepted(s', g, H);
  }

  lemma UnknownNodeGetsNothing(s: State, e: Event)
    requires e.Beat? && IndexOfNode(s.nodes, e.node) < 0
    ensures Cloud.Beaten(s, e).1 == []
  {
  }

  // ---------------------------------------------------------------------------------------------
  // Runs
  // ---------------------------------------------------------------------------------------------

  lemma StepKeeps(s: State, e: Event, cfg: Config, H: Token -> Fence.Hash)
    requires Fence.Injective(H) && Possible(s, e) && Invariant(s, H)
    ensures Invariant(Apply(s, e, cfg, H), H)
    ensures AcceptedAreHome(s, H) && !StaleHandout(s, e, cfg, H) ==> AcceptedAreHome(Apply(s, e, cfg, H), H)
  {
    hide IssuedOnce, HandedWereIssued, SessionsKnown, SignerKnown, AcceptedAreHome, StaleHandout, Possible,
      Fence.Injective;
    if !e.Beat? {
      hide Apply;
      QuietStep(s, e, cfg, H);
      QuietKeeps(s, Apply(s, e, cfg, H), H);
    } else if IndexOfNode(s.nodes, e.node) >= 0 {
      hide Apply;
      BeatKeepsIssued(s, e, cfg, H);
      BeatKeepsHanded(s, e, cfg, H);
      BeatKeepsSigner(s, e, cfg, H);
      if AcceptedAreHome(s, H) && !StaleHandout(s, e, cfg, H) {
        BeatKeepsHome(s, e, cfg, H);
      }
    } else {
      assert Apply(s, e, cfg, H) == s;
    }
  }

  lemma {:induction false} RunInvariant(es: seq<Event>, cfg: Config, H: Token -> Fence.Hash)
    requires Fence.Injective(H) && PossibleRun(es, cfg, H)
    ensures Invariant(Run(es, cfg, H), H)
    ensures (forall i :: 0 <= i < |es| ==> !StaleHandout(Run(es[..i], cfg, H), es[i], cfg, H)) ==>
      AcceptedAreHome(Run(es, cfg, H), H)
  {
    if es != [] {
      hide Apply, Invariant, AcceptedAreHome, StaleHandout, Possible, Fence.Injective;
      var before := es[..|es| - 1];
      forall i | 0 <= i < |before| ensures before[..i] == es[..i] && before[i] == es[i] {
      }
      assert es[..|es| - 1] == before;
      assert PossibleRun(before, cfg, H);
      RunInvariant(before, cfg, H);
      StepKeeps(Run(before, cfg, H), es[|es| - 1], cfg, H);
    }
  }

  /** The branch that breaks the fence, told before the heartbeat: an agent is about to be started on
      this node, holds another node's session that the signer accepts, and its session request is
      refused. */
  ghost predicate RefusedMove(s: State, e: Event, H: Token -> Fence.Hash) {
    e.Beat? && IndexOfNode(s.nodes, e.node) >= 0 && exists k :: RefusedMoveOf(s, e, H, k)
  }

  ghost predicate RefusedMoveOf(s: State, e: Event, H: Token -> Fence.Hash, k: int)
    requires e.Beat? && IndexOfNode(s.nodes, e.node) >= 0
  {
    && StartsAt(s, e, k)
    && s.agents[k].id !in e.replies
    && s.agents[k].session.Some?
    && var c := s.agents[k].session.value;
       c.node != e.node && Fence.Authorized(s.signer, s.agents[k].id, c.epoch, c.token, H)
  }

  /** The heartbeat starts agent k. */
  predicate StartsAt(s: State, e: Event, k: int)
    requires e.Beat? && IndexOfNode(s.nodes, e.node) >= 0
  {
    var free := s.nodes[IndexOfNode(s.nodes, e.node)].maxAgents - |e.running|;
    0 <= k < |s.agents| && Starts(s.agents[k], e.node, e.running, FreeAt(s.agents, e.node, e.running, free, k))
  }

  ghost predicate OrderOf(s: State, e: Event, o: Assignment, k: int)
    requires e.Beat? && IndexOfNode(s.nodes, e.node) >= 0
  {
    && StartsAt(s, e, k)
    && o == Start(s.agents[k].id, WithSession(s.agents[k], e.node, AnswersOf(s.signer, e.replies)).session)
  }

  /** A start order is the one of an agent that starts. */
  lemma StartOrders(s: State, e: Event, o: Assignment)
    requires e.Beat? && IndexOfNode(s.nodes, e.node) >= 0 && o.Start?
    ensures o in Cloud.Beaten(s, e).1 <==> exists k :: OrderOf(s, e, o, k)
  {
    hide BeatAgents, BeatOrders, WithSession;
    var free := s.nodes[IndexOfNode(s.nodes, e.node)].maxAgents - |e.running|;
    var answers := AnswersOf(s.signer, e.replies);
    var after := BeatAgents(s.agents, e.node, e.running, free, answers);
    StartsIff(s.agents, e.node, e.running, free, answers, o);
    if o in OrphanStops(after, e.node, e.running) {
      OrphansAreStops(after, e.node, e.running, o);
    }
    assert forall k :: StartedAs(s.agents, e.node, e.running, free, answers, o, k) <==> OrderOf(s, e, o, k);
  }

  lemma StaleIsRefusedMove(s: State, e: Event, cfg: Config, H: Token -> Fence.Hash)
    requires Fence.Injective(H) && Possible(s, e) && Invariant(s, H) && StaleHandout(s, e, cfg, H)
    ensures RefusedMove(s, e, H)
  {
    hide Apply, Cloud.Beaten, StartsAt, Invariant, Possible, Fence.Injective, WithSession;
    if IndexOfNode(s.nodes, e.node) < 0 {
      UnknownNodeGetsNothing(s, e);
      assert false;
    }
    var o :| o in Cloud.Beaten(s, e).1 && o.Start? && o.credential.Some? && o.credential.value.node != e.node
      && Fence.Authorized(Apply(s, e, cfg, H).signer, o.id, o.credential.value.epoch, o.credential.value.token, H);
    StartOrders(s, e, o);
    var k :| OrderOf(s, e, o, k);
    KeptSession(s, e, o, k);
    StillAccepted(s, e, cfg, H, k);
    assert RefusedMoveOf(s, e, H, k);
  }

  /** A credential for another node is the session the agent had. */
  lemma KeptSession(s: State, e: Event, o: Assignment, k: int)
    requires e.Beat? && IndexOfNode(s.nodes, e.node) >= 0 && OrderOf(s, e, o, k)
    requires o.credential.Some? && o.credential.value.node != e.node
    ensures 0 <= k < |s.agents| && o.id == s.agents[k].id && s.agents[k].session == o.credential
  {
  }

  /** A session from before the heartbeat that is accepted after it was not rotated in it. */
  lemma StillAccepted(s: State, e: Event, cfg: Config, H: Token -> Fence.Hash, k: nat)
    requires Fence.Injective(H) && Possible(s, e) && Invariant(s, H)
    requires e.Beat? && IndexOfNode(s.nodes, e.node) >= 0 && k < |s.agents| && s.agents[k].session.Some?
    requires var c := s.agents[k].session.value;
      Fence.Authorized(Apply(s, e, cfg, H).signer, s.agents[k].id, c.epoch, c.token, H)
    ensures var c := s.agents[k].session.value;
      s.agents[k].id !in e.replies && Fence.Authorized(s.signer, s.agents[k].id, c.epoch, c.token, H)
  {
    hide Apply, Cloud.Beaten, IssuedOnce, SignerKnown, Possible, Fence.Injective;
    var c := s.agents[k].session.value;
    var h := Handout(s.agents[k].id, c.epoch, c.token, c.node);
    assert h in s.handed;
    AcceptedBefore(s, e, cfg, H, h);
  }

  lemma RefusedMoveIsStale(s: State, e: Event, cfg: Config, H: Token -> Fence.Hash)
    requires RefusedMove(s, e, H)
    ensures StaleHandout(s, e, cfg, H)
  {
    hide Apply, Cloud.Beaten;
    SignerAfterBeat(s, e, cfg, H);
    var k :| RefusedMoveOf(s, e, H, k);
    var a := s.agents[k];
    assert WithSession(a, e.node, AnswersOf(s.signer, e.replies)) == a;
    var o := Start(a.id, a.session);
    assert OrderOf(s, e, o, k);
    StartOrders(s, e, o);
  }

  /** At most one node can trade, in every state of a run, exactly when no heartbeat of the run has its
      session request refused for an agent it starts while the signer still accepts another node's
      session of it. Node failures, watchdog bounces, moves away and back, stops, deletions and
      re-creations do not matter, nor do lost replies. */
  lemma AtMostOneIff(es: seq<Event>, cfg: Config, H: Token -> Fence.Hash)
    requires Fence.Injective(H) && PossibleRun(es, cfg, H)
    ensures (forall i :: 0 <= i <= |es| ==> Exclusive(Run(es[..i], cfg, H), H))
      <==> (forall i :: 0 <= i < |es| ==> !RefusedMove(Run(es[..i], cfg, H), es[i], H))
  {
    hide Apply, Invariant, StaleHandout, RefusedMove, Possible, Fence.Injective, Exclusive, Run;
    StaleDecides(es, cfg, H);
    forall i | 0 <= i < |es|
      ensures StaleHandout(Run(es[..i], cfg, H), es[i], cfg, H) <==> RefusedMove(Run(es[..i], cfg, H), es[i], H)
    {
      var s := Run(es[..i], cfg, H);
      PrefixPossible(es, i, cfg, H);
      RunInvariant(es[..i], cfg, H);
      if StaleHandout(s, es[i], cfg, H) { StaleIsRefusedMove(s, es[i], cfg, H); }
      if RefusedMove(s, es[i], H) { RefusedMoveIsStale(s, es[i], cfg, H); }
    }
  }

  /** The same, told from what is handed out. */
  lemma StaleDecides(es: seq<Event>, cfg: Config, H: Token -> Fence.Hash)
    requires Fence.Injective(H) && PossibleRun(es, cfg, H)
    ensures (forall i :: 0 <= i <= |es| ==> Exclusive(Run(es[..i], cfg, H), H))
      <==> (forall i :: 0 <= i < |es| ==> !StaleHandout(Run(es[..i], cfg, H), es[i], cfg, H))
  {
    hide Apply, Invariant, AcceptedAreHome, StaleHandout, Possible, Fence.Injective, Exclusive;
    if forall i :: 0 <= i < |es| ==> !StaleHandout(Run(es[..i], cfg, H), es[i], cfg, H) {
      forall i | 0 <= i <= |es| ensures Exclusive(Run(es[..i], cfg, H), H) {
        PrefixPossible(es, i, cfg, H);
        forall j | 0 <= j < i ensures es[..i][..j] == es[..j] && es[..i][j] == es[j] {
        }
        RunInvariant(es[..i], cfg, H);
        InvariantIssued(Run(es[..i], cfg, H), H);
        HomeIsExclusive(Run(es[..i], cfg, H), H);
      }
    } else {
      var i :| 0 <= i < |es| && StaleHandout(Run(es[..i], cfg, H), es[i], cfg, H);
      PrefixPossible(es, i, cfg, H);
      RunInvariant(es[..i], cfg, H);
      StaleBreaks(Run(es[..i], cfg, H), es[i], cfg, H);
      assert es[..i + 1][..i] == es[..i];
      assert Run(es[..i + 1], cfg, H) == Apply(Run(es[..i], cfg, H), es[i], cfg, H);
      assert !Exclusive(Run(es[..i + 1], cfg, H), H);
    }
  }

  lemma InvariantIssued(s: State, H: Token -> Fence.Hash)
    requires Invariant(s, H)
    ensures IssuedOnce(s)
  {
  }

  lemma PrefixPossible(es: seq<Event>, i: nat, cfg: Config, H: Token -> Fence.Hash)
    requires i <= |es| && PossibleRun(es, cfg, H)
    ensures PossibleRun(es[..i], cfg, H)
  {
    hide Possible, Run;
    forall j | 0 <= j < i ensures es[..i][..j] == es[..j] && es[..i][j] == es[j] {
    }
  }

  /** Every session request of a heartbeat, one for each agent it starts without a session for this
      node, succeeds and is heard. */
  ghost predicate AllOpensSucceed(s: State, e: Event) {
    e.Beat? && IndexOfNode(s.nodes, e.node) >= 0 ==>
      forall k :: StartsAt(s, e, k) && !Current(s.agents[k], e.node) ==>
        s.agents[k].id in e.replies && e.replies[s.agents[k].id].Answered?
  }

  /** As long as session requests succeed, at most one node can trade, in every state of every run. */
  lemma SuccessfulOpensExclude(es: seq<Event>, cfg: Config, H: Token -> Fence.Hash)
    requires Fence.Injective(H) && PossibleRun(es, cfg, H)
    requires forall i :: 0 <= i < |es| ==> AllOpensSucceed(Run(es[..i], cfg, H), es[i])
    ensures forall i :: 0 <= i <= |es| ==> Exclusive(Run(es[..i], cfg, H), H)
  {
    hide Apply, Possible, Fence.Injective, Exclusive, Run;
    AtMostOneIff(es, cfg, H);
    forall i | 0 <= i < |es| ensures !RefusedMove(Run(es[..i], cfg, H), es[i], H) {
      SuccessIsNoRefusal(Run(es[..i], cfg, H), es[i], H);
    }
  }

  lemma SuccessIsNoRefusal(s: State, e: Event, H: Token -> Fence.Hash)
    requires AllOpensSucceed(s, e)
    ensures !RefusedMove(s, e, H)
  {
    hide StartsAt;
  }

  // ---------------------------------------------------------------------------------------------
  // The hypothesis is needed
  // ---------------------------------------------------------------------------------------------

  const PLAIN := Spec(None, "")

  function OneAgent(phase: Phase, nodeId: Option<NodeId>, placedAt: int, session: Option<Session>): Agent {
    Agent("x", PLAIN, true, phase, nodeId, [], 0, placedAt, session)
  }

  const CFG := Config(30, 45)
  const NODE_A := Node("A", "none", false, 1, Up, 0)
  const NODE_B := Node("B", "none", false, 1, Up, 100)
  const FIRST := Session(1, "t", "A")

  /** Two nodes, one agent: placed on A and given a session there; A falls silent and the sweep moves
      the agent to B; B's heartbeat comes while the signer refuses session requests. */
  function RefusedRun(): seq<Event> {
    [Register("A", "none", 1, 0), Create("x", PLAIN), StartAgent("x", 0), Beat("A", [], 0, map["x" := Answered("t")]),
     Register("B", "none", 1, 100), Sweep(100), Beat("B", [], 100, map[])]
  }

  function Signer(H: Token -> Fence.Hash): Fence.Table {
    map["x" := Some(Fence.SessionRec(1, H("t")))]
  }

  /** The states of that run. */
  function RefusedState(k: nat, H: Token -> Fence.Hash): State {
    var i, h, g := Issue("t", "x", 1, "A"), Handout("x", 1, "t", "A"), Handout("x", 1, "t", "B");
    if k == 0 then Init
    else if k == 1 then State([NODE_A], [], map[], {}, {})
    else if k == 2 then State([NODE_A], [NewAgent("x", PLAIN)], map["x" := None], {}, {})
    else if k == 3 then State([NODE_A], [OneAgent(Scheduled, Some("A"), 0, None)], map["x" := None], {}, {})
    else if k == 4 then State([NODE_A], [OneAgent(Scheduled, Some("A"), 0, Some(FIRST))], Signer(H), {i}, {h})
    else if k == 5 then State([NODE_A, NODE_B], [OneAgent(Scheduled, Some("A"), 0, Some(FIRST))], Signer(H), {i}, {h})
    else
      var handed := if k == 6 then {h} else {h, g};
      var moved := OneAgent(Scheduled, Some("B"), 100, Some(FIRST));
      State([NODE_A.(status := Down), NODE_B], [moved], Signer(H), {i}, handed)
  }

  lemma PickOnly(nodes: seq<Node>, n: Node, agents: seq<Agent>, a: Agent)
    requires n in nodes && Candidate(n, agents, a, [])
    requires forall m :: m in nodes && m != n ==> !Candidate(m, agents, a, [])
    ensures PickNode(nodes, agents, a, []) == Some(n)
  {
  }

  lemma StartsOnA(H: Token -> Fence.Hash)
    ensures Apply(RefusedState(2, H), StartAgent("x", 0), CFG, H) == RefusedState(3, H)
  {
    var asked := [StartRequested(NewAgent("x", PLAIN))];
    assert Assigned(asked, "A") == 0;
    PickOnly([NODE_A], NODE_A, asked, asked[0]);
    assert IndexOfAgent([NewAgent("x", PLAIN)], "x") == 0;
    assert [NewAgent("x", PLAIN)][0 := asked[0]] == asked;
    assert Place([NODE_A], asked, asked[0], 0) == OneAgent(Scheduled, Some("A"), 0, None);
    assert asked[0 := OneAgent(Scheduled, Some("A"), 0, None)] == [OneAgent(Scheduled, Some("A"), 0, None)];
  }

  lemma OneStart(a: Agent, b: Agent, n: NodeId, maxAgents: int, answers: Answers)
    requires Starts(a, n, [], maxAgents) && b == WithSession(a, n, answers)
    ensures BeatResult([a], n, maxAgents, [], answers) == ([b], [Start(a.id, b.session)])
  {
    assert [a][1..] == [];
    assert ControlPlane.Beaten(a, n, [], maxAgents, answers) == b;
    assert BeatAgents([a], n, [], maxAgents, answers) == [b];
    assert Orders(a, n, [], maxAgents, answers) == [Start(a.id, b.session)];
    assert BeatOrders([a], n, [], maxAgents, answers) == [Start(a.id, b.session)];
    assert OrphanStops([b], n, []) == [];
  }

  lemma BeatOfA(H: Token -> Fence.Hash)
    ensures Apply(RefusedState(3, H), Beat("A", [], 0, map["x" := Answered("t")]), CFG, H) == RefusedState(4, H)
  {
    var s, e := RefusedState(3, H), Beat("A", [], 0, map["x" := Answered("t")]);
    var a := s.agents[0];
    var answers := AnswersOf(s.signer, e.replies);
    assert answers == map["x" := (1, "t")];
    assert WithSession(a, "A", answers) == OneAgent(Scheduled, Some("A"), 0, Some(FIRST));
    assert Orders(a, "A", [], 1, answers) == [Start("x", Some(FIRST))];
    assert BeatOrders(s.agents, "A", [], 1, answers) == [Start("x", Some(FIRST))] + BeatOrders([], "A", [], 0, answers);
    OneStart(s.agents[0], OneAgent(Scheduled, Some("A"), 0, Some(FIRST)), "A", 1, answers);
    assert Cloud.Beaten(s, e) == ([OneAgent(Scheduled, Some("A"), 0, Some(FIRST))], [Start("x", Some(FIRST))]);
    assert HandoutsOf([Start("x", Some(FIRST))], "A") == {Handout("x", 1, "t", "A")};
    assert IssuesOf(s.signer, e.replies, "A") == {Issue("t", "x", 1, "A")};
    assert Rotated(s.signer, e.replies, H) == Signer(H);
  }

  lemma SweepMoves(H: Token -> Fence.Hash)
    ensures Apply(RefusedState(5, H), Sweep(100), CFG, H) == RefusedState(6, H)
  {
    var s := RefusedState(5, H);
    var nodes := DownNodes(s.nodes, 100, CFG);
    assert nodes == [NODE_A.(status := Down), NODE_B];
    assert TimedOut(s.nodes[0], 100, CFG) && s.nodes[0].id == "A";
    var freed := FreedAll(s.nodes, s.agents, 100, CFG);
    assert freed == [OneAgent(Failed, None, 0, Some(FIRST))];
    assert Assigned(freed, "B") == 0;
    PickOnly(nodes, NODE_B, freed, freed[0]);
    assert Place(nodes, freed, freed[0], 100) == OneAgent(Scheduled, Some("B"), 100, Some(FIRST));
    var placed := [OneAgent(Scheduled, Some("B"), 100, Some(FIRST))];
    assert PlaceFrom(nodes, freed, 0, 100) == PlaceFrom(nodes, placed, 1, 100);
  }

  lemma BeatOfB(H: Token -> Fence.Hash)
    ensures Apply(RefusedState(6, H), Beat("B", [], 100, map[]), CFG, H) == RefusedState(7, H)
  {
    var s, e := RefusedState(6, H), Beat("B", [], 100, map[]);
    var a := s.agents[0];
    assert s.nodes[0].id == "A";
    assert IndexOfNode(s.nodes[1..], "B") == 0 && IndexOfNode(s.nodes, "B") == 1;
    var answers := AnswersOf(s.signer, e.replies);
    assert Orders(a, "B", [], 1, answers) == [Start("x", Some(FIRST))];
    assert BeatOrders(s.agents, "B", [], 1, answers) == [Start("x", Some(FIRST))] + BeatOrders([], "B", [], 0, answers);
    OneStart(s.agents[0], s.agents[0], "B", 1, answers);
    assert Cloud.Beaten(s, e) == (s.agents, [Start("x", Some(FIRST))]);
    assert HandoutsOf([Start("x", Some(FIRST))], "B") == {Handout("x", 1, "t", "B")};
    assert IssuesOf(s.signer, e.replies, "B") == {};
    assert Rotated(s.signer, e.replies, H) == Signer(H);
  }

  lemma FirstRegisters(H: Token -> Fence.Hash)
    ensures Apply(RefusedState(0, H), Register("A", "none", 1, 0), CFG, H) == RefusedState(1, H)
  {
  }

  lemma AgentCreated(H: Token -> Fence.Hash)
    ensures Apply(RefusedState(1, H), Create("x", PLAIN), CFG, H) == RefusedState(2, H)
  {
  }

  lemma SecondRegisters(H: Token -> Fence.Hash)
    ensures Apply(RefusedState(4, H), Register("B", "none", 1, 100), CFG, H) == RefusedState(5, H)
  {
    assert IndexOfNode([NODE_A], "B") < 0;
  }

  lemma RefusedStep(k: nat, H: Token -> Fence.Hash)
    requires 1 <= k <= 7
    ensures Apply(RefusedState(k - 1, H), RefusedRun()[k - 1], CFG, H) == RefusedState(k, H)
  {
    hide Apply, RefusedState;
    if k == 1 { FirstRegisters(H); }
    else if k == 2 { AgentCreated(H); }
    else if k == 3 { StartsOnA(H); }
    else if k == 4 { BeatOfA(H); }
    else if k == 5 { SecondRegisters(H); }
    else if k == 6 { SweepMoves(H); }
    else { BeatOfB(H); }
  }

  lemma {:induction false} RefusedRunStates(k: nat, H: Token -> Fence.Hash)
    requires k <= 7
    ensures Run(RefusedRun()[..k], CFG, H) == RefusedState(k, H)
  {
    hide Apply;
    if k > 0 {
      hide RefusedState;
      RefusedRunStates(k - 1, H);
      assert RefusedRun()[..k][..k - 1] == RefusedRun()[..k - 1];
      RefusedStep(k, H);
    }
  }

  /** After that run A and B both hold the session the signer accepts: without successful session
      requests the fence does not keep two nodes apart. */
  lemma RefusedOpenBreaksTheFence(H: Token -> Fence.Hash)
    ensures PossibleRun(RefusedRun(), CFG, H)
    ensures !Exclusive(Run(RefusedRun(), CFG, H), H)
  {
    hide Apply, Run;
    forall i | 0 <= i < 7 ensures Possible(Run(RefusedRun()[..i], CFG, H), RefusedRun()[i]) {
      RefusedRunStates(i, H);
    }
    RefusedRunStates(7, H);
    assert RefusedRun()[..7] == RefusedRun();
    var s := Run(RefusedRun(), CFG, H);
    var h, g := Handout("x", 1, "t", "A"), Handout("x", 1, "t", "B");
    assert h in s.handed && g in s.handed && Accepted(s, h, H) && Accepted(s, g, H);
  }
}
