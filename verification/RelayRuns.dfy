/**
  The writer and the broadcast as one machine: events of the actor, joining
  clients and forwards, in any order.
 */
module RelayRuns {
  import opened Text
  import T = Topology
  import B = Broadcast
  import R = BroadcastRuns

  datatype Action = Handle(event: T.Event) | Join | Forward(sink: R.Sink)

  datatype System = System(topology: T.Topology, world: R.World)

  /** The actor publishes its catalog over the default topology before anything else. */
  function Launch(t: T.Topology, profiles: string): System {
    var first := T.Step(t, T.SetAgentProfiles(profiles)).0;
    System(first, R.Start(B.InventoryOf(t), B.InventoryOf(first)))
  }

  function Act(s: System, action: Action): System
    requires s.world.history != []
  {
    match action
    case Handle(event) =>
      var (next, publishes) := T.Step(s.topology, event);
      System(next, if publishes then R.Next(s.world, R.Publish(B.InventoryOf(next))) else s.world)
    case Join => s.(world := R.Next(s.world, R.Join))
    case Forward(sink) => s.(world := R.Next(s.world, R.Forward(sink)))
  }

  function Run(s: System, actions: seq<Action>): (after: System)
    requires s.world.history != []
    ensures after.world.history != []
  {
    if actions == [] then s else Act(Run(s, actions[..|actions| - 1]), actions[|actions| - 1])
  }

  /** What a client ought to hold. */
  function Shown(t: T.Topology): B.View { B.Projection(B.InventoryOf(t)) }

  /** The channel holds the committed topology. */
  ghost predicate Tracks(s: System) {
    && R.Consistent(s.world)
    && R.Latest(s.world).revision == s.topology.revision
    && B.Projection(R.Latest(s.world)) == Shown(s.topology)
  }

  lemma {:induction false} RowsIgnoreAttempt(t: T.Topology, now: nat, infos: seq<T.AgentInfo>)
    ensures B.Rows(t.(attemptedAt := now), infos) == B.Rows(t, infos)
    decreases |infos|
  {
    if infos != [] { RowsIgnoreAttempt(t, now, infos[..|infos| - 1]); }
  }

  lemma {:induction false} EffectiveIgnoresAttempt(t: T.Topology, now: nat, all: seq<string>)
    ensures B.Effective(t.(attemptedAt := now), all) == B.Effective(t, all)
    decreases |all|
  {
    if all != [] { EffectiveIgnoresAttempt(t, now, all[..|all| - 1]); }
  }

  /** An event that is not published changes nothing a client sees. */
  lemma UnpublishedIsUnseen(t: T.Topology, event: T.Event)
    requires !T.Step(t, event).1
    ensures Shown(T.Step(t, event).0) == Shown(t) && T.Step(t, event).0.revision == t.revision
  {
    var next := T.Step(t, event).0;
    T.StepRevision(t, event);
    RowsIgnoreAttempt(t, next.attemptedAt, t.snapshot.agents);
    EffectiveIgnoresAttempt(t, next.attemptedAt, B.CAPABILITIES);
  }

  /** The same action as a step of the broadcast; an unpublished event repeats a revision, which is no step. */
  function StepOf(s: System, action: Action): R.Step {
    match action
    case Handle(event) => R.Publish(B.InventoryOf(T.Step(s.topology, event).0))
    case Join => R.Join
    case Forward(sink) => R.Forward(sink)
  }

  lemma ActIsStep(s: System, action: Action)
    requires Tracks(s)
    ensures Act(s, action).world == R.Next(s.world, StepOf(s, action))
    ensures Tracks(Act(s, action))
  {
    R.NextIsConsistent(s.world, StepOf(s, action));
    if action.Handle? {
      T.StepRevision(s.topology, action.event);
      if !T.Step(s.topology, action.event).1 { UnpublishedIsUnseen(s.topology, action.event); }
    }
  }

  function StepsOf(s: System, actions: seq<Action>): (steps: seq<R.Step>)
    requires s.world.history != []
    ensures |steps| == |actions|
  {
    if actions == [] then [] else
      var n := |actions| - 1;
      StepsOf(s, actions[..n]) + [StepOf(Run(s, actions[..n]), actions[n])]
  }

  lemma {:induction false} RunIsRun(s: System, actions: seq<Action>)
    requires Tracks(s)
    ensures Run(s, actions).world == R.Run(s.world, StepsOf(s, actions))
    ensures Tracks(Run(s, actions))
    decreases |actions|
  {
    if actions != [] {
      var n := |actions| - 1;
      RunIsRun(s, actions[..n]);
      ActIsStep(Run(s, actions[..n]), actions[n]);
      assert StepsOf(s, actions)[..n] == StepsOf(s, actions[..n]);
    }
  }

  lemma {:induction false} PrefixSteps(s: System, actions: seq<Action>, k: nat)
    requires s.world.history != [] && k <= |actions|
    ensures StepsOf(s, actions)[..k] == StepsOf(s, actions[..k])
    decreases |actions|
  {
    if k == |actions| {
      assert actions[..k] == actions;
    } else {
      PrefixSteps(s, actions[..|actions| - 1], k);
      assert actions[..|actions| - 1][..k] == actions[..k];
    }
  }

  predicate Completes(s: System, action: Action)
    requires s.world.history != []
  {
    action.Forward? && R.Completes(s.world, R.Forward(action.sink))
  }

  /** If action k is a completed forward, its client then sees the topology as committed. */
  predicate ShowsAt(s: System, actions: seq<Action>, k: nat)
    requires s.world.history != [] && k < |actions|
  {
    var at := Run(s, actions[..k]);
    Completes(at, actions[k]) ==> Run(s, actions[..k + 1]).world.client == Shown(at.topology)
  }

  predicate ServedAt(s: System, actions: seq<Action>, k: nat)
    requires s.world.history != [] && k < |actions|
  {
    var at := Run(s, actions[..k]);
    Completes(at, actions[k]) && at.world.sent.None? ==>
      B.Served(at.world.client, R.Latest(at.world), at.world.base)
  }

  lemma WorldAt(s: System, actions: seq<Action>, k: nat)
    requires Tracks(s) && k <= |actions|
    ensures Tracks(Run(s, actions[..k]))
    ensures Run(s, actions[..k]).world == R.Run(s.world, StepsOf(s, actions)[..k])
  {
    PrefixSteps(s, actions, k);
    RunIsRun(s, actions[..k]);
  }

  lemma StepAt(s: System, actions: seq<Action>, k: nat)
    requires s.world.history != [] && k < |actions|
    ensures StepsOf(s, actions)[k] == StepOf(Run(s, actions[..k]), actions[k])
  {
    PrefixSteps(s, actions, k + 1);
    assert actions[..k + 1][..k] == actions[..k];
    assert StepsOf(s, actions)[k] == StepsOf(s, actions)[..k + 1][k];
  }

  lemma ServedSame(s: System, actions: seq<Action>, k: nat)
    requires Tracks(s) && k < |actions|
    ensures ServedAt(s, actions, k) <==> R.ServedAt(s.world, StepsOf(s, actions), k)
  {
    WorldAt(s, actions, k);
    StepAt(s, actions, k);
  }

  lemma ShowsSame(s: System, actions: seq<Action>, k: nat)
    requires Tracks(s) && k < |actions|
    ensures ShowsAt(s, actions, k) <==> R.ConvergesAt(s.world, StepsOf(s, actions), k)
  {
    var at, after := Run(s, actions[..k]), Run(s, actions[..k + 1]);
    WorldAt(s, actions, k);
    WorldAt(s, actions, k + 1);
    StepAt(s, actions, k);
    R.RunSnoc(s.world, StepsOf(s, actions), k);
    ShowsIsConverges(at, actions[k], after.world);
  }

  lemma ShowsIsConverges(at: System, action: Action, after: R.World)
    requires Tracks(at) && after == R.Next(at.world, StepOf(at, action))
    ensures Completes(at, action) <==> R.Completes(at.world, StepOf(at, action))
    ensures B.Projection(R.Latest(at.world)) == Shown(at.topology)
    ensures Completes(at, action) ==> after.sent == Some(R.Latest(at.world).revision)
  {
  }

  lemma LaunchTracks(t: T.Topology, profiles: string)
    requires t.revision == 0 && t.agentProfiles == None
    ensures Tracks(Launch(t, profiles)) && R.Synced(Launch(t, profiles).world)
  {
    var first := T.Step(t, T.SetAgentProfiles(profiles)).0;
    R.StartIsConsistent(B.InventoryOf(t), B.InventoryOf(first));
  }

  /**
    In every run of actor events, joins and forwards, every completed forward shows its client the
    topology the actor has committed by then, if and only if every first forward serves its client.
   */
  lemma EveryForwardShowsTopology(t: T.Topology, profiles: string, s: System, actions: seq<Action>)
    requires t.revision == 0 && t.agentProfiles == None && s == Launch(t, profiles)
    ensures (forall k: nat | k < |actions| :: ShowsAt(s, actions, k)) <==>
            (forall k: nat | k < |actions| :: ServedAt(s, actions, k))
  {
    LaunchTracks(t, profiles);
    R.RunConvergesExactly(s.world, StepsOf(s, actions));
    forall k: nat | k < |actions|
      ensures ServedAt(s, actions, k) <==> R.ServedAt(s.world, StepsOf(s, actions), k)
      ensures ShowsAt(s, actions, k) <==> R.ConvergesAt(s.world, StepsOf(s, actions), k)
    {
      ServedSame(s, actions, k);
      ShowsSame(s, actions, k);
    }
  }

  /** While first forwards serve their clients, every completed forward displays the committed topology. */
  lemma EveryForwardDisplays(t: T.Topology, profiles: string, s: System, actions: seq<Action>, k: nat)
    requires t.revision == 0 && t.agentProfiles == None && s == Launch(t, profiles)
    requires forall j: nat | j < |actions| :: ServedAt(s, actions, j)
    requires k < |actions| && Completes(Run(s, actions[..k]), actions[k])
    ensures B.Displays(Run(s, actions[..k + 1]).world.client, Run(s, actions[..k]).topology)
  {
    EveryForwardShowsTopology(t, profiles, s, actions);
    assert ShowsAt(s, actions, k);
    B.ProjectionDisplays(Run(s, actions[..k]).topology);
  }

  lemma RunSnoc(s: System, actions: seq<Action>, k: nat)
    requires s.world.history != [] && k < |actions|
    ensures Run(s, actions[..k + 1]) == Act(Run(s, actions[..k]), actions[k])
  {
    assert actions[..k + 1][..k] == actions[..k];
  }

  /** A published status event, forwarded: the client sees the status of the event in the pane's row. */
  lemma StatusIsForwarded(
    t: T.Topology, profiles: string, s: System, actions: seq<Action>, k: nat,
    payload: T.StatusPayload, ledger: string, i: nat)
    requires t.revision == 0 && t.agentProfiles == None && s == Launch(t, profiles)
    requires forall j: nat | j < |actions| :: ServedAt(s, actions, j)
    requires k + 1 < |actions| && actions[k] == Handle(T.StatusChanged(payload, ledger))
    requires Completes(Run(s, actions[..k + 1]), actions[k + 1])
    requires var rows := Run(s, actions[..k]).topology.snapshot.agents;
             T.IsFirstRow(rows, payload.paneId, i) && !T.SaysNothingNew(rows[i], payload)
    ensures var client := Run(s, actions[..k + 2]).world.client;
            && client.agents.Some? && i < |client.agents.value|
            && client.agents.value[i].info.paneId == payload.paneId
            && client.agents.value[i].info.status == payload.status && client.agents.value[i].ledger == ledger
  {
    RunSnoc(s, actions, k);
    T.StatusIsAdopted(Run(s, actions[..k]).topology, payload, ledger, i);
    EveryForwardDisplays(t, profiles, s, actions, k + 1);
    var client := Run(s, actions[..k + 2]).world.client;
    assert B.DisplaysRow(client.agents.value[i], Run(s, actions[..k + 1]).topology, i);
  }

  /** A bumped pane, forwarded: the client sees it under the next generation. */
  lemma BumpIsForwarded(
    t: T.Topology, profiles: string, s: System, actions: seq<Action>, k: nat, paneId: string, ledger: string, i: nat)
    requires t.revision == 0 && t.agentProfiles == None && s == Launch(t, profiles)
    requires forall j: nat | j < |actions| :: ServedAt(s, actions, j)
    requires k + 1 < |actions| && actions[k] == Handle(T.BumpGeneration(paneId, ledger))
    requires Completes(Run(s, actions[..k + 1]), actions[k + 1])
    requires var rows := Run(s, actions[..k]).topology.snapshot.agents; i < |rows| && rows[i].paneId == paneId
    ensures var client := Run(s, actions[..k + 2]).world.client;
            && client.agents.Some? && i < |client.agents.value| && client.agents.value[i].info.paneId == paneId
            && client.agents.value[i].generation == T.GenerationOf(Run(s, actions[..k]).topology, paneId) + 1
  {
    RunSnoc(s, actions, k);
    T.BumpRaisesOne(Run(s, actions[..k]).topology, paneId, ledger, paneId);
    EveryForwardDisplays(t, profiles, s, actions, k + 1);
    var client := Run(s, actions[..k + 2]).world.client;
    assert B.DisplaysRow(client.agents.value[i], Run(s, actions[..k + 1]).topology, i);
  }
}
