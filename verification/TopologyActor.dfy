/**
  The writer and the forwarder as they run: the committed state, the published
  view and the last revision sent, updated in place.
 */
module TopologyActor {
  import opened Text
  import T = Topology
  import B = Broadcast
  import R = BroadcastRuns

  class TopologyState {
    var revision: nat
    var snapshot: T.Snapshot
    var stale: bool
    var acceptedAt: nat
    var attemptedAt: nat
    var inventoryReady: bool
    var inventoryErrorCode: string
    var inventoryMessage: string
    var herdrStatus: T.HerdrStatus
    var localSpeech: T.LocalSpeech
    var agentProfiles: Option<string>
    var generations: map<string, nat>
    var stateRevs: map<string, nat>
    var ledgers: map<string, string>

    function Value(): T.Topology
      reads this
    {
      T.Topology(revision, snapshot, stale, acceptedAt, attemptedAt, inventoryReady, inventoryErrorCode,
                 inventoryMessage, herdrStatus, localSpeech, agentProfiles, generations, stateRevs, ledgers)
    }

    constructor ()
      ensures Value() == T.DEFAULT
    {
      revision, snapshot, stale := 0, T.Snapshot([], "", ""), true;
      acceptedAt, attemptedAt, inventoryReady, inventoryErrorCode, inventoryMessage := 0, 0, false, "", "";
      herdrStatus, localSpeech, agentProfiles := T.HerdrStatus({}, ""), T.LocalSpeech([], false), None;
      generations, stateRevs, ledgers := map[], map[], map[];
    }

    /** The event path keeps committed statuses, row by row. */
    method KeepStatuses(rows: seq<T.AgentInfo>, kind: T.CommitKind) returns (kept: seq<T.AgentInfo>)
      ensures kept == T.RowsFor(Value(), rows, kind)
    {
      if kind == T.PollCommit { return rows; }
      kept := [];
      for i := 0 to |rows|
        invariant kept == T.RowsFor(Value(), rows[..i], kind)
      {
        assert rows[..i + 1][..i] == rows[..i];
        kept := kept + [T.KeepStatus(Value(), rows[i])];
      }
      assert rows[..|rows|] == rows;
    }

    /** Replaced and returning panes start a session. */
    method AdvanceSessions(rows: seq<T.AgentInfo>)
      modifies this`generations
      ensures generations == T.AfterRows(old(Value()), rows)
    {
      ghost var before := Value();
      for i := 0 to |rows|
        invariant generations == T.AfterRows(before, rows[..i])
        invariant Value() == before.(generations := generations)
      {
        assert rows[..i + 1][..i] == rows[..i];
        var paneId := rows[i].paneId;
        var existing := T.Find(snapshot.agents, paneId);
        var replaced := existing.Some? && T.IdentityMoved(existing.value, rows[i]);
        if replaced || (existing.None? && acceptedAt != 0 && T.Generation(generations, paneId) > 0) {
          generations := T.Bump(generations, paneId);
        }
      }
      assert rows[..|rows|] == rows;
    }

    /** The removal pass. */
    method EndSessions(gone: set<string>)
      modifies this`generations
      ensures generations == T.AfterRemoval(old(generations), gone)
    {
      ghost var before := generations;
      var left := gone;
      while left != {}
        invariant left <= gone && generations == T.AfterRemoval(before, gone - left)
        decreases |left|
      {
        var paneId :| paneId in left;
        T.RemoveOne(before, gone - left, paneId);
        assert gone - (left - {paneId}) == (gone - left) + {paneId};
        generations := T.Bump(generations, paneId);
        left := left - {paneId};
      }
      assert gone - left == gone;
    }

    method UpdateSessions(rows: seq<T.AgentInfo>)
      modifies this`generations
      ensures generations == T.GenerationsAfter(old(Value()), rows)
    {
      AdvanceSessions(rows);
      EndSessions(T.PaneIds(snapshot.agents) - T.PaneIds(rows));
    }

    method RecordRows(committed: T.Snapshot, newLedgers: map<string, string>)
      modifies this`revision, this`snapshot, this`stateRevs, this`ledgers
      ensures Value() == T.RowsRecorded(old(Value()), committed, newLedgers)
    {
      revision, snapshot := revision + 1, committed;
      stateRevs, ledgers := T.Stamps(committed.agents, revision), newLedgers;
    }

    method MarkReady(now: nat)
      modifies this`stale, this`acceptedAt, this`attemptedAt
      modifies this`inventoryReady, this`inventoryErrorCode, this`inventoryMessage
      ensures Value() == T.Ready(old(Value()), now)
    {
      stale, acceptedAt, attemptedAt := false, now, now;
      inventoryReady, inventoryErrorCode, inventoryMessage := true, "", "";
    }

    method AcceptEnriched(sampled: T.Snapshot, newLedgers: map<string, string>, kind: T.CommitKind, now: nat)
      modifies this
      ensures Value() == T.AcceptEnriched(old(Value()), sampled, newLedgers, kind, now)
    {
      var rows := KeepStatuses(sampled.agents, kind);
      UpdateSessions(rows);
      RecordRows(sampled.(agents := rows), newLedgers);
      MarkReady(now);
    }

    method CommitAgentStatus(payload: T.StatusPayload, ledger: string) returns (committed: bool)
      modifies this
      ensures var next := T.CommitAgentStatus(old(Value()), payload, ledger);
              committed == next.Some? && Value() == if committed then next.value else old(Value())
    {
      var agents := snapshot.agents;
      var i := T.Position(agents, payload.paneId);
      if i == |agents| || T.Duplicates(agents[i], payload) { return false; }
      revision := revision + 1;
      snapshot := snapshot.(agents := agents[i := T.Adopt(agents[i], payload)]);
      stateRevs := stateRevs[payload.paneId := revision];
      ledgers := ledgers[payload.paneId := ledger];
      committed := true;
    }

    method MarkInventoryFailure(now: nat) returns (moved: bool)
      modifies this
      ensures (Value(), moved) == T.Step(old(Value()), T.PollFailed(now))
    {
      attemptedAt := now;
      if !inventoryReady && inventoryErrorCode == T.COMMAND_FAILED { return false; }
      inventoryReady, inventoryErrorCode, inventoryMessage := false, T.COMMAND_FAILED, T.FAILURE_MESSAGE;
      revision := revision + 1;
      moved := true;
    }

    /** One arm of the select loop, up to its publish. */
    method Apply(event: T.Event) returns (publishes: bool)
      modifies this
      ensures (Value(), publishes) == T.Step(old(Value()), event)
    {
      publishes := true;
      match event
      case Accept(sampled, newLedgers, kind, now) =>
        AcceptEnriched(sampled, newLedgers, kind, now);
      case StatusChanged(payload, ledger) =>
        publishes := CommitAgentStatus(payload, ledger);
      case BumpGeneration(paneId, ledger) =>
        generations, ledgers := T.Bump(generations, paneId), ledgers[paneId := ledger];
        revision := revision + 1;
      case MarkStale =>
        if stale { return false; }
        stale, revision := true, revision + 1;
      case PollFailed(now) =>
        publishes := MarkInventoryFailure(now);
      case SetHerdrStatus(status) =>
        if herdrStatus == status { return false; }
        herdrStatus, revision := status, revision + 1;
      case SetLocalSpeech(facts) =>
        if localSpeech == facts { return false; }
        localSpeech, revision := facts, revision + 1;
      case SetAgentProfiles(profiles) =>
        if agentProfiles == Some(profiles) { return false; }
        agentProfiles, revision := Some(profiles), revision + 1;
    }
  }

  class PublishedView {
    var inventory: Option<B.Key>
    var agents: Option<seq<B.AgentRow>>
    var workspaces: Option<string>
    var herdr: Option<(T.HerdrStatus, string)>
    var capabilities: Option<seq<string>>

    function Value(): B.View
      reads this
    {
      B.View(inventory, agents, workspaces, herdr, capabilities)
    }

    constructor ()
      ensures Value() == B.NOTHING
    {
      inventory, agents, workspaces, herdr, capabilities := None, None, None, None, None;
    }

    /** The frames owed against the view; afterwards the view is the new projection. */
    method BroadcastDiff(i: B.Inventory) returns (frames: seq<B.Frame>)
      modifies this
      ensures frames == B.Diff(i, old(Value()))
      ensures Value() == B.Projection(i)
    {
      var readyRecovery := B.ReadyRecovery(i, Value());
      var rows := B.Unstamped(i.rows);
      var sendAgents := agents != Some(rows) || readyRecovery;
      var sendWorkspaces := workspaces != Some(i.workspaces) || readyRecovery;
      var sendHerdr := herdr != Some(i.herdr);
      var sendCaps := capabilities.Some? && capabilities != Some(i.capabilities);
      frames := [];
      if inventory != Some(i.key) { frames := frames + [B.StatusFrame(i)]; }
      if sendAgents { frames := frames + [B.Agents(rows)]; }
      if sendWorkspaces { frames := frames + [B.Workspaces(i.workspaces)]; }
      if sendHerdr { frames := frames + [B.HerdrStatusFrame(i.herdr)]; }
      if sendCaps { frames := frames + [B.CapsUpdate(i.capabilities)]; }
      inventory := Some(i.key);
      if sendAgents { agents := Some(rows); }
      if sendWorkspaces { workspaces := Some(i.workspaces); }
      if sendHerdr { herdr := Some(i.herdr); }
      capabilities := Some(i.capabilities);
    }
  }

  /** The value of the channel: a projection and the frames stamped on it. */
  datatype Published = Published(inventory: B.Inventory, frames: seq<B.Frame>)

  /** One turn of the actor: every publish carries the next revision and the difference to the view. */
  method Turn(state: TopologyState, view: PublishedView, event: T.Event) returns (published: Option<Published>)
    modifies state, view
    ensures (state.Value(), published.Some?) == T.Step(old(state.Value()), event)
    ensures published.Some? ==>
              && published.value.inventory == B.InventoryOf(state.Value())
              && published.value.inventory.revision == old(state.revision) + 1
              && published.value.frames == B.Diff(published.value.inventory, old(view.Value()))
              && view.Value() == B.Projection(published.value.inventory)
    ensures published.None? ==> state.revision == old(state.revision) && view.Value() == old(view.Value())
  {
    T.StepRevision(state.Value(), event);
    var publishes := state.Apply(event);
    if !publishes { return None; }
    var inventory := B.InventoryOf(state.Value());
    var frames := view.BroadcastDiff(inventory);
    published := Some(Published(inventory, frames));
  }

  /** What a run of the actor publishes, in order. */
  function Publications(t: T.Topology, events: seq<T.Event>): seq<B.Inventory> {
    if events == [] then [] else
      var n := |events| - 1;
      var before := Publications(t, events[..n]);
      var (next, published) := T.Step(T.Run(t, events[..n]), events[n]);
      if published then before + [B.InventoryOf(next)] else before
  }

  /** The publications of every run are numbered one by one: each is a step the broadcast machine takes. */
  lemma {:induction false} PublicationsAreConsecutive(t: T.Topology, events: seq<T.Event>, i: nat)
    requires i < |Publications(t, events)|
    ensures Publications(t, events)[i].revision == t.revision + 1 + i
    decreases |events|
  {
    var n := |events| - 1;
    PublicationCount(t, events[..n]);
    T.RevisionCountsPublishes(t, events[..n]);
    T.StepRevision(T.Run(t, events[..n]), events[n]);
    if i < |Publications(t, events[..n])| { PublicationsAreConsecutive(t, events[..n], i); }
  }

  lemma {:induction false} PublicationCount(t: T.Topology, events: seq<T.Event>)
    ensures |Publications(t, events)| == T.Publishes(t, events)
    decreases |events|
  {
    if events != [] { PublicationCount(t, events[..|events| - 1]); }
  }

  class Forwarder {
    var sentRevision: Option<nat>

    constructor ()
      ensures sentRevision == None
    {
      sentRevision := None;
    }

    /** One wake of the forwarder: only a completed send earns the watermark. */
    method Forward(latest: Published, sink: R.Sink) returns (delivered: seq<B.Frame>, alive: bool)
      modifies this
      ensures var frames := R.FramesOf(old(sentRevision), latest.inventory, latest.frames);
              && alive == (sink.Missing? || sink.frames >= |frames|)
              && delivered == (if sink.Missing? then [] else if alive then frames else frames[..sink.frames])
              && sentRevision == if sink.Takes? && alive then Some(latest.inventory.revision) else old(sentRevision)
    {
      var frames := latest.frames;
      if sentRevision.Some? && latest.inventory.revision > sentRevision.value + 1 {
        frames := B.FullInventory(latest.inventory) + latest.frames;
      }
      delivered := [];
      if sink.Missing? { return delivered, true; }
      for i := 0 to |frames|
        invariant i <= sink.frames && delivered == frames[..i]
      {
        if i == sink.frames { return delivered, false; }
        delivered := delivered + [frames[i]];
      }
      sentRevision := Some(latest.inventory.revision);
      alive := true;
    }
  }
}
