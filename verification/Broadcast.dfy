/**
  The topology broadcast: every publish carries the difference to the last
  published view, over a channel that keeps only the latest value; each client
  has a forwarder that notices skipped revisions and heals with full rows.
 */
module Broadcast {
  import opened Text
  import T = Topology

  const CAPABILITIES := [
    "attention_classification", "clear_activities", "directory_browser", "workspace_management",
    "worktree_management", "self_update", "structured_questions", "slash_commands", "conversation_history",
    "pane_size_lease", "pane_size_lease_rows", "workspace_inspection", "semantic_input", "secret_input",
    "invitation_qr", "typed_push", "push_policy", "device_management", "pane_realtime_delta", "tab_reorder",
    "workspace_reorder_block", "speech_synthesis", "speech_voice_management", "focus", "pane_search",
    "pane_links", "layout", "convo_sub", "frame_zstd", "upload_binary"]

  /** The capabilities that live evidence about Herdr's methods can refute. */
  const EVIDENCE_GATED := {
    "focus", "pane_search", "pane_links", "layout", "pane_realtime_delta", "tab_reorder", "workspace_reorder_block"}

  // ---- what a client sees of a topology ----

  datatype Key = Key(state: string, errorCode: string, message: string, stale: bool)
  datatype AgentRow = AgentRow(info: T.AgentInfo, generation: nat, ledger: string, paneRevision: nat)

  function InventoryState(t: T.Topology): string {
    if t.inventoryReady then "ready" else if t.inventoryErrorCode != "" then "error" else "starting"
  }

  function InventoryKey(t: T.Topology): Key {
    Key(InventoryState(t), t.inventoryErrorCode, t.inventoryMessage, InventoryState(t) != "ready" && t.acceptedAt > 0)
  }

  function RowOf(t: T.Topology, info: T.AgentInfo): AgentRow {
    AgentRow(info, T.Generation(t.generations, info.paneId),
             if info.paneId in t.ledgers then t.ledgers[info.paneId] else "",
             if info.paneId in t.stateRevs then t.stateRevs[info.paneId] else 0)
  }

  function Rows(t: T.Topology, infos: seq<T.AgentInfo>): (rows: seq<AgentRow>)
    ensures |rows| == |infos|
  {
    if infos == [] then [] else
      var n := |infos| - 1;
      Rows(t, infos[..n]) + [RowOf(t, infos[n])]
  }

  /** `agentSnapshotsEqual`: the commit epoch of a row does not count. */
  function Unstamped(rows: seq<AgentRow>): (plain: seq<AgentRow>)
    ensures |plain| == |rows|
  {
    if rows == [] then [] else
      var n := |rows| - 1;
      Unstamped(rows[..n]) + [rows[n].(paneRevision := 0)]
  }

  function Refuted(t: T.Topology, capability: string): bool {
    || (capability in EVIDENCE_GATED && capability in t.herdrStatus.refuted)
    || (capability == "speech_synthesis" && t.localSpeech.languages == [])
    || (capability == "speech_voice_management" && !t.localSpeech.managementSupported)
  }

  function Effective(t: T.Topology, all: seq<string>): seq<string> {
    if all == [] then [] else
      var n := |all| - 1;
      var before := Effective(t, all[..n]);
      if Refuted(t, all[n]) then before else before + [all[n]]
  }

  /** Everything a publish projects from a topology. */
  datatype Inventory = Inventory(
    revision: nat, key: Key, rows: seq<AgentRow>, workspaces: string, herdr: (T.HerdrStatus, string),
    capabilities: seq<string>, attemptedAt: nat, acceptedAt: nat)

  function InventoryOf(t: T.Topology): Inventory {
    Inventory(t.revision, InventoryKey(t), Rows(t, t.snapshot.agents), t.snapshot.workspaces,
              (t.herdrStatus, t.snapshot.version), Effective(t, CAPABILITIES), t.attemptedAt, t.acceptedAt)
  }

  // ---- frames, the published view and the client ----

  datatype Frame =
    | InventoryStatus(key: Key, lastAttemptAt: nat, lastSuccessAt: nat)
    | Agents(rows: seq<AgentRow>)
    | Workspaces(workspaces: string)
    | HerdrStatusFrame(status: (T.HerdrStatus, string))
    | CapsUpdate(capabilities: seq<string>)

  /**
    What the last broadcast carried, or what a client holds; `None` before the first. Rows
    have no commit epoch, the status no timestamps.
   */
  datatype View = View(
    inventory: Option<Key>, agents: Option<seq<AgentRow>>, workspaces: Option<string>,
    herdr: Option<(T.HerdrStatus, string)>, capabilities: Option<seq<string>>)

  const NOTHING := View(None, None, None, None, None)

  /** The projection of a revision. */
  function Projection(i: Inventory): View {
    View(Some(i.key), Some(Unstamped(i.rows)), Some(i.workspaces), Some(i.herdr), Some(i.capabilities))
  }

  function StatusFrame(i: Inventory): Frame { InventoryStatus(i.key, i.attemptedAt / 1000, i.acceptedAt / 1000) }

  predicate ReadyRecovery(i: Inventory, view: View) {
    i.key.state == "ready" && (view.inventory.None? || view.inventory.value.state != "ready")
  }

  predicate SendsAgents(i: Inventory, view: View) {
    view.agents != Some(Unstamped(i.rows)) || ReadyRecovery(i, view)
  }

  predicate SendsWorkspaces(i: Inventory, view: View) {
    view.workspaces != Some(i.workspaces) || ReadyRecovery(i, view)
  }

  predicate SendsCaps(i: Inventory, view: View) {
    view.capabilities.Some? && view.capabilities != Some(i.capabilities)
  }

  function Add(frames: seq<Frame>, due: bool, frame: Frame): seq<Frame> {
    if due then frames + [frame] else frames
  }

  /** `broadcast_diff`: the frames; the view follows. */
  function Diff(i: Inventory, view: View): seq<Frame> {
    var status := Add([], view.inventory != Some(i.key), StatusFrame(i));
    var agents := Add(status, SendsAgents(i, view), Agents(Unstamped(i.rows)));
    var workspaces := Add(agents, SendsWorkspaces(i, view), Workspaces(i.workspaces));
    var herdr := Add(workspaces, view.herdr != Some(i.herdr), HerdrStatusFrame(i.herdr));
    Add(herdr, SendsCaps(i, view), CapsUpdate(i.capabilities))
  }

  /** The published view after a difference was taken against it. */
  function ViewAfter(i: Inventory, view: View): View {
    View(Some(i.key),
         if SendsAgents(i, view) then Some(Unstamped(i.rows)) else view.agents,
         if SendsWorkspaces(i, view) then Some(i.workspaces) else view.workspaces,
         if view.herdr != Some(i.herdr) then Some(i.herdr) else view.herdr,
         Some(i.capabilities))
  }

  /** `full_inventory` sends every leg, the rows with their commit epochs. */
  function FullInventory(i: Inventory): seq<Frame> {
    [StatusFrame(i), Agents(i.rows), Workspaces(i.workspaces), HerdrStatusFrame(i.herdr), CapsUpdate(i.capabilities)]
  }

  /** A client keeps the last frame of each kind, without epochs and timestamps. */
  function Receive(client: View, frame: Frame): View {
    match frame
    case InventoryStatus(key, _, _) => client.(inventory := Some(key))
    case Agents(rows) => client.(agents := Some(Unstamped(rows)))
    case Workspaces(workspaces) => client.(workspaces := Some(workspaces))
    case HerdrStatusFrame(status) => client.(herdr := Some(status))
    case CapsUpdate(capabilities) => client.(capabilities := Some(capabilities))
  }

  function ReceiveAll(client: View, frames: seq<Frame>): View {
    if frames == [] then client else
      var n := |frames| - 1;
      Receive(ReceiveAll(client, frames[..n]), frames[n])
  }

  lemma {:induction false} ReceiveAppend(client: View, xs: seq<Frame>, ys: seq<Frame>)
    ensures ReceiveAll(client, xs + ys) == ReceiveAll(ReceiveAll(client, xs), ys)
    decreases |ys|
  {
    if ys == [] {
      assert xs + ys == xs;
    } else {
      var n := |ys| - 1;
      assert (xs + ys)[..|xs| + n] == xs + ys[..n];
      ReceiveAppend(client, xs, ys[..n]);
    }
  }

  lemma ReceiveAdd(client: View, frames: seq<Frame>, due: bool, frame: Frame)
    ensures ReceiveAll(client, Add(frames, due, frame))
         == ReceiveDue(ReceiveAll(client, frames), due, frame)
  {
    assert (frames + [frame])[..|frames|] == frames;
  }

  lemma {:induction false} UnstampedTwice(rows: seq<AgentRow>)
    ensures Unstamped(Unstamped(rows)) == Unstamped(rows)
    decreases |rows|
  {
    if rows != [] {
      var n := |rows| - 1;
      UnstampedTwice(rows[..n]);
      assert Unstamped(rows)[..n] == Unstamped(rows[..n]);
    }
  }

  /** What a difference does to any client: it moves exactly the legs that differ from the view, and forced rows. */
  lemma ReceiveDiff(client: View, i: Inventory, view: View)
    ensures ReceiveAll(client, Diff(i, view)) == View(
              if view.inventory != Some(i.key) then Some(i.key) else client.inventory,
              if SendsAgents(i, view) then Some(Unstamped(i.rows)) else client.agents,
              if SendsWorkspaces(i, view) then Some(i.workspaces) else client.workspaces,
              if view.herdr != Some(i.herdr) then Some(i.herdr) else client.herdr,
              if SendsCaps(i, view) then Some(i.capabilities) else client.capabilities)
  {
    UnstampedTwice(i.rows);
    ReceiveFive(client,
                view.inventory != Some(i.key), StatusFrame(i), SendsAgents(i, view), Agents(Unstamped(i.rows)),
                SendsWorkspaces(i, view), Workspaces(i.workspaces),
                view.herdr != Some(i.herdr), HerdrStatusFrame(i.herdr),
                SendsCaps(i, view), CapsUpdate(i.capabilities));
    FiveLegs(client, view.inventory != Some(i.key), StatusFrame(i), SendsAgents(i, view), Unstamped(i.rows),
             SendsWorkspaces(i, view), i.workspaces, view.herdr != Some(i.herdr), i.herdr,
             SendsCaps(i, view), i.capabilities);
  }

  lemma FiveLegs(
    client: View, d1: bool, status: Frame, d2: bool, rows: seq<AgentRow>, d3: bool, workspaces: string,
    d4: bool, herdr: (T.HerdrStatus, string), d5: bool, capabilities: seq<string>)
    requires status.InventoryStatus? && Unstamped(rows) == rows
    ensures ReceiveDue(ReceiveDue(ReceiveDue(ReceiveDue(ReceiveDue(client, d1, status), d2, Agents(rows)),
              d3, Workspaces(workspaces)), d4, HerdrStatusFrame(herdr)), d5, CapsUpdate(capabilities))
         == View(if d1 then Some(status.key) else client.inventory, if d2 then Some(rows) else client.agents,
                 if d3 then Some(workspaces) else client.workspaces, if d4 then Some(herdr) else client.herdr,
                 if d5 then Some(capabilities) else client.capabilities)
  {
  }

  function ReceiveDue(client: View, due: bool, frame: Frame): View { if due then Receive(client, frame) else client }

  lemma ReceiveFive(
    client: View, d1: bool, f1: Frame, d2: bool, f2: Frame, d3: bool, f3: Frame,
    d4: bool, f4: Frame, d5: bool, f5: Frame)
    ensures ReceiveAll(client, Add(Add(Add(Add(Add([], d1, f1), d2, f2), d3, f3), d4, f4), d5, f5))
         == ReceiveDue(ReceiveDue(ReceiveDue(ReceiveDue(ReceiveDue(client, d1, f1), d2, f2), d3, f3), d4, f4), d5, f5)
  {
    var a1 := Add([], d1, f1);
    var a2 := Add(a1, d2, f2);
    var a3 := Add(a2, d3, f3);
    ReceiveAdd(client, [], d1, f1);
    ReceiveAdd(client, a1, d2, f2);
    ReceiveAdd(client, a2, d3, f3);
    ReceiveAdd(client, a3, d4, f4);
    ReceiveAdd(client, Add(a3, d4, f4), d5, f5);
  }

  lemma ReceiveFull(client: View, i: Inventory)
    ensures ReceiveAll(client, FullInventory(i)) == Projection(i)
  {
    var fs := FullInventory(i);
    assert fs[..4] == fs[..3] + [fs[3]] && fs[..3] == fs[..2] + [fs[2]] && fs[..2] == fs[..1] + [fs[1]];
    assert fs[..1] == [] + [fs[0]] && fs == fs[..4] + [fs[4]];
    ReceiveAdd(client, [], true, fs[0]);
    ReceiveAdd(client, fs[..1], true, fs[1]);
    ReceiveAdd(client, fs[..2], true, fs[2]);
    ReceiveAdd(client, fs[..3], true, fs[3]);
    ReceiveAdd(client, fs[..4], true, fs[4]);
  }

  /** After a publish the view is the projection just published, whatever it was before. */
  lemma ViewTracksProjection(i: Inventory, view: View)
    ensures ViewAfter(i, view) == Projection(i)
  {
  }

  /** Leg by leg: a difference to `view` sends it, or the client already holds the new revision's. */
  predicate Served(client: View, i: Inventory, view: View) {
    && (view.inventory != Some(i.key) || client.inventory == Some(i.key))
    && (SendsAgents(i, view) || client.agents == Some(Unstamped(i.rows)))
    && (SendsWorkspaces(i, view) || client.workspaces == Some(i.workspaces))
    && (view.herdr != Some(i.herdr) || client.herdr == Some(i.herdr))
    && (SendsCaps(i, view) || client.capabilities == Some(i.capabilities))
  }

  /** A difference, to whatever view it was taken, brings exactly the served clients to the new revision. */
  lemma DiffServes(client: View, i: Inventory, view: View)
    ensures ReceiveAll(client, Diff(i, view)) == Projection(i) <==> Served(client, i, view)
  {
    ReceiveDiff(client, i, view);
  }

  // ---- what a projection shows ----

  /** Row i is the committed one, under the pane's generation, with the pane's ledger. */
  predicate DisplaysRow(row: AgentRow, t: T.Topology, i: nat)
    requires i < |t.snapshot.agents|
  {
    && row.info == t.snapshot.agents[i] && row.generation == T.GenerationOf(t, row.info.paneId)
    && row.ledger == if row.info.paneId in t.ledgers then t.ledgers[row.info.paneId] else ""
  }

  /** The state a client sees: ready, failed with the error, or starting; old rows are stale while it is not ready. */
  predicate DisplaysState(key: Key, t: T.Topology) {
    && (t.inventoryReady ==> key.state == "ready" && !key.stale)
    && (!t.inventoryReady ==> key.state == (if t.inventoryErrorCode == "" then "starting" else "error"))
    && (!t.inventoryReady ==> key.stale == (t.acceptedAt > 0))
    && key.errorCode == t.inventoryErrorCode && key.message == t.inventoryMessage
  }

  /** Nothing live speaks against the capability. */
  predicate IsAvailable(t: T.Topology, capability: string) {
    && (capability in EVIDENCE_GATED ==> capability !in t.herdrStatus.refuted)
    && (capability == "speech_synthesis" ==> t.localSpeech.languages != [])
    && (capability == "speech_voice_management" ==> t.localSpeech.managementSupported)
  }

  /** A view shows a topology, leg by leg. */
  ghost predicate Displays(view: View, t: T.Topology) {
    && view.inventory.Some? && DisplaysState(view.inventory.value, t)
    && view.agents.Some? && |view.agents.value| == |t.snapshot.agents|
    && (forall i :: 0 <= i < |t.snapshot.agents| ==> DisplaysRow(view.agents.value[i], t, i))
    && view.workspaces == Some(t.snapshot.workspaces)
    && view.herdr == Some((t.herdrStatus, t.snapshot.version))
    && view.capabilities.Some?
    && (forall c :: c in view.capabilities.value <==> c in CAPABILITIES && IsAvailable(t, c))
  }

  lemma {:induction false} RowsAt(t: T.Topology, infos: seq<T.AgentInfo>, i: nat)
    requires i < |infos|
    ensures Rows(t, infos)[i] == RowOf(t, infos[i])
    decreases |infos|
  {
    if i < |infos| - 1 { RowsAt(t, infos[..|infos| - 1], i); }
  }

  lemma {:induction false} UnstampedAt(rows: seq<AgentRow>, i: nat)
    requires i < |rows|
    ensures Unstamped(rows)[i] == rows[i].(paneRevision := 0)
    decreases |rows|
  {
    if i < |rows| - 1 { UnstampedAt(rows[..|rows| - 1], i); }
  }

  lemma {:induction false} EffectiveExactly(t: T.Topology, all: seq<string>, c: string)
    ensures c in Effective(t, all) <==> c in all && IsAvailable(t, c)
    decreases |all|
  {
    if all != [] {
      var n := |all| - 1;
      EffectiveExactly(t, all[..n], c);
      assert all == all[..n] + [all[n]];
    }
  }

  /** A projection shows its topology. */
  lemma ProjectionDisplays(t: T.Topology)
    ensures Displays(Projection(InventoryOf(t)), t)
  {
    var view := Projection(InventoryOf(t));
    forall i | 0 <= i < |t.snapshot.agents| ensures DisplaysRow(view.agents.value[i], t, i) {
      RowsAt(t, t.snapshot.agents, i);
      UnstampedAt(Rows(t, t.snapshot.agents), i);
    }
    forall c ensures c in view.capabilities.value <==> c in CAPABILITIES && IsAvailable(t, c) {
      EffectiveExactly(t, CAPABILITIES, c);
    }
  }

  /** Full rows carry the revision that last committed their pane. */
  lemma FullRowsAreStamped(t: T.Topology, i: nat, rows: seq<AgentRow>)
    requires i < |t.snapshot.agents| && FullInventory(InventoryOf(t))[1] == Agents(rows)
    ensures var paneId := t.snapshot.agents[i].paneId;
            && |rows| == |t.snapshot.agents| && DisplaysRow(rows[i], t, i)
            && rows[i].paneRevision == (if paneId in t.stateRevs then t.stateRevs[paneId] else 0)
  {
    RowsAt(t, t.snapshot.agents, i);
  }

  /** The status frame carries the times of the last attempt and the last commit, in seconds. */
  lemma StatusCarriesTimes(t: T.Topology)
    ensures var frame := StatusFrame(InventoryOf(t));
            && frame.InventoryStatus? && DisplaysState(frame.key, t)
            && frame.lastAttemptAt == t.attemptedAt / 1000 && frame.lastSuccessAt == t.acceptedAt / 1000
            && FullInventory(InventoryOf(t))[0] == frame
  {
  }

  lemma AddIsEmpty(frames: seq<Frame>, due: bool, frame: Frame)
    ensures Add(frames, due, frame) == [] <==> frames == [] && !due
  {
  }

  /** A publish sends nothing exactly when nothing but epochs and timestamps moved. */
  lemma QuietPublish(i: Inventory, view: View)
    requires view.capabilities.Some?
    ensures Diff(i, view) == [] <==> view == Projection(i)
  {
    var status := Add([], view.inventory != Some(i.key), StatusFrame(i));
    AddIsEmpty([], view.inventory != Some(i.key), StatusFrame(i));
    var agents := Add(status, SendsAgents(i, view), Agents(Unstamped(i.rows)));
    AddIsEmpty(status, SendsAgents(i, view), Agents(Unstamped(i.rows)));
    var workspaces := Add(agents, SendsWorkspaces(i, view), Workspaces(i.workspaces));
    AddIsEmpty(agents, SendsWorkspaces(i, view), Workspaces(i.workspaces));
    var herdr := Add(workspaces, view.herdr != Some(i.herdr), HerdrStatusFrame(i.herdr));
    AddIsEmpty(workspaces, view.herdr != Some(i.herdr), HerdrStatusFrame(i.herdr));
    AddIsEmpty(herdr, SendsCaps(i, view), CapsUpdate(i.capabilities));
  }
}
