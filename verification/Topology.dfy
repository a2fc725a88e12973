/**
  The committed topology: one writer commits snapshots, status events and
  bumps. A revision counts publishes, a generation counts a pane's sessions.
  The time and attention ledgers of a pane enter as one value per commit.
 */
module Topology {
  import opened Text

  datatype AgentInfo = AgentInfo(
    paneId: string, terminalId: string, tabId: string, workspaceId: string,
    status: string, agent: string, rest: string)

  datatype Snapshot = Snapshot(agents: seq<AgentInfo>, workspaces: string, version: string)

  /** `refuted`: the capability families whose methods are all reported unsupported. */
  datatype HerdrStatus = HerdrStatus(refuted: set<string>, rest: string)

  datatype LocalSpeech = LocalSpeech(languages: seq<string>, managementSupported: bool)

  datatype Topology = Topology(
    revision: nat,
    snapshot: Snapshot,
    stale: bool,
    acceptedAt: nat,
    attemptedAt: nat,
    inventoryReady: bool,
    inventoryErrorCode: string,
    inventoryMessage: string,
    herdrStatus: HerdrStatus,
    localSpeech: LocalSpeech,
    agentProfiles: Option<string>,
    generations: map<string, nat>,
    stateRevs: map<string, nat>,
    ledgers: map<string, string>)

  const DEFAULT := Topology(0, Snapshot([], "", ""), true, 0, 0, false, "", "",
                            HerdrStatus({}, ""), LocalSpeech([], false), None, map[], map[], map[])

  const COMMAND_FAILED := "command_failed"
  const FAILURE_MESSAGE := "Unable to read the current Herdr agent inventory."

  datatype CommitKind = PollCommit | EventCommit

  datatype StatusPayload = StatusPayload(paneId: string, status: string, agent: Option<string>, rest: Option<string>)

  datatype Event =
    | Accept(snapshot: Snapshot, ledgers: map<string, string>, kind: CommitKind, now: nat)
    | StatusChanged(payload: StatusPayload, ledger: string)
    | BumpGeneration(paneId: string, ledger: string)
    | MarkStale
    | PollFailed(now: nat)
    | SetHerdrStatus(status: HerdrStatus)
    | SetLocalSpeech(facts: LocalSpeech)
    | SetAgentProfiles(profiles: string)

  // ---- panes and their identity ----

  /** The committed row of a pane: the last one under its id. */
  function Find(agents: seq<AgentInfo>, paneId: string): (found: Option<AgentInfo>)
    ensures found.Some? ==> found.value in agents && found.value.paneId == paneId
  {
    if agents == [] then None else
      var n := |agents| - 1;
      if agents[n].paneId == paneId then Some(agents[n]) else Find(agents[..n], paneId)
  }

  predicate Moved(left: string, right: string) { left != "" && right != "" && left != right }

  predicate IdentityMoved(existing: AgentInfo, incoming: AgentInfo) {
    || Moved(existing.terminalId, incoming.terminalId)
    || Moved(existing.tabId, incoming.tabId)
    || Moved(existing.workspaceId, incoming.workspaceId)
  }

  function Generation(generations: map<string, nat>, paneId: string): nat {
    if paneId in generations then generations[paneId] else 0
  }

  function Bump(generations: map<string, nat>, paneId: string): map<string, nat> {
    generations[paneId := Generation(generations, paneId) + 1]
  }

  /** A pane whose identity moved, or that came back, starts a new session. */
  predicate StartsSession(t: Topology, generations: map<string, nat>, incoming: AgentInfo) {
    match Find(t.snapshot.agents, incoming.paneId)
    case Some(existing) => IdentityMoved(existing, incoming)
    case None => t.acceptedAt != 0 && Generation(generations, incoming.paneId) > 0
  }

  function AfterRows(t: Topology, rows: seq<AgentInfo>): map<string, nat> {
    if rows == [] then t.generations else
      var n := |rows| - 1;
      var before := AfterRows(t, rows[..n]);
      if StartsSession(t, before, rows[n]) then Bump(before, rows[n].paneId) else before
  }

  function PaneIds(rows: seq<AgentInfo>): set<string> { set row <- rows :: row.paneId }

  /** Every pane of `gone` ends its session. */
  function AfterRemoval(generations: map<string, nat>, gone: set<string>): map<string, nat> {
    map p | p in generations.Keys + gone ::
      if p in gone then Generation(generations, p) + 1 else generations[p]
  }

  lemma RemoveOne(generations: map<string, nat>, gone: set<string>, paneId: string)
    requires paneId !in gone
    ensures Bump(AfterRemoval(generations, gone), paneId) == AfterRemoval(generations, gone + {paneId})
  {
  }

  function GenerationsAfter(t: Topology, rows: seq<AgentInfo>): map<string, nat> {
    AfterRemoval(AfterRows(t, rows), PaneIds(t.snapshot.agents) - PaneIds(rows))
  }

  /** On the event path an existing, unreplaced pane keeps its committed status. */
  function KeepStatus(t: Topology, row: AgentInfo): AgentInfo {
    match Find(t.snapshot.agents, row.paneId)
    case Some(existing) => if IdentityMoved(existing, row) then row else row.(status := existing.status)
    case None => row
  }

  function RowsFor(t: Topology, rows: seq<AgentInfo>, kind: CommitKind): (kept: seq<AgentInfo>)
    ensures |kept| == |rows|
  {
    if kind == PollCommit || rows == [] then rows else
      var n := |rows| - 1;
      RowsFor(t, rows[..n], kind) + [KeepStatus(t, rows[n])]
  }

  function Stamps(rows: seq<AgentInfo>, epoch: nat): map<string, nat> { map p | p in PaneIds(rows) :: epoch }

  function RowsRecorded(t: Topology, snapshot: Snapshot, ledgers: map<string, string>): Topology {
    t.(revision := t.revision + 1, snapshot := snapshot,
       stateRevs := Stamps(snapshot.agents, t.revision + 1), ledgers := ledgers)
  }

  /** Every commit marks the inventory ready and clears the failure. */
  function Ready(t: Topology, now: nat): Topology {
    t.(stale := false, acceptedAt := now, attemptedAt := now,
       inventoryReady := true, inventoryErrorCode := "", inventoryMessage := "")
  }

  function AcceptEnriched(t: Topology, snapshot: Snapshot, ledgers: map<string, string>, kind: CommitKind, now: nat)
    : Topology
  {
    var rows := RowsFor(t, snapshot.agents, kind);
    Ready(RowsRecorded(t.(generations := GenerationsAfter(t, rows)), snapshot.(agents := rows), ledgers), now)
  }

  /** The first committed row of a pane, or the number of rows. */
  function Position(agents: seq<AgentInfo>, paneId: string): (i: nat)
    ensures i <= |agents| && (i < |agents| ==> agents[i].paneId == paneId)
  {
    if agents == [] || agents[0].paneId == paneId then 0 else 1 + Position(agents[1..], paneId)
  }

  predicate Duplicates(row: AgentInfo, payload: StatusPayload) {
    && row.status == payload.status
    && (payload.agent.None? || row.agent == payload.agent.value)
    && (payload.rest.None? || row.rest == payload.rest.value)
  }

  function Adopt(row: AgentInfo, payload: StatusPayload): AgentInfo {
    row.(status := payload.status,
         agent := if payload.agent.Some? then payload.agent.value else row.agent,
         rest := if payload.rest.Some? then payload.rest.value else row.rest)
  }

  function CommitAgentStatus(t: Topology, payload: StatusPayload, ledger: string): Option<Topology> {
    var i := Position(t.snapshot.agents, payload.paneId);
    if i == |t.snapshot.agents| || Duplicates(t.snapshot.agents[i], payload) then None
    else
      var agents := t.snapshot.agents;
      Some(t.(revision := t.revision + 1,
              snapshot := t.snapshot.(agents := agents[i := Adopt(agents[i], payload)]),
              stateRevs := t.stateRevs[payload.paneId := t.revision + 1],
              ledgers := t.ledgers[payload.paneId := ledger]))
  }

  // ---- one step of the actor ----

  /** The topology after an event, and whether the actor publishes it. */
  function Step(t: Topology, event: Event): (Topology, bool) {
    match event
    case Accept(snapshot, ledgers, kind, now) => (AcceptEnriched(t, snapshot, ledgers, kind, now), true)
    case StatusChanged(payload, ledger) =>
      (match CommitAgentStatus(t, payload, ledger)
       case Some(next) => (next, true)
       case None => (t, false))
    case BumpGeneration(paneId, ledger) =>
      (t.(generations := Bump(t.generations, paneId), ledgers := t.ledgers[paneId := ledger],
          revision := t.revision + 1), true)
    case MarkStale => if t.stale then (t, false) else (t.(stale := true, revision := t.revision + 1), true)
    case PollFailed(now) =>
      var t := t.(attemptedAt := now);
      if !t.inventoryReady && t.inventoryErrorCode == COMMAND_FAILED then (t, false)
      else (t.(inventoryReady := false, inventoryErrorCode := COMMAND_FAILED,
               inventoryMessage := FAILURE_MESSAGE, revision := t.revision + 1), true)
    case SetHerdrStatus(status) =>
      if t.herdrStatus == status then (t, false) else (t.(herdrStatus := status, revision := t.revision + 1), true)
    case SetLocalSpeech(facts) =>
      if t.localSpeech == facts then (t, false) else (t.(localSpeech := facts, revision := t.revision + 1), true)
    case SetAgentProfiles(profiles) =>
      if t.agentProfiles == Some(profiles) then (t, false)
      else (t.(agentProfiles := Some(profiles), revision := t.revision + 1), true)
  }

  function Run(t: Topology, events: seq<Event>): Topology {
    if events == [] then t else
      var n := |events| - 1;
      Step(Run(t, events[..n]), events[n]).0
  }

  function Publishes(t: Topology, events: seq<Event>): nat {
    if events == [] then 0 else
      var n := |events| - 1;
      Publishes(t, events[..n]) + (if Step(Run(t, events[..n]), events[n]).1 then 1 else 0)
  }

  // ---- revisions ----

  /**
    Every publish carries exactly one revision increment; an event that is not published
    changes nothing but the attempt time.
   */
  lemma StepRevision(t: Topology, event: Event)
    ensures var (next, published) := Step(t, event);
            if published then next.revision == t.revision + 1 else next == t.(attemptedAt := next.attemptedAt)
  {
  }

  lemma {:induction false} RevisionCountsPublishes(t: Topology, events: seq<Event>)
    ensures Run(t, events).revision == t.revision + Publishes(t, events)
    decreases |events|
  {
    if events != [] {
      RevisionCountsPublishes(t, events[..|events| - 1]);
      StepRevision(Run(t, events[..|events| - 1]), events[|events| - 1]);
    }
  }

  // ---- what each event commits ----

  lemma {:induction false} PositionIsFirst(agents: seq<AgentInfo>, paneId: string, k: nat)
    requires k < |agents| && (agents[k].paneId == paneId || k < Position(agents, paneId))
    ensures agents[k].paneId == paneId ==> Position(agents, paneId) <= k
    decreases |agents|
  {
    if agents[0].paneId != paneId && k > 0 { PositionIsFirst(agents[1..], paneId, k - 1); }
  }

  /** The first row of the pane, if it has one. */
  ghost predicate IsFirstRow(agents: seq<AgentInfo>, paneId: string, i: int) {
    0 <= i < |agents| && agents[i].paneId == paneId && forall k :: 0 <= k < i ==> agents[k].paneId != paneId
  }

  lemma FirstRowIsPosition(agents: seq<AgentInfo>, paneId: string, i: nat)
    requires IsFirstRow(agents, paneId, i)
    ensures Position(agents, paneId) == i
  {
    PositionIsFirst(agents, paneId, i);
  }

  /** Every field the payload carries is committed already. */
  predicate SaysNothingNew(row: AgentInfo, payload: StatusPayload) {
    row.status == payload.status && payload.agent in {None, Some(row.agent)} && payload.rest in {None, Some(row.rest)}
  }

  /**
    A status event is published exactly when the pane's first row lacks something it carries; then that
    row takes over the status and every field carried, under the new revision, and no other row moves.
   */
  lemma StatusIsAdopted(t: Topology, payload: StatusPayload, ledger: string, i: nat)
    requires IsFirstRow(t.snapshot.agents, payload.paneId, i)
    ensures var (next, published) := Step(t, StatusChanged(payload, ledger));
            var was := t.snapshot.agents[i];
            && published == !SaysNothingNew(was, payload)
            && |next.snapshot.agents| == |t.snapshot.agents|
            && (published ==>
                  && next.snapshot.agents[i].status == payload.status
                  && (payload.agent.Some? ==> next.snapshot.agents[i].agent == payload.agent.value)
                  && (payload.agent.None? ==> next.snapshot.agents[i].agent == was.agent)
                  && (payload.rest.Some? ==> next.snapshot.agents[i].rest == payload.rest.value)
                  && (payload.rest.None? ==> next.snapshot.agents[i].rest == was.rest)
                  && Identity(next.snapshot.agents[i]) == Identity(was) && next.snapshot.agents[i].paneId == was.paneId
                  && payload.paneId in next.stateRevs && next.stateRevs[payload.paneId] == next.revision
                  && payload.paneId in next.ledgers && next.ledgers[payload.paneId] == ledger)
            && forall k :: 0 <= k < |t.snapshot.agents| && k != i ==> next.snapshot.agents[k] == t.snapshot.agents[k]
  {
    var agents := t.snapshot.agents;
    FirstRowIsPosition(agents, payload.paneId, i);
    if !SaysNothingNew(agents[i], payload) {
      var next := Step(t, StatusChanged(payload, ledger)).0;
      assert next.snapshot.agents == agents[i := Adopt(agents[i], payload)];
      assert next.stateRevs == t.stateRevs[payload.paneId := next.revision];
    }
  }

  lemma UnknownStatusIsDropped(t: Topology, payload: StatusPayload, ledger: string)
    requires forall k :: 0 <= k < |t.snapshot.agents| ==> t.snapshot.agents[k].paneId != payload.paneId
    ensures Step(t, StatusChanged(payload, ledger)) == (t, false)
  {
  }

  lemma {:induction false} RowsForAt(t: Topology, rows: seq<AgentInfo>, kind: CommitKind, i: nat)
    requires i < |rows|
    ensures RowsFor(t, rows, kind)[i] == if kind == PollCommit then rows[i] else KeepStatus(t, rows[i])
    decreases |rows|
  {
    if kind == EventCommit && i < |rows| - 1 { RowsForAt(t, rows[..|rows| - 1], kind, i); }
  }

  /** The pane was there before and no part of its identity moved. */
  predicate Stays(t: Topology, row: AgentInfo) {
    Find(t.snapshot.agents, row.paneId).Some? && !IdentityMoved(Find(t.snapshot.agents, row.paneId).value, row)
  }

  /**
    A commit takes every sampled row over, except that on the event path a pane that stays keeps its
    committed status; all rows are stamped with the new revision, and the inventory is ready.
   */
  lemma CommitTakesRows(
    t: Topology, snapshot: Snapshot, ledgers: map<string, string>, kind: CommitKind, now: nat, i: nat)
    requires i < |snapshot.agents|
    ensures var (next, published) := Step(t, Accept(snapshot, ledgers, kind, now));
            var row := snapshot.agents[i];
            && published && |next.snapshot.agents| == |snapshot.agents|
            && next.snapshot.agents[i] == row.(status :=
                 if kind == EventCommit && Stays(t, row) then Find(t.snapshot.agents, row.paneId).value.status
                 else row.status)
            && row.paneId in next.stateRevs && next.stateRevs[row.paneId] == next.revision
            && next.snapshot.workspaces == snapshot.workspaces && next.snapshot.version == snapshot.version
            && next.ledgers == ledgers
            && next.inventoryReady && next.inventoryErrorCode == "" && next.inventoryMessage == ""
            && next.acceptedAt == now && next.attemptedAt == now && !next.stale
  {
    RowsForAt(t, snapshot.agents, kind, i);
    var rows := RowsFor(t, snapshot.agents, kind);
    assert rows[i].paneId == snapshot.agents[i].paneId && rows[i] in rows;
    assert rows[i].paneId in PaneIds(rows);
  }

  /** A failed poll is published once: it marks the inventory failed and keeps the rows. */
  lemma FailureIsCommitted(t: Topology, now: nat)
    ensures var (next, published) := Step(t, PollFailed(now));
            && (published <==> t.inventoryReady || t.inventoryErrorCode != COMMAND_FAILED)
            && (published ==> next.inventoryErrorCode == COMMAND_FAILED && next.inventoryMessage == FAILURE_MESSAGE)
            && !next.inventoryReady && next.attemptedAt == now
            && next.snapshot == t.snapshot && next.acceptedAt == t.acceptedAt && next.generations == t.generations
  {
  }

  /** A setting is published exactly when it is new, and then it is the one committed. */
  lemma SettingsAreTaken(t: Topology, status: HerdrStatus, facts: LocalSpeech, profiles: string)
    ensures var (next, published) := Step(t, SetHerdrStatus(status));
            next.herdrStatus == status && (published <==> t.herdrStatus != status)
    ensures var (next, published) := Step(t, SetLocalSpeech(facts));
            next.localSpeech == facts && (published <==> t.localSpeech != facts)
    ensures var (next, published) := Step(t, SetAgentProfiles(profiles));
            next.agentProfiles == Some(profiles) && (published <==> t.agentProfiles != Some(profiles))
    ensures var (next, published) := Step(t, MarkStale); next.stale && (published <==> !t.stale)
  {
  }

  /** A bump starts the pane's next session and changes no other generation and no row. */
  lemma BumpRaisesOne(t: Topology, paneId: string, ledger: string, other: string)
    ensures var (next, published) := Step(t, BumpGeneration(paneId, ledger));
            && published && next.snapshot == t.snapshot
            && GenerationOf(next, other) == GenerationOf(t, other) + (if other == paneId then 1 else 0)
            && paneId in next.ledgers && next.ledgers[paneId] == ledger
  {
  }

  // ---- generations ----

  /** Some row replaces the pane's session, or brings the pane back under a used generation. */
  ghost predicate SomeRowStarts(t: Topology, rows: seq<AgentInfo>, paneId: string) {
    match Find(t.snapshot.agents, paneId)
    case Some(existing) => exists row <- rows :: row.paneId == paneId && IdentityMoved(existing, row)
    case None =>
      t.acceptedAt != 0 && Generation(t.generations, paneId) > 0 && exists row <- rows :: row.paneId == paneId
  }

  /** The commit starts a session of the pane, or ends one by leaving the pane out. */
  ghost predicate CommitAdvances(t: Topology, rows: seq<AgentInfo>, paneId: string) {
    || SomeRowStarts(t, rows, paneId)
    || (Find(t.snapshot.agents, paneId).Some? && forall row <- rows :: row.paneId != paneId)
  }

  lemma {:induction false} FindMembership(agents: seq<AgentInfo>, paneId: string)
    ensures Find(agents, paneId).Some? <==> paneId in PaneIds(agents)
    decreases |agents|
  {
    if agents != [] {
      var n := |agents| - 1;
      FindMembership(agents[..n], paneId);
      assert agents == agents[..n] + [agents[n]];
      assert PaneIds(agents) == PaneIds(agents[..n]) + {agents[n].paneId};
    }
  }

  lemma {:induction false} AfterRowsGeneration(t: Topology, rows: seq<AgentInfo>, paneId: string)
    ensures var g := Generation(AfterRows(t, rows), paneId);
            && g >= Generation(t.generations, paneId)
            && (g > Generation(t.generations, paneId) <==> SomeRowStarts(t, rows, paneId))
    decreases |rows|
  {
    if rows != [] {
      var n := |rows| - 1;
      AfterRowsGeneration(t, rows[..n], paneId);
      assert forall row <- rows :: row in rows[..n] || row == rows[n];
      assert forall row <- rows[..n] :: row in rows;
      assert rows[n] in rows;
    }
  }

  lemma CommitGeneration(t: Topology, rows: seq<AgentInfo>, paneId: string)
    ensures var g := Generation(GenerationsAfter(t, rows), paneId);
            && g >= Generation(t.generations, paneId)
            && (g > Generation(t.generations, paneId) <==> CommitAdvances(t, rows, paneId))
  {
    AfterRowsGeneration(t, rows, paneId);
    FindMembership(t.snapshot.agents, paneId);
    assert paneId in PaneIds(rows) <==> exists row <- rows :: row.paneId == paneId;
  }

  /** The event moves the pane's generation on. */
  ghost predicate Advances(t: Topology, event: Event, paneId: string) {
    match event
    case Accept(snapshot, _, kind, _) => CommitAdvances(t, RowsFor(t, snapshot.agents, kind), paneId)
    case BumpGeneration(bumped, _) => bumped == paneId
    case _ => false
  }

  function GenerationOf(t: Topology, paneId: string): nat { Generation(t.generations, paneId) }

  lemma StepGeneration(t: Topology, event: Event, paneId: string)
    ensures var next := Step(t, event).0;
            && GenerationOf(next, paneId) >= GenerationOf(t, paneId)
            && (GenerationOf(next, paneId) > GenerationOf(t, paneId) <==> Advances(t, event, paneId))
  {
    match event
    case Accept(snapshot, _, kind, _) => CommitGeneration(t, RowsFor(t, snapshot.agents, kind), paneId);
    case _ =>
  }

  ghost predicate AdvancesAt(t: Topology, events: seq<Event>, paneId: string, k: nat)
    requires k < |events|
  {
    Advances(Run(t, events[..k]), events[k], paneId)
  }

  /** Along every run a generation never falls, and rises exactly when some event advanced it. */
  lemma {:induction false} GenerationRisesExactly(t: Topology, events: seq<Event>, paneId: string)
    ensures var g := GenerationOf(Run(t, events), paneId);
            && g >= GenerationOf(t, paneId)
            && (g > GenerationOf(t, paneId) <==> exists k :: 0 <= k < |events| && AdvancesAt(t, events, paneId, k))
    decreases |events|
  {
    if events != [] {
      var n := |events| - 1;
      var before := events[..n];
      GenerationRisesExactly(t, before, paneId);
      StepGeneration(Run(t, before), events[n], paneId);
      forall k: nat | k < n ensures AdvancesAt(t, events, paneId, k) <==> AdvancesAt(t, before, paneId, k) {
        assert before[..k] == events[..k];
      }
      if exists k :: 0 <= k < n && AdvancesAt(t, before, paneId, k) {
        var k :| 0 <= k < n && AdvancesAt(t, before, paneId, k);
        assert AdvancesAt(t, events, paneId, k);
      }
      assert AdvancesAt(t, events, paneId, n) <==> Advances(Run(t, before), events[n], paneId);
    }
  }

  // ---- one session per pane and generation ----

  function Row(t: Topology, paneId: string): Option<AgentInfo> { Find(t.snapshot.agents, paneId) }

  function Identity(row: AgentInfo): (string, string, string) { (row.terminalId, row.tabId, row.workspaceId) }

  datatype Part = TerminalPart | TabPart | WorkspacePart

  /** One part of a row's identity; a host may leave it blank. */
  function PartOf(row: AgentInfo, part: Part): string {
    match part
    case TerminalPart => row.terminalId
    case TabPart => row.tabId
    case WorkspacePart => row.workspaceId
  }

  lemma {:induction false} AdoptKeepsIdentity(agents: seq<AgentInfo>, i: nat, payload: StatusPayload, paneId: string)
    requires i < |agents|
    ensures var was, now := Find(agents, paneId), Find(agents[i := Adopt(agents[i], payload)], paneId);
            was.Some? == now.Some? && (was.Some? ==> Identity(was.value) == Identity(now.value))
    decreases |agents|
  {
    var n := |agents| - 1;
    var next := agents[i := Adopt(agents[i], payload)];
    if i < n {
      AdoptKeepsIdentity(agents[..n], i, payload, paneId);
      assert next[..n] == agents[..n][i := Adopt(agents[i], payload)];
    } else {
      assert next[..n] == agents[..n];
    }
  }

  /** While its generation stands, the pane cannot leave and no part of its identity can move. */
  lemma StepKeepsSession(t: Topology, event: Event, paneId: string, part: Part)
    requires Row(t, paneId).Some? && !Advances(t, event, paneId)
    ensures var row, next := Row(t, paneId).value, Row(Step(t, event).0, paneId);
            next.Some? && !Moved(PartOf(row, part), PartOf(next.value, part))
  {
    match event
    case Accept(snapshot, _, kind, _) => FindMembership(RowsFor(t, snapshot.agents, kind), paneId);
    case StatusChanged(payload, _) =>
      var i := Position(t.snapshot.agents, payload.paneId);
      if i < |t.snapshot.agents| { AdoptKeepsIdentity(t.snapshot.agents, i, payload, paneId); }
    case _ =>
  }

  lemma {:induction false} GenerationStands(t: Topology, events: seq<Event>, paneId: string, k: nat)
    requires k <= |events| && GenerationOf(Run(t, events), paneId) == GenerationOf(t, paneId)
    ensures GenerationOf(Run(t, events[..k]), paneId) == GenerationOf(t, paneId)
    ensures k < |events| ==> !AdvancesAt(t, events, paneId, k)
    decreases |events|
  {
    GenerationRisesExactly(t, events, paneId);
    GenerationRisesExactly(t, events[..k], paneId);
    forall i: nat | i < k && AdvancesAt(t, events[..k], paneId, i) ensures AdvancesAt(t, events, paneId, i) {
      assert events[..k][..i] == events[..i];
    }
  }

  /** An absent pane ended its session: whenever it was gone in between, the generation is larger. */
  lemma AbsenceEndsSession(t: Topology, events: seq<Event>, paneId: string, k: nat)
    requires k <= |events| && Row(t, paneId).Some? && Row(Run(t, events[..k]), paneId).None?
    ensures GenerationOf(Run(t, events), paneId) > GenerationOf(t, paneId)
  {
    GenerationRisesExactly(t, events, paneId);
    if GenerationOf(Run(t, events), paneId) == GenerationOf(t, paneId) {
      LiveWhileGenerationStands(t, events, paneId, k);
      assert false;
    }
  }

  lemma {:induction false} LiveWhileGenerationStands(t: Topology, events: seq<Event>, paneId: string, k: nat)
    requires k <= |events| && Row(t, paneId).Some?
    requires GenerationOf(Run(t, events), paneId) == GenerationOf(t, paneId)
    ensures Row(Run(t, events[..k]), paneId).Some?
    decreases k
  {
    if k > 0 {
      LiveWhileGenerationStands(t, events, paneId, k - 1);
      GenerationStands(t, events, paneId, k - 1);
      assert events[..k][..k - 1] == events[..k - 1];
      StepKeepsSession(Run(t, events[..k - 1]), events[k - 1], paneId, TerminalPart);
    }
  }

  /** The part is reported wherever the pane is present. */
  ghost predicate AlwaysKnown(t: Topology, events: seq<Event>, paneId: string, part: Part) {
    forall k: nat :: k <= |events| ==> KnownAt(t, events, paneId, part, k)
  }

  predicate KnownAt(t: Topology, events: seq<Event>, paneId: string, part: Part, k: nat)
    requires k <= |events|
  {
    var row := Row(Run(t, events[..k]), paneId);
    row.Some? ==> PartOf(row.value, part) != ""
  }

  lemma {:induction false} PartStands(t: Topology, events: seq<Event>, paneId: string, part: Part, k: nat)
    requires k <= |events| && Row(t, paneId).Some? && AlwaysKnown(t, events, paneId, part)
    requires GenerationOf(Run(t, events), paneId) == GenerationOf(t, paneId)
    ensures var row := Row(Run(t, events[..k]), paneId);
            row.Some? && PartOf(row.value, part) == PartOf(Row(t, paneId).value, part)
    decreases k
  {
    if k > 0 {
      PartStands(t, events, paneId, part, k - 1);
      GenerationStands(t, events, paneId, k - 1);
      assert KnownAt(t, events, paneId, part, k - 1) && KnownAt(t, events, paneId, part, k);
      assert events[..k][..k - 1] == events[..k - 1];
      StepKeepsSession(Run(t, events[..k - 1]), events[k - 1], paneId, part);
    }
  }

  /**
    A part of the identity that is reported wherever the pane is present and differs between two
    points of a run: the later generation is larger, whatever the other parts say.
   */
  lemma ChangedPartRaisesGeneration(t: Topology, events: seq<Event>, paneId: string, part: Part)
    requires Row(t, paneId).Some? && Row(Run(t, events), paneId).Some? && AlwaysKnown(t, events, paneId, part)
    requires PartOf(Row(t, paneId).value, part) != PartOf(Row(Run(t, events), paneId).value, part)
    ensures GenerationOf(Run(t, events), paneId) > GenerationOf(t, paneId)
  {
    GenerationRisesExactly(t, events, paneId);
    assert events[..|events|] == events;
    if GenerationOf(Run(t, events), paneId) == GenerationOf(t, paneId) {
      PartStands(t, events, paneId, part, |events|);
    }
  }

  /** Two identities under one generation are the same session, when no part is ever left blank. */
  lemma GenerationNamesSession(t: Topology, events: seq<Event>, paneId: string)
    requires Row(t, paneId).Some? && Row(Run(t, events), paneId).Some?
    requires forall part :: AlwaysKnown(t, events, paneId, part)
    ensures Identity(Row(t, paneId).value) != Identity(Row(Run(t, events), paneId).value) ==>
              GenerationOf(Run(t, events), paneId) > GenerationOf(t, paneId)
  {
    var row, last := Row(t, paneId).value, Row(Run(t, events), paneId).value;
    if part: Part :| PartOf(row, part) != PartOf(last, part) {
      ChangedPartRaisesGeneration(t, events, paneId, part);
    } else {
      assert PartOf(row, TerminalPart) == PartOf(last, TerminalPart);
      assert PartOf(row, TabPart) == PartOf(last, TabPart);
      assert PartOf(row, WorkspacePart) == PartOf(last, WorkspacePart);
    }
  }

  function CommitOf(row: AgentInfo, now: nat): Event { Accept(Snapshot([row], "", ""), map[], PollCommit, now) }

  lemma RunTwo(t: Topology, first: Event, second: Event)
    ensures Run(t, [first]) == Step(t, first).0
    ensures Run(t, [first, second]) == Step(Step(t, first).0, second).0
  {
    assert [first][..0] == [] && [first, second][..1] == [first];
  }

  lemma OneRowCommit(t: Topology, row: AgentInfo, now: nat)
    ensures var next := Step(t, CommitOf(row, now)).0;
            && Row(next, row.paneId) == Some(row)
            && (Row(t, row.paneId).Some? && !IdentityMoved(Row(t, row.paneId).value, row) ==>
                  GenerationOf(next, row.paneId) == GenerationOf(t, row.paneId))
  {
    CommitGeneration(t, [row], row.paneId);
    assert row in [row];
  }

  /** A blank part is needed for that: a commit that leaves the terminal blank hides a replacement. */
  lemma BlankIdentityHidesReplacement(t: Topology, row: AgentInfo, now: nat, other: string)
    requires Row(t, row.paneId) == Some(row) && row.terminalId != "" && other != "" && other != row.terminalId
    ensures var blank, replaced := row.(terminalId := ""), row.(terminalId := other);
            var last := Run(t, [CommitOf(blank, now), CommitOf(replaced, now)]);
            && Row(last, row.paneId) == Some(replaced)
            && GenerationOf(last, row.paneId) == GenerationOf(t, row.paneId)
  {
    var blank, replaced := row.(terminalId := ""), row.(terminalId := other);
    RunTwo(t, CommitOf(blank, now), CommitOf(replaced, now));
    OneRowCommit(t, blank, now);
    OneRowCommit(Step(t, CommitOf(blank, now)).0, replaced, now);
  }
}
