# Verified models of the relay's state-keeping core

A relay mirrors the terminals and agents of one host to phones. Its core keeps
state that two sides must agree on over lossy, delayed or bounded channels: a
transcript stitched together from bounded snapshots, frames sent as deltas
behind an ack gate, a topology broadcast over a channel that only keeps the
latest value, a conversation feed that skips reads, a shared store of recovered
history. This project models that core in Dafny 4.11 and proves what it keeps in
every run. `dafny verify dfyconfig.toml` checks all of it.

## Parts

- `Text`: splitting and joining text.
- `SequenceMatcher`, `TranscriptHistory`, `TranscriptRuns`: the matching-block
  algorithm against a declarative specification, the merge of one snapshot, and
  the theorem that a run of snapshots yields one contiguous piece of the
  transcript.
- `PaneDelta`, `ClientDelta`: the delta codec of the relay and the phone's
  stricter reading of it.
- `PaneWatch`, `PaneWatchRuns`, `PaneWatchReads`, `PaneWatcher`: the watch as a step
  machine with the phone beside it, what every run keeps, which events must send a
  frame, and the watch loop with its fields.
- `Topology`, `Broadcast`, `BroadcastRuns`, `RelayRuns`, `TopologyActor`: commits,
  revisions and generations; the difference sent per publish; the lossy channel
  with joining clients and their forwarders; that channel driven by the actor's
  events; the actor and forwarder with their fields.
- `SendBuffer`, `Coalescing`: the bounded queue, and for which streams replacing
  a queued message keeps its meaning.
- `ConversationFeed`, `ConversationRuns`: the stamp cache and the frames a client
  folds.
- `RecoveryStore`, `RecoveryRuns`: reservations, eviction, retries and the
  version fence.
- `ScrollHarvest`, `HarvestRuns`, `RowRenderer`, `ContentCap`: overlap merging of
  scrolled viewports, tiling of the emulator's rows, and the line cap.
- `CivilCalendar`, `Timestamp`, `AuditRotation`: calendar arithmetic, RFC 3339
  timestamps, and the rotated audit log.
- `ReleasePaths`: lexical path algebra and the two checks built on it.

State the code updates in place is a class whose methods are proved against a
function of the old state; protocols are pure step machines over the same
functions, and the run theorems are about those.

## Assumptions

- Content fingerprints, frame fingerprints and entry digests are injective and
  never empty; they are modelled by what they identify.
- Line normalization and the plain form of a row are parameters: the results
  hold for every such function.
- A pane frame the client's queue accepted reaches the phone. The queue may
  replace it: `Coalescing.PaneContentSupersedes` says exactly when that loses
  something.
- A client that opens a watch with a fingerprint holds that content
  (`PaneWatch.Truthful`).
- A read page is decided by the file it names while that file exists, and the
  stat stamp of an existing source never comes back once it moved
  (`ConversationFeed.ReadsItsProbe`, `ConversationFeed.NeverReturns`).
- In one source under one pane generation an entry's id stands for the
  conversation up to it (`ConversationRuns.Agree`); across sources and generations
  nothing is assumed.
- The rows of a revision are fixed when it is published; the time and attention
  ledgers of a pane enter a commit as one value.
- The emulator's view at scrollback offset s shows the lines that start s rows
  above the screen.
- Clocks, reads, sinks and the disk answer through step parameters, in every
  possible way.

## Where the code falls short of its stated aim

Each of these is a lemma with the failing case; the theorem named with it says
for all inputs exactly when the aim is met.

- The body hash collides (`TranscriptRuns.HashCollides`); an equal hash drops the
  snapshot (`TranscriptRuns.EqualHashDropsSnapshot`).
- A scrolled-back body with fewer than two non-blank lines is appended again; the
  exact condition is in `TranscriptRuns.FoldOnTranscript`.
- The relay's delta can end in an empty literal, which loses its `text` key on
  the wire and is refused by the phone (`ClientDelta.StrictAppliesBuild`,
  `ClientDelta.DroppedLineIsRefused`); `PaneWatchRuns.PhoneShowsSentContent` says
  when the phone shows what was sent.
- After a death notice an unchanged pane is never shown again until a full frame
  goes out (`PaneWatchRuns.RevivedFrameShowsIffFull`).
- A frame the client's queue refuses is not tried again while the pane stands still
  (`PaneWatchReads.RefusedFrameIsNotRetried`); `PaneWatchReads.FrameIsSentExactly`
  says for every event of every run when a frame is sent.
- A forwarder's first send does no gap check
  (`BroadcastRuns.LateFirstForwardDiverges`); `BroadcastRuns.EveryForwardConverges`
  and `BroadcastRuns.ForwardConvergesExactly` say when it converges.
- A blank identity between two commits hides a replaced session
  (`Topology.BlankIdentityHidesReplacement`); `Topology.GenerationRisesExactly`
  says when a generation rises.
- An appended conversation page may be coalesced over a queued reset
  (`Coalescing.AppendReplacesReset`); `Coalescing.UpdateIsHarmlessExactly` and
  `SendBuffer.RunIsWholeExactly` say when nothing is lost.
- Pane frames of different panes replace each other in the queue
  (`Coalescing.PaneContentSupersedes`, `Coalescing.OtherPaneReplacesFrame`).
- The settled skip trusts the stamp of an absent file
  (`ConversationFeed.VanishedSourceIsStale`); `ConversationFeed.SkipsExactly` says
  when a poll skips. It also trusts a stamp refreshed under another tuple
  (`ConversationFeed.ReturnedTupleIsSkipped`); `ConversationFeed.SettledSkipIsSound`
  says when the skip is right.
- A dropped reservation of the pane with the empty id is never released
  (`RecoveryRuns.EmptyPaneIsStuck`); `RecoveryRuns.BusyExactlyWhenHeld` says when
  an entry is busy, for every pane.
- A view of fewer than three rows does not confirm itself
  (`ScrollHarvest.RestoredViewOfItself`).

## Code and documentation

Where they disagree the model follows the code. `docs/specs/pane-delta.md` says in
section 2 that `{}` is never emitted, while its section 1 and `delta.rs` emit it
for a trailing empty line. The comment at `convo_subs.rs:186-188` says that a
vanished file keeps re-reading; a first read stores the stamp of an absent file,
so it does not. The comment at `sendbuffer.rs:25-30` calls a queued conversation
update superseded by the newest one; only a reset supersedes.

## Model

| member | source | states |
|---|---|---|
| `SequenceMatcher.IndexPositions` | relay/crates/lerdr-coord/src/history.rs:76-82 | the index maps every line of the second sequence to its positions, ascending, and to nothing else |
| `SequenceMatcher.LongestIsLongest` | relay/crates/lerdr-coord/src/history.rs:85-120 | the longest match is a common block inside the window; no common block in the window is longer; among the longest it starts earliest in the first sequence, then in the second |
| `SequenceMatcher.FindLongestMatch` | relay/crates/lerdr-coord/src/history.rs:85-120 | the sparse row-by-row table computes exactly that longest match |
| `SequenceMatcher.ScanRow` | relay/crates/lerdr-coord/src/history.rs:88-113 | one row of the table: every run length that ends in the row, and the best match so far |
| `SequenceMatcher.BlocksTile` | relay/crates/lerdr-coord/src/history.rs:126-140 | the blocks found by splitting around longest matches tile the window: in order, disjoint, with no common line left in any gap |
| `SequenceMatcher.CollectBlocks` | relay/crates/lerdr-coord/src/history.rs:126-140 | the work stack terminates and collects exactly the blocks of the recursive split |
| `SequenceMatcher.SortMatches` | relay/crates/lerdr-coord/src/history.rs:141-150 | insertion sort returns a sorted permutation |
| `SequenceMatcher.SortedPermutationIsUnique` | relay/crates/lerdr-coord/src/history.rs:141-150 | the blocks have only one sorted order, so the sort fixes the result |
| `SequenceMatcher.MergeAdjacent` | relay/crates/lerdr-coord/src/history.rs:151-182 | joining touching blocks in one pass computes the recursive merge and appends the sentinel |
| `SequenceMatcher.ComputeMatchingBlocks` | relay/crates/lerdr-coord/src/history.rs:125-183 | the whole algorithm computes the block list the next row is about |
| `SequenceMatcher.MatchingBlocksAreMaximal` | relay/crates/lerdr-coord/src/history.rs:125-183 | for every input the blocks are equal runs, strictly increasing and disjoint on both sides, never touching on both, closed by the (len, len, 0) sentinel, and no gap between consecutive blocks holds a line common to both sides |
| `SequenceMatcher.LongestIsABlock` | relay/crates/lerdr-coord/src/history.rs:125-183 | the longest common block of the two sequences is one of the matching blocks, whole |
| `TranscriptHistory.SplitSnapshot` | relay/crates/lerdr-coord/src/history.rs:290-299 | body and footer are the lines of the snapshot: they join back to it and hold no newline; the footer is the last six exactly when there are more than six, else nothing |
| `TranscriptHistory.TailOverlapIsLargest` | relay/crates/lerdr-coord/src/history.rs:308-317 | the tail overlap is the largest k by which the history ends as the body begins |
| `TranscriptHistory.ComputeTailOverlap` | relay/crates/lerdr-coord/src/history.rs:308-317 | the downward search returns that largest overlap |
| `TranscriptHistory.BestOfIsLargest` | relay/crates/lerdr-coord/src/history.rs:322-344 | the chosen block is the largest with two non-blank lines, the latest in the history among equals, or none |
| `TranscriptHistory.ComputeSequenceMatch` | relay/crates/lerdr-coord/src/history.rs:322-344 | the selection loop over the matching blocks |
| `TranscriptHistory.SequenceMatchIsCommon` | relay/crates/lerdr-coord/src/history.rs:322-344 | the match used for a rebase is a real common block of history and body |
| `TranscriptHistory.SequenceMatchIsLargest` | relay/crates/lerdr-coord/src/history.rs:322-344 | every matching block with two non-blank lines is shorter than the match, or as long and no later in the history |
| `TranscriptHistory.SequenceMatchIsLongest` | relay/crates/lerdr-coord/src/history.rs:322-344 | without the block list: if the longest common block of history and body has two non-blank lines, the match qualifies and no common block is longer |
| `TranscriptHistory.ApplyMatch` | relay/crates/lerdr-coord/src/history.rs:385-412 | overwriting, appending, rebasing or refusing, statement by statement |
| `TranscriptHistory.JoinContent` | relay/crates/lerdr-coord/src/history.rs:361-381 | the content is the last `limit` lines of history and footer, truncated exactly when there are more |
| `TranscriptHistory.FoldBody` | relay/crates/lerdr-coord/src/history.rs:517-533 | one body folded into the history |
| `TranscriptHistory.FoldSnapshot` | relay/crates/lerdr-coord/src/history.rs:510-538 | the hash guard, the fold and the cut to 10,000 lines |
| `TranscriptHistory.Manager.MergeLimited` | relay/crates/lerdr-coord/src/history.rs:496-551 | one call changes only its pane's state, by the fold and the cut to 10,000 lines, and answers from the new state |
| `TranscriptRuns.FoldShapes` | relay/crates/lerdr-coord/src/history.rs:517-538 | every fold refines the simple rule: continue from the largest overlap, append, leave as it is, rebase at the match, or refuse once; refusals stay in {0, 1} |
| `TranscriptRuns.RefusedBodyIsTaken` | relay/crates/lerdr-coord/src/history.rs:385-412 | a body refused once is taken when it is shown again, although its hash is the last one: it continues the rows from the matched block |
| `TranscriptRuns.FoldOnTranscript` | relay/crates/lerdr-coord/src/history.rs:385-412 | on a transcript of distinct lines a fold is right if and only if the windows are connected: they overlap or touch, or a scrolled-back body shows at least two non-blank lines |
| `TranscriptRuns.FoldOverlays` | relay/crates/lerdr-coord/src/history.rs:385-412 | a connected body overwrites exactly the rows it shows, in the form it shows them, and leaves every other row as it was |
| `TranscriptRuns.FoldEndsInBody` | relay/crates/lerdr-coord/src/history.rs:385-412 | for every state and body an overlap or a plain append leaves the history ending in the body as shown, behind what the overlap left of the old rows |
| `TranscriptRuns.HistoryIsOneRun` | relay/crates/lerdr-coord/src/history.rs:496-538 | after every run of connected snapshots whose bodies do not collide under the hash, the history is one contiguous run of the transcript ending at the newest line seen, cut to its last 10,000 lines: nothing lost, nothing twice |
| `TranscriptRuns.SnapshotsLeaveOneRun` | relay/crates/lerdr-coord/src/history.rs:496-538 | the same for the raw snapshots as they arrive, under the code's own body hash |
| `TranscriptRuns.SnapshotsLeaveTrack` | relay/crates/lerdr-coord/src/history.rs:496-551 | the same run, in the lines as they were shown: history and footer are those of the track, and the answer is the last `limit` lines of the two together |
| `TranscriptRuns.TrackShowsLatestLines` | relay/crates/lerdr-coord/src/history.rs:496-538 | every line of the track stands as the last snapshot that showed it had it |
| `TranscriptRuns.TrackShowsLatestFooter` | relay/crates/lerdr-coord/src/history.rs:510-516 | the footer is that of the last snapshot whose body differs from the one before |
| `TranscriptRuns.EqualHashDropsSnapshot` | relay/crates/lerdr-coord/src/history.rs:510-513 | exactly when the hash guard makes a snapshot count for nothing |
| `TranscriptRuns.HashCollides` | relay/crates/lerdr-coord/src/history.rs:347-356 | two different bodies with one hash: the guard can drop a snapshot that is new |
| `PaneDelta.ApplyBuild` | relay/crates/lerdr-core/src/delta.rs:97-199 | applying the delta built between any two frames to the first gives the second |
| `PaneDelta.ComputeBuild` | relay/crates/lerdr-core/src/delta.rs:97-154 | the greedy build over a capped anchor index, and what its result applies to |
| `PaneDelta.ComputeApply` | relay/crates/lerdr-core/src/delta.rs:180-199 | the splice, or nothing when a copy leaves the previous frame |
| `PaneDelta.MatchingLinesIsLongest` | relay/crates/lerdr-core/src/delta.rs:76-90 | the run is equal and cannot be longer |
| `PaneDelta.BestMatchIsLongest` | relay/crates/lerdr-core/src/delta.rs:118-133 | the chosen candidate has the longest run of all candidates |
| `PaneDelta.IndexAnchors` | relay/crates/lerdr-core/src/delta.rs:100-108 | every three-line window maps to its first 64 positions |
| `PaneDelta.BuildCopiesAreLong` | relay/crates/lerdr-core/src/delta.rs:134-146 | no copy is shorter than three lines |
| `PaneDelta.EfficientCopies` | relay/crates/lerdr-core/src/delta.rs:173-176 | a delta worth sending copies at least three lines at once |
| `PaneDelta.BuildMissesNoCopy` | relay/crates/lerdr-core/src/delta.rs:97-154 | each literal is a stretch of lines none of which starts a copy, and each copy is the longest run found at its line |
| `PaneDelta.ChoicesExactly` | relay/crates/lerdr-core/src/delta.rs:110-133 | a line starts a copy exactly when its three lines occur in the previous frame |
| `PaneDelta.CopyEverything` | relay/crates/lerdr-coord/src/watches.rs:1514-1527 | the copy-everything delta of a metadata-only frame reproduces the content |
| `ClientDelta.FindBoundaries` | app/core/terminal/src/main/kotlin/lerdr/core/terminal/PaneDelta.kt:72-79 | the boundary table holds the start of every line and the end of the text |
| `ClientDelta.BoundarySlice` | app/core/terminal/src/main/kotlin/lerdr/core/terminal/PaneDelta.kt:93-95 | two entries of the table cut out exactly those lines, always in range |
| `ClientDelta.ComputeApplyStrict` | app/core/terminal/src/main/kotlin/lerdr/core/terminal/PaneDelta.kt:70-103 | the phone's strict splice |
| `ClientDelta.StrictAgreesWithApply` | app/core/terminal/src/main/kotlin/lerdr/core/terminal/PaneDelta.kt:61-103 | on every delta the phone agrees with the relay's own `apply`, except that it refuses empty literals and negative counts |
| `ClientDelta.StrictAppliesBuild` | app/core/terminal/src/main/kotlin/lerdr/core/terminal/PaneDelta.kt:70-103 | the phone rebuilds the frame from the relay's delta if and only if the last copy does not end right before the empty line after a final newline; otherwise it refuses |
| `ClientDelta.StrictCopiesEverything` | app/core/terminal/src/main/kotlin/lerdr/core/terminal/PaneDelta.kt:84-95 | the copy-everything delta is always read |
| `ClientDelta.DroppedLineIsRefused` | relay/crates/lerdr-core/src/delta.rs:147-170 | a whole family of frames (the last line went away) whose efficient delta the phone refuses |
| `PaneWatch.RunKeeps` | relay/crates/lerdr-coord/src/watches.rs:631-876 | along every run of events the watch state, the gate, the debt of a full frame and the phone agree with the log |
| `PaneWatch.SendFrameKeeps` | relay/crates/lerdr-coord/src/watches.rs:1485-1549 | a pushed or suppressed frame keeps that agreement |
| `PaneWatch.StepKeeps` | relay/crates/lerdr-coord/src/watches.rs:718-874 | every arm of the select loop keeps it |
| `PaneWatchRuns.PhoneShowsSentContent` | relay/crates/lerdr-coord/src/watches.rs:1485-1549 | in every run the phone shows the content of the fingerprint it holds, or the notice text while a death notice stands; so it shows `sent_content` if and only if it holds that fingerprint, and it does unless it refused a delta since the last full frame |
| `PaneWatchRuns.FramesAreSeparated` | relay/crates/lerdr-coord/src/watches.rs:666-694 | two accepted content frames are separated by a matching ack, a timeout, a resync or a death notice |
| `PaneWatchRuns.AckMatchesFrameInFlight` | relay/crates/lerdr-coord/src/watches.rs:727-753 | an ack opens the gate only with the fingerprint of the last content frame, sent since the gate last opened |
| `PaneWatchRuns.FullAfterReset` | relay/crates/lerdr-coord/src/watches.rs:754-780 | the first content frame accepted after a timeout or a resync is full |
| `PaneWatchRuns.FrameAfterResetHeals` | app/core/terminal/src/main/kotlin/lerdr/core/terminal/PaneSurface.kt:116-131 | and it heals the phone, whatever was refused before |
| `PaneWatchRuns.DeltaBaseIsPhones` | relay/crates/lerdr-coord/src/watches.rs:1510-1541 | unless the phone refused a delta since the last full frame, every delta is built on the fingerprint it holds when it arrives |
| `PaneWatchRuns.RevivedFrameShowsIffFull` | relay/crates/lerdr-coord/src/watches.rs:1500-1541 | after a death notice the next frame brings the phone back if and only if it goes out full: it is not suppressed, and a full frame is forced, nothing was sent before, or the delta is not efficient |
| `PaneWatchRuns.RevivedFrameIsSuppressed` | relay/crates/lerdr-coord/src/watches.rs:1500-1508 | a pane that dies and comes back unchanged leaves the phone with the notice text |
| `PaneWatchRuns.WatermarkGrows` | relay/crates/lerdr-coord/src/watches.rs:560-566 | within a pane generation no step lowers the served output watermark |
| `PaneWatchReads.FrameIsSentExactly` | relay/crates/lerdr-coord/src/watches.rs:992-1105 | in every run an event pushes a content frame if and only if it makes a verified read of a frame not sent yet; when a tick must read is told from the events: the pane was not probed since a reset, its fingerprint differs from that of the last probe whose read was verified, a resize settles, its agent changed, or its output moved; once accepted, that frame is the one last sent, and no other event touches what was sent |
| `PaneWatchReads.VouchedIsRemembered` | relay/crates/lerdr-coord/src/watches.rs:1084-1103 | the fingerprint the watch compares with is that of the last probe whose read was verified since the last resync, timeout or stream end |
| `PaneWatchReads.ReadFrameIsShown` | relay/crates/lerdr-coord/src/watches.rs:1485-1549 | a verified read, accepted or sent before, leaves the phone with its content unless a refused delta or a death notice stands |
| `PaneWatchReads.RefusedFrameIsNotRetried` | relay/crates/lerdr-coord/src/watches.rs:1103-1104 | a frame the queue refuses is not tried again while the pane stands still, because the probe is remembered before the push |
| `PaneWatchReads.OpensExactly` | relay/crates/lerdr-coord/src/watches.rs:653-691 | a watch opens with a frame exactly when its first read is verified: a copy of everything if the client said it holds that content, else a full frame |
| `PaneWatchReads.WatermarkExactly` | relay/crates/lerdr-coord/src/watches.rs:560-566 | the served watermark takes in what an unmoved probe and a read that was made report, and nothing else |
| `PaneWatchReads.TimesOutExactly` | relay/crates/lerdr-coord/src/watches.rs:754-780 | in every run a deadline check times out if and only if a frame has been in flight for four seconds |
| `PaneWatchReads.NoticeExactly` | relay/crates/lerdr-coord/src/watches.rs:614-627 | a death notice is pushed exactly when a pane not known to be gone is found gone |
| `PaneWatchReads.AckExactly` | relay/crates/lerdr-coord/src/watches.rs:727-753 | an ack of the frame in flight opens the gate, a repeated or empty one does nothing, any other asks to resync |
| `PaneWatcher.WatchState.SendFrame` | relay/crates/lerdr-coord/src/watches.rs:1485-1549 | the in-place update of the watch state when a frame is due |
| `PaneWatcher.WatchState.SendGone` | relay/crates/lerdr-coord/src/watches.rs:614-627 | one death notice per death, and the gate dropped |
| `PaneWatcher.WatchState.Poll` | relay/crates/lerdr-coord/src/watches.rs:992-1105 | probe, decision to read, read and push |
| `PaneWatcher.WatchState.PollStream` | relay/crates/lerdr-coord/src/watches.rs:1113-1147 | the stream's half of a poll |
| `PaneWatcher.WatchState.TakeAck` | relay/crates/lerdr-coord/src/watches.rs:727-753 | empty, matching, duplicate and foreign acks |
| `PaneWatcher.WatchState.Handle` | relay/crates/lerdr-coord/src/watches.rs:718-874 | one turn of the select loop |
| `PaneWatcher.Serve` | relay/crates/lerdr-coord/src/watches.rs:631-876 | the watch task from its first read on |
| `Topology.StepRevision` | relay/crates/lerdr-coord/src/topology.rs:808-870 | every published event carries exactly one revision increment; every other changes nothing but the attempt time |
| `Topology.RevisionCountsPublishes` | relay/crates/lerdr-coord/src/actor.rs:682-690 | along every run the revision counts the publishes |
| `Topology.StatusIsAdopted` | relay/crates/lerdr-coord/src/topology.rs:634-764 | a status event is published exactly when the pane's first row lacks something it carries; then that row takes over the status and every field carried, under the new revision, and no other row moves |
| `Topology.UnknownStatusIsDropped` | relay/crates/lerdr-coord/src/topology.rs:634-660 | a status event for a pane without a row changes nothing |
| `Topology.CommitTakesRows` | relay/crates/lerdr-coord/src/topology.rs:326-615 | a commit takes over every sampled row, except that on the event path a pane that stays keeps its committed status; rows are stamped with the new revision and the inventory is ready |
| `Topology.BumpRaisesOne` | relay/crates/lerdr-coord/src/topology.rs:902-915 | a bump raises one pane's generation by one, and no other and no row |
| `Topology.FailureIsCommitted` | relay/crates/lerdr-coord/src/topology.rs:860-870 | a failed poll is published exactly when no such failure stands; it marks the inventory failed and keeps the rows |
| `Topology.SettingsAreTaken` | relay/crates/lerdr-coord/src/topology.rs:808-855 | a setting is published exactly when it is new, and is then the one committed |
| `Topology.CommitGeneration` | relay/crates/lerdr-coord/src/topology.rs:383-409 | a commit raises a pane's generation exactly when it replaces the session, removes the pane, or brings it back under a used generation |
| `Topology.GenerationRisesExactly` | relay/crates/lerdr-coord/src/topology.rs:902-915 | along every run a generation never falls, and rises if and only if some event advanced it |
| `Topology.AbsenceEndsSession` | relay/crates/lerdr-coord/src/topology.rs:546-559 | a pane that was absent in between has a larger generation |
| `Topology.ChangedPartRaisesGeneration` | relay/crates/lerdr-coord/src/topology.rs:261-285 | a terminal, tab or workspace that is reported wherever the pane is present and differs between two points of a run: the later generation is larger, whatever the other two say |
| `Topology.GenerationNamesSession` | relay/crates/lerdr-coord/src/topology.rs:261-285 | when no part is ever left blank, two different identities never share a generation |
| `Topology.BlankIdentityHidesReplacement` | relay/crates/lerdr-coord/src/topology.rs:280-285 | a commit with a blank terminal between two reported ones hides a replacement |
| `Broadcast.ReceiveDiff` | relay/crates/lerdr-coord/src/snapshot.rs:217-294 | what a broadcast does to any client: it moves exactly the legs that differ from the published view, and forced rows |
| `Broadcast.ViewTracksProjection` | relay/crates/lerdr-coord/src/snapshot.rs:276-293 | after a publish the view is the projection just published |
| `Broadcast.ReceiveFull` | relay/crates/lerdr-coord/src/snapshot.rs:328-340 | the full rows bring any client to the projection |
| `Broadcast.DiffServes` | relay/crates/lerdr-coord/src/snapshot.rs:217-294 | a broadcast, to whatever view it was taken, brings a client to its projection if and only if every leg that differs at the client is sent |
| `Broadcast.QuietPublish` | relay/crates/lerdr-coord/src/snapshot.rs:241-252 | a publish sends nothing if and only if nothing but commit epochs and timestamps moved |
| `Broadcast.ProjectionDisplays` | relay/crates/lerdr-coord/src/snapshot.rs:140-294 | what a client shows of a revision is its topology: each row with its info, generation and ledger, the inventory state by its three cases, the workspaces, and a capability exactly when it is available |
| `Broadcast.EffectiveExactly` | relay/crates/lerdr-coord/src/snapshot.rs:85-138 | a capability is offered exactly when it is known and its evidence does not refute it |
| `Broadcast.FullRowsAreStamped` | relay/crates/lerdr-coord/src/snapshot.rs:328-340 | full rows carry the revision that last committed their pane |
| `Broadcast.StatusCarriesTimes` | relay/crates/lerdr-coord/src/snapshot.rs:140-166 | the status frame carries the times of the last attempt and the last commit, in seconds |
| `BroadcastRuns.ForwardConvergesExactly` | relay/crates/lerdr-coord/src/router.rs:352-386 | a completed forward ends in the forwarded projection if and only if it saw a gap or its frames serve every leg that differs at the client |
| `BroadcastRuns.EveryForwardConverges` | relay/crates/lerdr-coord/src/router.rs:338-393 | in every run of publishes, joins and forwards, every completed forward leaves the client with exactly the projection of the revision forwarded, if and only if every first forward after a join serves its client |
| `BroadcastRuns.TimelyForwardConverges` | relay/crates/lerdr-coord/src/router.rs:338-393 | in particular when every first forward comes before a second publish |
| `BroadcastRuns.LateFirstForwardDiverges` | relay/crates/lerdr-coord/src/router.rs:352-368 | a first forward that does not: no gap check is made, and a client first served two or more revisions after it joined misses what only the skipped revision carried |
| `RelayRuns.EveryForwardShowsTopology` | relay/crates/lerdr-coord/src/actor.rs:298-584 | the actor and the forwarders together: in every run of actor events, joins and forwards, every completed forward shows the topology committed by then, if and only if every first forward serves its client |
| `RelayRuns.EveryForwardDisplays` | relay/crates/lerdr-coord/src/actor.rs:298-584 | and then the client displays that topology, row by row |
| `RelayRuns.StatusIsForwarded` | relay/crates/lerdr-coord/src/actor.rs:298-584 | a published status event, once forwarded, shows at the client in the pane's row |
| `RelayRuns.BumpIsForwarded` | relay/crates/lerdr-coord/src/actor.rs:298-584 | a bumped pane, once forwarded, shows under its next generation |
| `RelayRuns.UnpublishedIsUnseen` | relay/crates/lerdr-coord/src/actor.rs:572-584 | an event that is not published changes nothing a client would see |
| `TopologyActor.TopologyState.AcceptEnriched` | relay/crates/lerdr-coord/src/topology.rs:326-615 | one snapshot committed: statuses kept on the event path, sessions advanced and ended, inventory ready |
| `TopologyActor.TopologyState.AdvanceSessions` | relay/crates/lerdr-coord/src/topology.rs:383-409 | the per-row generation pass |
| `TopologyActor.TopologyState.EndSessions` | relay/crates/lerdr-coord/src/topology.rs:546-559 | the removal pass |
| `TopologyActor.TopologyState.CommitAgentStatus` | relay/crates/lerdr-coord/src/topology.rs:634-764 | one status event, or nothing when it duplicates the committed row |
| `TopologyActor.TopologyState.MarkInventoryFailure` | relay/crates/lerdr-coord/src/topology.rs:860-870 | a failed poll publishes once |
| `TopologyActor.TopologyState.Apply` | relay/crates/lerdr-coord/src/actor.rs:286-584 | one arm of the select loop and whether it publishes |
| `TopologyActor.PublishedView.BroadcastDiff` | relay/crates/lerdr-coord/src/snapshot.rs:217-294 | the frames owed against the view; afterwards the view is the new projection |
| `TopologyActor.Turn` | relay/crates/lerdr-coord/src/actor.rs:682-690 | a publish carries the next revision and the difference to the view |
| `TopologyActor.PublicationsAreConsecutive` | relay/crates/lerdr-coord/src/actor.rs:682-690 | the publications of every run are numbered one by one |
| `TopologyActor.Forwarder.Forward` | relay/crates/lerdr-coord/src/router.rs:352-386 | only a completed send earns the watermark; a failing sink gets a prefix |
| `SendBuffer.Buffer.PushTyped` | relay/crates/lerdr-core/src/sendbuffer.rs:136-165 | queue, coalesce or reject, in the source's order of checks, within both budgets |
| `SendBuffer.Buffer.PopFront` | relay/crates/lerdr-core/src/sendbuffer.rs:170-174 | first in, first out |
| `SendBuffer.PushExactly` | relay/crates/lerdr-core/src/sendbuffer.rs:136-165 | a push is rejected exactly when the buffer is closed or what would be queued is over a budget, and then changes nothing; else the message is queued last, in the place of a replaceable one of its type |
| `SendBuffer.CoalescingKeepsMeaning` | relay/crates/lerdr-core/src/sendbuffer.rs:25-44 | in every run, once drained, the client stands where all admitted messages would have brought it, provided later messages of a type supersede earlier ones |
| `SendBuffer.CoalescingNeedsSuperseding` | relay/crates/lerdr-core/src/sendbuffer.rs:140-150 | and only then: two messages that do not supersede lose the first of them |
| `SendBuffer.RunIsWholeExactly` | relay/crates/lerdr-core/src/sendbuffer.rs:140-150 | along every run, for any stream, nothing is lost if and only if every replacement is harmless to the client when it happens |
| `Coalescing.TopologyCoalesces` | relay/crates/lerdr-core/src/sendbuffer.rs:33-44 | the topology frames may be coalesced |
| `Coalescing.OnlyResetsSupersede` | relay/crates/lerdr-core/src/sendbuffer.rs:27-30 | a conversation update supersedes what came before if and only if it is a reset |
| `Coalescing.UpdateIsHarmlessExactly` | relay/crates/lerdr-core/src/sendbuffer.rs:27-30 | a conversation update that takes a queued one's place is harmless if and only if it is a reset or the other changed nothing |
| `Coalescing.AppendReplacesReset` | relay/crates/lerdr-core/src/sendbuffer.rs:27-30 | an append queued behind a reset takes its place and the page is lost |
| `Coalescing.PaneContentSupersedes` | relay/crates/lerdr-core/src/sendbuffer.rs:33-44 | one pane frame may replace another if and only if it is of the same pane and not a notice over a full frame the phone lacks, or the other showed nothing new |
| `Coalescing.OtherPaneReplacesFrame` | relay/crates/lerdr-core/src/sendbuffer.rs:33-44 | a frame of one pane queued behind another pane's takes its place and the first is lost |
| `ConversationFeed.Feed.Poll` | relay/crates/lerdr-coord/src/convo_subs.rs:386-508 | probe, skip, read, fence, decide, emit, remember |
| `ConversationFeed.Feed.EmitTombstone` | relay/crates/lerdr-coord/src/convo_subs.rs:512-548 | one empty reset when the pane leaves |
| `ConversationFeed.RunStored` | relay/crates/lerdr-coord/src/convo_subs.rs:454-505 | a feed remembers exactly what its last storing turn read and probed |
| `ConversationFeed.SettledSkipIsSound` | relay/crates/lerdr-coord/src/convo_subs.rs:405-416 | whenever a poll takes the settled skip on an existing source, a read at that moment under the tuple that stored the stamp returns the signature last sent, under arbitrary writes between probe, read and emission; so the skip is right if and only if the tuple asked for reads like that one |
| `ConversationFeed.SkipsExactly` | relay/crates/lerdr-coord/src/convo_subs.rs:398-461 | under the last generation and tuple a poll skips if and only if the source stands as the storing turn probed it, or that turn met a new source and it is absent now |
| `ConversationFeed.VanishedSourceIsSkipped` | relay/crates/lerdr-coord/src/convo_subs.rs:454-461 | a source that vanishes before its confirmation read is skipped, and the client keeps the page of the first read |
| `ConversationFeed.VanishedSourceIsStale` | relay/crates/lerdr-coord/src/convo_subs.rs:454-461 | that page can be one a read would no longer return |
| `ConversationFeed.ReturnedTupleIsSkipped` | relay/crates/lerdr-coord/src/convo_subs.rs:463-478 | a stamp refreshed under another conversation tuple makes the skip wrong when the first tuple returns |
| `ConversationRuns.LastPageIsSuffix` | relay/crates/lerdr-coord/src/convo_subs.rs:552-605 | in every run the last page sent is a suffix of the client's list, by id and by digest |
| `ConversationRuns.ResetComesFirst` | relay/crates/lerdr-coord/src/convo_subs.rs:552-584 | after a tombstone or a generation change no append precedes a reset |
| `ConversationRuns.AppendExactly` | relay/crates/lerdr-coord/src/convo_subs.rs:590-605 | for two windows of a transcript with unique ids, an append is found if and only if the window slid forward over an unchanged overlap; it ships exactly the entries past the old end |
| `ConversationRuns.DecideExactly` | relay/crates/lerdr-coord/src/convo_subs.rs:552-584 | a page is not sent exactly when it is the one last sent; it is appended exactly when generation, source, availability and reason stand and an append is found; else it resets |
| `ConversationRuns.ResetsExactly` | relay/crates/lerdr-coord/src/convo_subs.rs:552-605 | in every run a page the client takes resets it if and only if there is nothing to continue or the page does not follow the last one sent; else only the entries past the old end are sent |
| `ConversationRuns.LiveTurnPushesExactly` | relay/crates/lerdr-coord/src/convo_subs.rs:386-508 | a live turn pushes exactly when it reads a page that is not the one last sent; it reads unless generation, tuple and stamp are those of the last page |
| `ConversationRuns.GoneTurnPushesExactly` | relay/crates/lerdr-coord/src/convo_subs.rs:512-548 | a pane that left is announced by one empty reset, unless a tombstone was the last frame taken |
| `ConversationRuns.EqualSigsMeanEqualPages` | relay/crates/lerdr-coord/src/convo_subs.rs:252-310 | native pages with one signature have the same entries; flat ones the same ids and the same tool entries |
| `ConversationRuns.PhoneHoldsContiguousRun` | relay/crates/lerdr-coord/src/convo_subs.rs:554-605 | in every run, over any generations and conversations, the phone holds one contiguous run of the transcript last read, from the start of the page that last reset it to the end of the last page sent, and nothing after a tombstone, as to every part of an entry that is not edited in place |
| `ConversationRuns.PhoneHoldsTranscript` | relay/crates/lerdr-coord/src/convo_subs.rs:590-605 | without edits in place its list is that run itself |
| `ConversationRuns.MergeIsAppend` | app/app/src/main/kotlin/com/lerdr/app/session/FeedViewModel.kt:1551-1557 | the phone's merge is a plain append if and only if no appended id is known |
| `RecoveryStore.Store.FindOldest` | relay/crates/lerdr-coord/src/application_history.rs:91-96 | the idle entry touched first, or none when all are busy |
| `RecoveryStore.Store.Observe` | relay/crates/lerdr-coord/src/application_history.rs:80-154 | insert or evict, refresh, grant, answer |
| `RecoveryStore.Store.Release` | relay/crates/lerdr-coord/src/application_history.rs:163-175 | the entry idle under a fresh version, with its snapshot on success |
| `RecoveryStore.NextKeeps` | relay/crates/lerdr-coord/src/application_history.rs:80-184 | every observe, finish and drop keeps reservations, entries and snapshots consistent |
| `RecoveryRuns.BusyExactlyWhenHeld` | relay/crates/lerdr-coord/src/application_history.rs:80-184 | in every run at most 32 entries and one reservation per pane; an entry is busy if and only if one is held, or it is the pane with the empty id and its reservation was dropped before |
| `RecoveryRuns.BusyEntryStays` | relay/crates/lerdr-coord/src/application_history.rs:90-101 | no step evicts a busy entry |
| `RecoveryRuns.IdleViewIsSameTerminal` | relay/crates/lerdr-coord/src/application_history.rs:119-147 | a view that is not busy only carries a snapshot recorded on the terminal asked for |
| `RecoveryRuns.VersionFences` | relay/crates/lerdr-coord/src/application_history.rs:69-76 | if a nonzero version reads the same at two moments, no reservation on the pane was held in between |
| `RecoveryRuns.RetriesAreBounded` | relay/crates/lerdr-coord/src/application_history.rs:119-142 | while an entry stays with its epoch and window it grants at most three reservations, at least five seconds apart, and none after a success |
| `RecoveryRuns.GrantsExactly` | relay/crates/lerdr-coord/src/application_history.rs:119-142 | from an entry not tried yet, while epoch and window stand, an observation is granted a reservation if and only if it is eligible, none is held, nothing was recovered, fewer than three were granted, and the last of them five seconds ago |
| `RecoveryRuns.NewEpochStartsOver` | relay/crates/lerdr-coord/src/application_history.rs:119-142 | a new epoch or a larger window of an idle entry starts over: an eligible observation is granted |
| `RecoveryRuns.FinishedIsShown` | relay/crates/lerdr-coord/src/application_history.rs:163-175 | while epoch and window stand an entry shows what was last recovered, and is complete once anything was |
| `RecoveryRuns.RecoveredStaysShown` | relay/crates/lerdr-coord/src/application_history.rs:119-175 | across epochs and windows, as long as an entry stays on its terminal it holds what was last recovered |
| `RecoveryRuns.RecoveredIsAnswered` | relay/crates/lerdr-coord/src/application_history.rs:80-154 | so whoever observes the pane on that terminal is shown what was last recovered |
| `RecoveryRuns.AnswerShowsEntry` | relay/crates/lerdr-coord/src/application_history.rs:143-154 | an observation answers with its pane's entry, and with nothing only when all 32 entries are busy; what it is granted covers the entry's window |
| `RecoveryRuns.TouchExactly` | relay/crates/lerdr-coord/src/application_history.rs:88-119 | only an observation touches an entry, so the victim is the longest unobserved |
| `RecoveryRuns.EmptyPaneIsStuck` | relay/crates/lerdr-coord/src/application_history.rs:178-184 | the shortest run that leaves the pane with the empty id busy with no reservation held |
| `RecoveryRuns.EmptyPaneStaysBusy` | relay/crates/lerdr-coord/src/application_history.rs:178-184 | and no later step can free it |
| `ScrollHarvest.ComputeMergeUp` | relay/crates/lerdr-coord/src/controlled_history.rs:37-89 | one snapshot merged: `Some(k)` grew the history by exactly k rows, `None` and `Some(0)` left it unchanged, every index in bounds |
| `ScrollHarvest.MergeIsAccounted` | relay/crates/lerdr-coord/src/controlled_history.rs:37-89 | the same accounting for every input |
| `ScrollHarvest.AddedIsNeverZero` | relay/crates/lerdr-coord/src/controlled_history.rs:76-78 | the `added == 0` guard is never the reason for `None` |
| `ScrollHarvest.MergeShapes` | relay/crates/lerdr-coord/src/controlled_history.rs:37-89 | every merge leaves the history, inserts the new rows below a shared header above an anchor found only once, or replaces the header by the new snapshot's |
| `ScrollHarvest.ReplaceKeepsRest` | relay/crates/lerdr-coord/src/controlled_history.rs:52-72 | a replaced header is the new snapshot's down to a run of three rows that stood higher in the old one, and everything below stays |
| `ScrollHarvest.ComputeHarvest` | relay/crates/lerdr-coord/src/controlled_history.rs:161-201 | the harvest loop within its step and line bounds |
| `ScrollHarvest.RestoredViewOfItself` | relay/crates/lerdr-coord/src/controlled_history.rs:25-33 | a view confirms itself if and only if it has three rows; then all but the last eight must agree |
| `HarvestRuns.MergeExtends` | relay/crates/lerdr-coord/src/controlled_history.rs:43-88 | a step with at least three shared rows extends the harvested run upwards and by nothing else |
| `HarvestRuns.HarvestIsOneRun` | relay/crates/lerdr-coord/src/controlled_history.rs:161-201 | the loop stops only at its line bound, its step bound, an end or an unchanged view, and leaves header, one contiguous transcript segment from the top of the last snapshot it merged, and footer |
| `RowRenderer.RenderRows` | relay/crates/lerdr-coord/src/pane_stream.rs:554-629 | every line in reach past the budget's cut exactly once and in order, without trailing blanks; truncated exactly when lines were dropped; the view reset |
| `RowRenderer.CollectTiles` | relay/crates/lerdr-coord/src/pane_stream.rs:584-615 | the tile loop terminates and emits the lines from `skip` to `total`, before trimming |
| `RowRenderer.TrimmedIsLongest` | relay/crates/lerdr-coord/src/pane_stream.rs:617-619 | only trailing blank lines go, and all of them |
| `RowRenderer.WrittenSplits` | relay/crates/lerdr-coord/src/pane_stream.rs:599-625 | split at its newlines, what is written is the text of each line in the format asked for |
| `RowRenderer.UnwrappedRunsOn` | relay/crates/lerdr-coord/src/pane_stream.rs:599-625 | unwrapped, a wrapped line runs on into the next |
| `ContentCap.CapPaneContentLines` | relay/crates/lerdr-coord/src/watches.rs:187-210 | the backward scan returns the last `limit` lines, one trailing newline discounted |
| `CivilCalendar.CivilIsTheDate` | relay/crates/lerdr-core/src/audit.rs:714-729 | for every day number, negative ones included, a real Gregorian date with exactly that day number |
| `CivilCalendar.CivilInvertsDaysOf` | relay/crates/lerdr-core/src/audit.rs:714-729 | days-from-civil inverts it on every date |
| `CivilCalendar.CivilWalksTheCalendar` | relay/crates/lerdr-core/src/audit.rs:714-729 | the next day number is the next calendar day |
| `CivilCalendar.CivilStartsAtTheEpoch` | relay/crates/lerdr-core/src/audit.rs:712-713 | day 0 is 1970-01-01 |
| `CivilCalendar.EraIsFloor` | relay/crates/lerdr-core/src/audit.rs:716-717 | the shifted truncating division is a floor on both sides of zero |
| `CivilCalendar.YearOfEraIs` | relay/crates/lerdr-core/src/audit.rs:718-720 | the year formula finds the year and the day within it |
| `Timestamp.ClockIsExact` | relay/crates/lerdr-core/src/audit.rs:677-691 | seconds and a non-negative fraction name the instant, before the epoch too |
| `Timestamp.FieldsNameTheInstant` | relay/crates/lerdr-core/src/audit.rs:676-699 | the printed date and time name exactly the instant |
| `Timestamp.Fraction` | relay/crates/lerdr-core/src/audit.rs:700-708 | trailing zeros go, every nanosecond stays |
| `AuditRotation.Logger.RotateIfNeeded` | relay/crates/lerdr-core/src/audit.rs:266-309 | the rename loop moves every file one place and drops the last |
| `AuditRotation.Logger.Append` | relay/crates/lerdr-core/src/audit.rs:170-206 | refuse an over-long record, rotate if needed, append |
| `AuditRotation.ChainIsSuffix` | relay/crates/lerdr-core/src/audit.rs:266-309 | from an empty log the chain is a suffix of everything appended, every file at most 5 MiB, every rotation over 5 MiB minus 128 KiB, and once a line is gone more than three times that is retained |
| `AuditRotation.LastLineIsKept` | relay/crates/lerdr-core/src/audit.rs:189-206 | an accepted record is the last line of the chain; an over-long one changes nothing |
| `ReleasePaths.CleanSlashTwice` | relay/crates/lerdr-coord/src/release.rs:483-502 | `clean_slash` is idempotent |
| `ReleasePaths.CleanPathTwice` | relay/crates/lerdr-coord/src/release.rs:507-534 | a cleaned path keeps rootedness and elements, and cleaning is idempotent |
| `ReleasePaths.RelPathLeads` | relay/crates/lerdr-coord/src/release.rs:548-591 | `rel_path(base, targ) = Ok(r)` implies that r is relative and cleaning base/r gives the cleaned target |
| `ReleasePaths.NoRelPathMeansNone` | relay/crates/lerdr-coord/src/release.rs:548-591 | `rel_path` refuses only where no relative path leads from base to the target |
| `ReleasePaths.ComputeRelPath` | relay/crates/lerdr-coord/src/release.rs:548-591 | the same for the loops that compute it |
| `ReleasePaths.CleanParts` | relay/crates/lerdr-coord/src/release.rs:484-496 | the component stack |
| `ReleasePaths.BlankVanishes` | relay/crates/lerdr-coord/src/release.rs:507-534 | empty and `.` components never change the elements of a path |
| `ReleasePaths.UpCancels` | relay/crates/lerdr-coord/src/release.rs:507-534 | a name and the step up after it cancel |
| `ReleasePaths.UpStopsAtRoot` | relay/crates/lerdr-coord/src/release.rs:507-534 | a step up at the root goes nowhere |
| `ReleasePaths.ActivatesExactlyBelow` | relay/crates/lerdr-coord/src/release.rs:354-359 | for all paths the activation check passes if and only if both are rooted or neither is, and the target is the base or below it without stepping up |
| `ReleasePaths.AbsoluteActivation` | relay/crates/lerdr-coord/src/release.rs:354-359 | for absolute paths: if and only if the base's elements begin the target's |
| `ReleasePaths.CanonicalExactly` | relay/crates/lerdr-coord/src/release.rs:174-180 | a manifest name passes if and only if it has no backslash and no empty, `.` or `..` component |

## Left out

- Escape stripping in `normalize_line`, `comparable_row` and the emulator: parameters or abstract rows here.
- Saving and loading pane histories on disk, and `reconcile`: I/O around the merge.
- PaneWatcher.WatchState.Poll: whether a poll is due, the stream slot's dirty flag, re-attachment and geometry are inputs, because they only decide when a read happens.
- PaneWatcher.WatchState.PollStream: the stream slot's dirty flag and geometry are inputs for the same reason.
- PaneWatchRuns.PhoneShowsSentContent: takes an accepted frame as delivered; replacement in the queue is treated in `Coalescing`.
- PaneWatchRuns.DeltaBaseIsPhones: takes an accepted frame as delivered, as above.
- `pane_read_fresh`: the at-most-once re-read inside a read; a read here is one answer.
- TopologyActor.TopologyState.AcceptEnriched: takes the time and attention ledgers of a pane as one value per commit, because blocked cycles, done marks and transitions live in the classifier.
- Broadcast.ReceiveDiff: rows keep the snapshot's order; the sort by pane id before sending is not modelled.
- The attention ledger's acknowledgements between publishes: a row is fixed per revision here.
- `annotations.rs` and `update_worker.rs`: no invariant beyond single branches, or a linear script over processes.
- `split_host_history`: the search for the screen inside the scrollback.
- Backoff of the reconcile poll and every timer: steps may happen at any time.
- ConversationFeed.Feed.Poll: the sink, the read and the mid-read fence answer through parameters; `u64` conversion of the generation on the wire is not modelled.
- RecoveryStore.Store.Observe: 64-bit versions and 8-bit attempt counters do not wrap here.
- TranscriptHistory.Manager.MergeLimited: a pane not seen before starts empty; loading its saved state is not modelled.
- CivilCalendar.CivilIsTheDate: day numbers are unbounded integers, without 64-bit overflow.
- AuditRotation.ChainIsSuffix: every file operation succeeds; record encoding, clamping and permissions are not modelled.
- ReleasePaths.ActivatesExactlyBelow: lexical only, as the code is; links, hashing, sealing and pruning are not modelled.
- Encryption, sessions, leases, pushes and the remaining phone code: outside this core.
