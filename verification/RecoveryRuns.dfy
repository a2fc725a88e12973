/**
  What holds in every run of observing, finishing and dropping.
 */
module RecoveryRuns {
  import opened Text
  import opened RecoveryStore

  /** The world after the steps, if each was possible when it came. */
  function Run(w: World, steps: seq<Step>): Option<World> {
    if steps == [] then Some(w) else
      var n := |steps| - 1;
      var before := Run(w, steps[..n]);
      if before.Some? && Enabled(before.value, steps[n]) then Some(Next(before.value, steps[n])) else None
  }

  lemma {:induction false} RunKeeps(w: World, steps: seq<Step>)
    requires Kept(w)
    ensures Run(w, steps).Some? ==> Kept(Run(w, steps).value)
    decreases |steps|
  {
    if steps != [] {
      var n := |steps| - 1;
      RunKeeps(w, steps[..n]);
      if Run(w, steps).Some? { NextKeeps(Run(w, steps[..n]).value, steps[n]); }
    }
  }

  lemma {:induction false} RunSplits(w: World, steps: seq<Step>, k: nat)
    requires k <= |steps| && Run(w, steps).Some?
    ensures Run(w, steps[..k]).Some? && Run(Run(w, steps[..k]).value, steps[k..]) == Run(w, steps)
    decreases |steps|
  {
    if k == |steps| {
      assert steps[..k] == steps && steps[k..] == [];
    } else {
      var n := |steps| - 1;
      RunSplits(w, steps[..n], k);
      assert steps[..n][..k] == steps[..k] && steps[..n][k..] == steps[k..][..n - k];
    }
  }

  // ---- busy entries ----

  predicate IsBusy(w: World, pane: string) { pane in w.store.entries && w.store.entries[pane].busy }

  predicate DropsEmpty(w: World, step: Step)
    requires Enabled(w, step)
  {
    step.Dropping? && w.live[step.index].pane == ""
  }

  /** Some step of the run dropped a reservation of the pane with the empty id. */
  predicate DroppedEmpty(w: World, steps: seq<Step>)
    requires Run(w, steps).Some?
  {
    steps != [] &&
      var n := |steps| - 1;
      DroppedEmpty(w, steps[..n]) || DropsEmpty(Run(w, steps[..n]).value, steps[n])
  }

  /** The empty pane's entry is stuck: busy, with no reservation left to release it. */
  predicate Stuck(w: World) { IsBusy(w, "") && Count(w.live, "") == 0 }

  lemma StuckStep(w: World, step: Step)
    requires Kept(w) && Enabled(w, step) && Stuck(w)
    ensures Stuck(Next(w, step))
  {
    if step.Observing? {
      var granted := Observed(w.store, step.pane, step.victim, step.epoch, step.lines, step.eligible, step.now).2;
      if granted.Some? {
        CountAppend(w.live, [granted.value], "");
        CountOne(granted.value, "");
      }
    } else {
      CountAt(w.live, step.index);
      CountWithout(w.live, step.index, "");
    }
  }

  lemma DropSticks(w: World, step: Step)
    requires Kept(w) && Enabled(w, step) && DropsEmpty(w, step)
    ensures Stuck(Next(w, step))
  {
    CountAt(w.live, step.index);
    CountWithout(w.live, step.index, "");
    assert PaneKept(w, "");
  }

  lemma ReleaseFrees(w: World, step: Step)
    requires Kept(w) && Enabled(w, step) && !step.Observing? && !DropsEmpty(w, step) && !Stuck(w)
    ensures !Stuck(Next(w, step))
  {
    CountAt(w.live, step.index);
    CountWithout(w.live, step.index, "");
    assert PaneKept(w, "");
  }

  lemma ObserveFrees(w: World, step: Step)
    requires Kept(w) && Enabled(w, step) && step.Observing? && !Stuck(w)
    ensures !Stuck(Next(w, step))
  {
    assert PaneKept(w, "");
    var granted := Observed(w.store, step.pane, step.victim, step.epoch, step.lines, step.eligible, step.now).2;
    if granted.Some? {
      CountAppend(w.live, [granted.value], "");
      CountOne(granted.value, "");
    }
  }

  lemma {:induction false} StuckExactly(w: World, steps: seq<Step>)
    requires Kept(w) && !Stuck(w) && Run(w, steps).Some?
    ensures Stuck(Run(w, steps).value) <==> DroppedEmpty(w, steps)
    decreases |steps|
  {
    if steps != [] {
      var n := |steps| - 1;
      StuckExactly(w, steps[..n]);
      RunKeeps(w, steps[..n]);
      var before := Run(w, steps[..n]).value;
      if Stuck(before) {
        StuckStep(before, steps[n]);
      } else if DropsEmpty(before, steps[n]) {
        DropSticks(before, steps[n]);
      } else if steps[n].Observing? {
        ObserveFrees(before, steps[n]);
      } else {
        ReleaseFrees(before, steps[n]);
      }
    }
  }

  /**
    In every run the cache stays bounded, at most one reservation on a pane is held, and an entry is
    busy exactly when one is, except that the pane with the empty id stays busy from the first drop of
    its reservation on, with none held.
   */
  lemma BusyExactlyWhenHeld(steps: seq<Step>, pane: string)
    requires Run(EMPTY, steps).Some?
    ensures var w := Run(EMPTY, steps).value;
            && |w.store.entries| <= MAX_PANES
            && Count(w.live, pane) <= 1
            && (IsBusy(w, pane) <==> Count(w.live, pane) == 1 || (pane == "" && DroppedEmpty(EMPTY, steps)))
            && (DroppedEmpty(EMPTY, steps) ==> Count(w.live, "") == 0)
  {
    RunKeeps(EMPTY, steps);
    StuckExactly(EMPTY, steps);
    assert PaneKept(Run(EMPTY, steps).value, pane) && PaneKept(Run(EMPTY, steps).value, "");
  }

  /** No step evicts a busy entry, and only its release makes it idle again. */
  lemma BusyEntryStays(w: World, step: Step, pane: string)
    requires Enabled(w, step) && pane in w.store.entries && w.store.entries[pane].busy
    ensures pane in Next(w, step).store.entries
    ensures Next(w, step).store.entries[pane].busy || !step.Observing?
    ensures Next(w, step).store.entries[pane].busy ==>
              Next(w, step).store.entries[pane].version == w.store.entries[pane].version
  {
  }

  /** Only an observation touches an entry, so the one touched first is the longest unobserved. */
  lemma TouchExactly(w: World, step: Step, pane: string)
    requires Enabled(w, step) && pane in Next(w, step).store.entries
    ensures var e := Next(w, step).store.entries[pane];
            if step.Observing? && step.pane == pane then e.touched == step.now
            else pane in w.store.entries && e.touched == w.store.entries[pane].touched
  {
  }

  /** A view that is not busy only carries a snapshot recorded on the terminal it was asked for. */
  lemma IdleViewIsSameTerminal(
    steps: seq<Step>, pane: string, victim: Option<string>, epoch: Epoch, lines: nat, eligible: bool, now: nat)
    requires Run(EMPTY, steps).Some? && ValidVictim(Run(EMPTY, steps).value.store, pane, victim)
    ensures var view := Observed(Run(EMPTY, steps).value.store, pane, victim, epoch, lines, eligible, now).1;
            !view.busy && view.snapshot.Some? ==> SameTerminal(view.snapshot.value.epoch, epoch)
  {
    RunKeeps(EMPTY, steps);
    var w := Run(EMPTY, steps).value;
    if !(NeedsRoom(w.store, pane) && victim.None?) {
      InsertKeeps(w, pane, victim, epoch, lines, now);
      var s := Inserted(w.store, pane, victim, epoch, lines, now);
      assert EntryKept(s, s.entries[pane]);
    }
  }

  // ---- the version fence ----

  /** The pane is absent, busy, or was given a version after `bound`. */
  predicate Past(w: World, pane: string, bound: nat) {
    pane in w.store.entries && !w.store.entries[pane].busy ==> w.store.entries[pane].version > bound
  }

  lemma StepStaysPast(w: World, step: Step, pane: string, bound: nat)
    requires Kept(w) && Enabled(w, step) && Past(w, pane, bound) && bound <= w.store.version
    ensures Past(Next(w, step), pane, bound) && w.store.version <= Next(w, step).store.version
  {
  }

  lemma {:induction false} RunStaysPast(w: World, steps: seq<Step>, pane: string, bound: nat)
    requires Kept(w) && Past(w, pane, bound) && bound <= w.store.version && Run(w, steps).Some?
    ensures Past(Run(w, steps).value, pane, bound) && w.store.version <= Run(w, steps).value.store.version
    decreases |steps|
  {
    if steps != [] {
      var n := |steps| - 1;
      RunStaysPast(w, steps[..n], pane, bound);
      RunKeeps(w, steps[..n]);
      StepStaysPast(Run(w, steps[..n]).value, steps[n], pane, bound);
    }
  }

  /** The version never falls along a run. */
  lemma {:induction false} VersionGrows(w: World, steps: seq<Step>)
    requires Run(w, steps).Some?
    ensures w.store.version <= Run(w, steps).value.store.version
    decreases |steps|
  {
    if steps != [] { VersionGrows(w, steps[..|steps| - 1]); }
  }

  /** If a nonzero version reads the same at two moments, no reservation on the pane was held in between. */
  lemma VersionFences(before: seq<Step>, between: seq<Step>, k: nat, pane: string)
    requires Run(EMPTY, before).Some? && k <= |between|
    requires var first := Run(EMPTY, before).value;
             Run(first, between).Some?
             && ReadVersion(first.store, pane) == ReadVersion(Run(first, between).value.store, pane)
             && ReadVersion(first.store, pane).Some? && ReadVersion(first.store, pane) != Some(0)
    ensures Run(Run(EMPTY, before).value, between[..k]).Some?
    ensures Count(Run(Run(EMPTY, before).value, between[..k]).value.live, pane) == 0
  {
    var first := Run(EMPTY, before).value;
    RunKeeps(EMPTY, before);
    RunSplits(first, between, k);
    RunKeeps(first, between[..k]);
    VersionGrows(first, between[..k]);
    var middle := Run(first, between[..k]).value;
    assert PaneKept(middle, pane) && EntryKept(first.store, first.store.entries[pane]);
    if Count(middle.live, pane) == 1 {
      RunStaysPast(middle, between[k..], pane, middle.store.version);
    }
  }

  // ---- retries ----

  /** The observation grants a reservation on the pane. */
  predicate Grants(w: World, step: Step, pane: string)
    requires Enabled(w, step)
  {
    step.Observing? && step.pane == pane
    && Observed(w.store, pane, step.victim, step.epoch, step.lines, step.eligible, step.now).2.Some?
  }

  /** The times at which reservations on the pane were granted. */
  function GrantTimes(w: World, steps: seq<Step>, pane: string): seq<nat> {
    if steps == [] then [] else
      var n := |steps| - 1;
      var times := GrantTimes(w, steps[..n], pane);
      var before := Run(w, steps[..n]);
      if before.Some? && Enabled(before.value, steps[n]) && Grants(before.value, steps[n], pane)
      then times + [steps[n].now] else times
  }

  /** The entry is there, under one epoch and one window. */
  predicate Steady(w: World, pane: string, epoch: Epoch, lines: nat) {
    pane in w.store.entries && w.store.entries[pane].epoch == epoch && w.store.entries[pane].lines == lines
  }

  ghost predicate SteadyThroughout(w: World, steps: seq<Step>, pane: string, epoch: Epoch, lines: nat) {
    forall k: nat :: k <= |steps| ==> Run(w, steps[..k]).Some? && Steady(Run(w, steps[..k]).value, pane, epoch, lines)
  }

  /** The step settles a reservation of the pane with the rows it recovered. */
  predicate Finishes(w: World, step: Step, pane: string)
    requires Enabled(w, step)
  {
    step.Finishing? && step.rows.Some? && w.live[step.index].pane == pane
  }

  /**
    While epoch and window stand, a step either leaves the retry state alone, grants, or
    settles a held reservation; only a successful one completes the entry.
   */
  lemma SteadyStep(w: World, step: Step, pane: string, epoch: Epoch, lines: nat)
    requires Enabled(w, step) && Steady(w, pane, epoch, lines) && Steady(Next(w, step), pane, epoch, lines)
    ensures var e, e' := w.store.entries[pane], Next(w, step).store.entries[pane];
            && e'.complete == (e.complete || Finishes(w, step, pane))
            && (if Grants(w, step, pane)
                then !e.complete && e.attempts < MAX_ATTEMPTS && e'.attempts == e.attempts + 1
                     && e'.attempted == Some(step.now)
                     && (e.attempted.Some? ==> step.now >= e.attempted.value + RETRY_DELAY_MS)
                else e'.attempts == e.attempts && e'.attempted == e.attempted)
  {
  }

  ghost predicate Spaced(times: seq<nat>) {
    forall i, j :: 0 <= i < j < |times| ==> times[j] >= times[i] + RETRY_DELAY_MS
  }

  ghost predicate RetriesKept(was: Entry, e: Entry, times: seq<nat>) {
    && e.attempts == was.attempts + |times|
    && (e.attempts <= MAX_ATTEMPTS)
    && Spaced(times)
    && (if times == [] then e.attempted == was.attempted else e.attempted == Some(times[|times| - 1]))
  }

  lemma SpacedMore(times: seq<nat>, now: nat)
    requires Spaced(times) && (times != [] ==> now >= times[|times| - 1] + RETRY_DELAY_MS)
    ensures Spaced(times + [now])
  {
    assert forall i :: 0 <= i < |times| - 1 ==> times[|times| - 1] >= times[i] + RETRY_DELAY_MS;
  }

  lemma {:induction false} RetriesAreKept(w: World, steps: seq<Step>, pane: string, epoch: Epoch, lines: nat)
    requires Kept(w) && SteadyThroughout(w, steps, pane, epoch, lines)
    ensures Run(w, steps).Some? && pane in w.store.entries && pane in Run(w, steps).value.store.entries
    ensures RetriesKept(w.store.entries[pane], Run(w, steps).value.store.entries[pane], GrantTimes(w, steps, pane))
    ensures w.store.entries[pane].complete ==>
              Run(w, steps).value.store.entries[pane].complete && GrantTimes(w, steps, pane) == []
    decreases |steps|
  {
    assert steps[..0] == [] && steps[..|steps|] == steps;
    assert Run(w, steps[..0]).Some? && Run(w, steps[..|steps|]).Some?;
    assert EntryKept(w.store, w.store.entries[pane]);
    if steps != [] {
      var n := |steps| - 1;
      SteadyPrefix(w, steps, pane, epoch, lines);
      RetriesAreKept(w, steps[..n], pane, epoch, lines);
      assert Run(w, steps[..n]).Some?;
      SteadyStep(Run(w, steps[..n]).value, steps[n], pane, epoch, lines);
      var times := GrantTimes(w, steps[..n], pane);
      if Grants(Run(w, steps[..n]).value, steps[n], pane) { SpacedMore(times, steps[n].now); }
    }
  }

  lemma SteadyPrefix(w: World, steps: seq<Step>, pane: string, epoch: Epoch, lines: nat)
    requires steps != [] && SteadyThroughout(w, steps, pane, epoch, lines)
    ensures SteadyThroughout(w, steps[..|steps| - 1], pane, epoch, lines)
  {
    var n := |steps| - 1;
    forall k: nat | k <= n
      ensures Run(w, steps[..n][..k]).Some? && Steady(Run(w, steps[..n][..k]).value, pane, epoch, lines)
    {
      assert steps[..n][..k] == steps[..k];
    }
  }

  /**
    While an entry stays, with its epoch and window, it grants at most three
    reservations, at least five seconds apart, and none after a success.
   */
  lemma RetriesAreBounded(before: seq<Step>, steps: seq<Step>, pane: string, epoch: Epoch, lines: nat)
    requires Run(EMPTY, before).Some? && SteadyThroughout(Run(EMPTY, before).value, steps, pane, epoch, lines)
    ensures var times := GrantTimes(Run(EMPTY, before).value, steps, pane);
            && |times| <= MAX_ATTEMPTS && Spaced(times)
            && pane in Run(EMPTY, before).value.store.entries
            && (Run(EMPTY, before).value.store.entries[pane].complete ==> times == [])
  {
    RunKeeps(EMPTY, before);
    RetriesAreKept(Run(EMPTY, before).value, steps, pane, epoch, lines);
  }

  // ---- what is recovered, and when a read is granted ----

  /** The rows of the last reservation of the pane settled with any. */
  function LastFinished(w: World, steps: seq<Step>, pane: string): Option<string> {
    if steps == [] then None else
      var n := |steps| - 1;
      var before := Run(w, steps[..n]);
      if before.Some? && Enabled(before.value, steps[n]) && Finishes(before.value, steps[n], pane) then steps[n].rows
      else LastFinished(w, steps[..n], pane)
  }

  lemma SnapshotStep(w: World, step: Step, pane: string, epoch: Epoch, lines: nat)
    requires Kept(w) && Enabled(w, step)
    requires Steady(w, pane, epoch, lines) && Steady(Next(w, step), pane, epoch, lines)
    ensures Next(w, step).store.entries[pane].snapshot
         == if Finishes(w, step, pane) then Some(History(step.rows.value, epoch)) else w.store.entries[pane].snapshot
  {
    if !step.Observing? { assert HeldKept(w, w.live[step.index]); }
  }

  /** While epoch and window stand, an entry shows what was last recovered, and is complete once anything was. */
  lemma {:induction false} FinishedIsShown(w: World, steps: seq<Step>, pane: string, epoch: Epoch, lines: nat)
    requires Kept(w) && SteadyThroughout(w, steps, pane, epoch, lines)
    ensures Run(w, steps).Some? && pane in w.store.entries && pane in Run(w, steps).value.store.entries
    ensures var was, e := w.store.entries[pane], Run(w, steps).value.store.entries[pane];
            var rows := LastFinished(w, steps, pane);
            && e.snapshot == (if rows.Some? then Some(History(rows.value, epoch)) else was.snapshot)
            && e.complete == (was.complete || rows.Some?)
    decreases |steps|
  {
    assert steps[..0] == [] && steps[..|steps|] == steps;
    assert Run(w, steps[..0]).Some? && Run(w, steps[..|steps|]).Some?;
    if steps != [] {
      var n := |steps| - 1;
      SteadyPrefix(w, steps, pane, epoch, lines);
      FinishedIsShown(w, steps[..n], pane, epoch, lines);
      RunKeeps(w, steps[..n]);
      assert Run(w, steps[..n]).Some?;
      SteadyStep(Run(w, steps[..n]).value, steps[n], pane, epoch, lines);
      SnapshotStep(Run(w, steps[..n]).value, steps[n], pane, epoch, lines);
    }
  }

  ghost predicate OnTerminal(w: World, pane: string, epoch: Epoch) {
    pane in w.store.entries && SameTerminal(w.store.entries[pane].epoch, epoch)
  }

  ghost predicate OnTerminalThroughout(w: World, steps: seq<Step>, pane: string, epoch: Epoch) {
    forall k: nat | k <= |steps| :: Run(w, steps[..k]).Some? && OnTerminal(Run(w, steps[..k]).value, pane, epoch)
  }

  /** The snapshot holds these rows, or, without any, is the one from before. */
  predicate HoldsRows(snapshot: Option<History>, rows: Option<string>, epoch: Epoch, before: Option<History>) {
    if rows.None? then snapshot == before
    else snapshot.Some? && snapshot.value.rows == rows.value && SameTerminal(snapshot.value.epoch, epoch)
  }

  lemma TerminalStep(w: World, step: Step, pane: string, epoch: Epoch)
    requires Kept(w) && Enabled(w, step) && OnTerminal(w, pane, epoch) && OnTerminal(Next(w, step), pane, epoch)
    ensures HoldsRows(Next(w, step).store.entries[pane].snapshot, if Finishes(w, step, pane) then step.rows else None,
                      epoch, w.store.entries[pane].snapshot)
  {
    if !step.Observing? { assert HeldKept(w, w.live[step.index]); }
  }

  /** Across epochs and windows, as long as an entry stays on its terminal it shows what was last recovered. */
  lemma {:induction false} RecoveredStaysShown(w: World, steps: seq<Step>, pane: string, epoch: Epoch)
    requires Kept(w) && OnTerminalThroughout(w, steps, pane, epoch)
    ensures Run(w, steps).Some? && pane in w.store.entries && pane in Run(w, steps).value.store.entries
    ensures HoldsRows(Run(w, steps).value.store.entries[pane].snapshot, LastFinished(w, steps, pane), epoch,
                      w.store.entries[pane].snapshot)
    decreases |steps|
  {
    assert steps[..0] == [] && steps[..|steps|] == steps;
    assert Run(w, steps[..0]).Some? && Run(w, steps[..|steps|]).Some?;
    if steps != [] {
      var n := |steps| - 1;
      forall k: nat | k <= n
        ensures Run(w, steps[..n][..k]).Some? && OnTerminal(Run(w, steps[..n][..k]).value, pane, epoch)
      {
        assert steps[..n][..k] == steps[..k];
      }
      RecoveredStaysShown(w, steps[..n], pane, epoch);
      RunKeeps(w, steps[..n]);
      assert Run(w, steps[..n]).Some?;
      TerminalStep(Run(w, steps[..n]).value, steps[n], pane, epoch);
    }
  }

  function Answered(w: World, step: Step): View
    requires step.Observing?
  {
    Observed(w.store, step.pane, step.victim, step.epoch, step.lines, step.eligible, step.now).1
  }

  /**
    An observation answers with its pane's entry, and with no view only if the pane got none. What it is
    granted covers the entry's window, which is at least the one asked for.
   */
  lemma AnswerShowsEntry(w: World, step: Step)
    requires Enabled(w, step) && step.Observing?
    ensures var entries := Next(w, step).store.entries;
            if step.pane in entries
            then var e := entries[step.pane]; Answered(w, step) == View(e.snapshot, e.version, e.busy)
            else Answered(w, step) == NO_VIEW && |entries| >= MAX_PANES && AllBusy(w.store)
    ensures Grants(w, step, step.pane) ==>
              && step.pane in Next(w, step).store.entries
              && var e := Next(w, step).store.entries[step.pane];
                 Next(w, step).live == w.live + [Reservation(step.pane, e.lines, e.epoch)] && e.lines >= step.lines
  {
  }

  /** So whoever observes the pane on that terminal is shown what was last recovered. */
  lemma RecoveredIsAnswered(w: World, steps: seq<Step>, step: Step, epoch: Epoch)
    requires step.Observing? && Kept(w) && OnTerminalThroughout(w, steps, step.pane, epoch)
    requires Run(w, steps).Some? && Enabled(Run(w, steps).value, step) && SameTerminal(step.epoch, epoch)
    ensures step.pane in w.store.entries
    ensures HoldsRows(Answered(Run(w, steps).value, step).snapshot, LastFinished(w, steps, step.pane), epoch,
                      w.store.entries[step.pane].snapshot)
  {
    RecoveredStaysShown(w, steps, step.pane, epoch);
    RunKeeps(w, steps);
    var after := Run(w, steps).value;
    assert OnTerminal(after, step.pane, epoch) by {
      assert steps[..|steps|] == steps && OnTerminal(Run(w, steps[..|steps|]).value, step.pane, epoch);
    }
    TerminalStep(after, step, step.pane, epoch);
    AnswerShowsEntry(after, step);
  }

  /** When an observation of a steady entry is granted a reservation. */
  lemma GrantsWhenDue(w: World, step: Step, pane: string, epoch: Epoch, lines: nat)
    requires Enabled(w, step) && Steady(w, pane, epoch, lines)
    requires step.Observing? && step.pane == pane && step.epoch == epoch && step.lines <= lines
    ensures var e := w.store.entries[pane];
            Grants(w, step, pane) <==>
              && step.eligible && !e.busy && !e.complete && e.attempts < MAX_ATTEMPTS
              && (e.attempted.None? || step.now >= e.attempted.value + RETRY_DELAY_MS)
  {
  }

  /** A new epoch, or a larger window, starts over: an eligible observation of an idle entry is granted. */
  lemma NewEpochStartsOver(w: World, step: Step, pane: string)
    requires Enabled(w, step) && step.Observing? && step.pane == pane && step.eligible
    requires pane in w.store.entries && !w.store.entries[pane].busy
    requires w.store.entries[pane].epoch != step.epoch || step.lines > w.store.entries[pane].lines
    ensures Grants(w, step, pane)
    ensures var e := Next(w, step).store.entries[pane]; e.epoch == step.epoch && e.attempts == 1 && e.busy
  {
  }

  /**
    From an entry not tried yet, while epoch and window stand, an observation is granted a reservation
    exactly when it is eligible, none is held, nothing was recovered, fewer than three were granted, and
    the last of them five seconds ago.
   */
  lemma GrantsExactly(w: World, steps: seq<Step>, pane: string, epoch: Epoch, lines: nat, step: Step)
    requires Kept(w) && SteadyThroughout(w, steps, pane, epoch, lines)
    requires pane in w.store.entries
    requires var e := w.store.entries[pane]; e.attempts == 0 && e.attempted.None? && !e.complete
    requires Run(w, steps).Some? && Enabled(Run(w, steps).value, step)
    requires step.Observing? && step.pane == pane && step.epoch == epoch && step.lines <= lines
    ensures var after, times := Run(w, steps).value, GrantTimes(w, steps, pane);
            Grants(after, step, pane) <==>
              && step.eligible && !IsBusy(after, pane) && LastFinished(w, steps, pane).None? && |times| < MAX_ATTEMPTS
              && (times == [] || step.now >= times[|times| - 1] + RETRY_DELAY_MS)
  {
    var after := Run(w, steps).value;
    assert Steady(after, pane, epoch, lines) by {
      assert steps[..|steps|] == steps;
      assert Steady(Run(w, steps[..|steps|]).value, pane, epoch, lines);
    }
    var e := after.store.entries[pane];
    assert RetriesKept(w.store.entries[pane], e, GrantTimes(w, steps, pane)) by {
      RetriesAreKept(w, steps, pane, epoch, lines);
    }
    assert e.complete == LastFinished(w, steps, pane).Some? by { FinishedIsShown(w, steps, pane, epoch, lines); }
    GrantsWhenDue(after, step, pane, epoch, lines);
  }

  // ---- the empty pane id ----

  /** Dropping the reservation of the pane with the empty id releases nothing, and no later step can. */
  lemma {:induction false} EmptyPaneStaysBusy(w: World, steps: seq<Step>)
    requires Kept(w) && Stuck(w)
    ensures Run(w, steps).Some? ==> Stuck(Run(w, steps).value)
    decreases |steps|
  {
    if steps != [] {
      var n := |steps| - 1;
      EmptyPaneStaysBusy(w, steps[..n]);
      RunKeeps(w, steps[..n]);
      if Run(w, steps).Some? { StuckStep(Run(w, steps[..n]).value, steps[n]); }
    }
  }

  lemma EmptyPaneIsStuck(epoch: Epoch)
    ensures var w := Run(EMPTY, [Observing("", None, epoch, 1, true, 0), Dropping(0)]);
            w.Some? && Stuck(w.value)
  {
    var observe, drop := Observing("", None, epoch, 1, true, 0), Dropping(0);
    assert [observe, drop][..1] == [observe] && [observe][..0] == [];
    assert Run(EMPTY, [observe]) == Some(Next(EMPTY, observe));
    assert Next(EMPTY, observe).live == [Reservation("", 1, epoch)];
    assert Without(Next(EMPTY, observe).live, 0) == [];
  }
}
