/**
  The shared recovery store: watchers of a pane share one reserved read per
  idle epoch, a bounded cache keeps its result, a version fences other reads.
 */
module RecoveryStore {
  import opened Text

  const MAX_PANES: nat := 32
  const MAX_ATTEMPTS: nat := 3
  const RETRY_DELAY_MS: nat := 5000

  datatype Epoch = Epoch(generation: int, terminal: string, session: string, activity: nat, size: Option<(nat, nat)>)

  predicate SameTerminal(a: Epoch, b: Epoch) {
    a.generation == b.generation && a.terminal == b.terminal && a.session == b.session && a.size == b.size
  }

  /** A recovered history, with the epoch its reservation was granted under. */
  datatype History = History(rows: string, epoch: Epoch)

  datatype Entry = Entry(
    epoch: Epoch, snapshot: Option<History>, version: nat, busy: bool, complete: bool,
    lines: nat, attempts: nat, attempted: Option<nat>, touched: nat)

  datatype State = State(entries: map<string, Entry>, version: nat)

  datatype View = View(snapshot: Option<History>, version: nat, busy: bool)
  const NO_VIEW := View(None, 0, false)

  datatype Reservation = Reservation(pane: string, lines: nat, epoch: Epoch)

  function ReadVersion(s: State, pane: string): Option<nat> {
    if pane !in s.entries then Some(0)
    else if s.entries[pane].busy then None
    else Some(s.entries[pane].version)
  }

  // ---- observe ----

  /** An idle entry that was touched no later than any other idle one. */
  predicate IsOldest(s: State, victim: string) {
    && victim in s.entries && !s.entries[victim].busy
    && forall p :: p in s.entries && !s.entries[p].busy ==> s.entries[victim].touched <= s.entries[p].touched
  }

  predicate AllBusy(s: State) { forall p :: p in s.entries ==> s.entries[p].busy }

  predicate NeedsRoom(s: State, pane: string) { pane !in s.entries && |s.entries| >= MAX_PANES }

  /** The victim is free among equally old entries; there is none when every entry is busy. */
  predicate ValidVictim(s: State, pane: string, victim: Option<string>) {
    if NeedsRoom(s, pane) then (if victim.Some? then IsOldest(s, victim.value) else AllBusy(s)) else victim == None
  }

  function Inserted(s: State, pane: string, victim: Option<string>, epoch: Epoch, lines: nat, now: nat): State {
    if pane in s.entries then s else
      var entries := if victim.Some? then s.entries - {victim.value} else s.entries;
      State(entries[pane := Entry(epoch, None, s.version + 1, false, false, lines, 0, None, now)], s.version + 1)
  }

  /** A new epoch or a larger window starts over; the snapshot survives only on the same terminal. */
  function Refreshed(e: Entry, epoch: Epoch, lines: nat, now: nat): Entry {
    var e := e.(touched := now);
    if e.busy || (e.epoch == epoch && lines <= e.lines) then e
    else e.(snapshot := if SameTerminal(e.epoch, epoch) then e.snapshot else None, epoch := epoch,
            lines := if lines > e.lines then lines else e.lines, complete := false, attempts := 0, attempted := None)
  }

  function Since(now: nat, at: nat): nat { if now >= at then now - at else 0 }

  predicate Due(e: Entry, eligible: bool, now: nat) {
    && eligible && !e.busy && !e.complete && e.attempts < MAX_ATTEMPTS
    && (e.attempted.None? || Since(now, e.attempted.value) >= RETRY_DELAY_MS)
  }

  function Reserved(e: Entry, now: nat): Entry { e.(busy := true, attempts := e.attempts + 1, attempted := Some(now)) }

  /** The entry after the observation, and whether it grants. */
  function Settle(e: Entry, epoch: Epoch, lines: nat, eligible: bool, now: nat): (Entry, bool) {
    var r := Refreshed(e, epoch, lines, now);
    if Due(r, eligible, now) then (Reserved(r, now), true) else (r, false)
  }

  function Observed(s: State, pane: string, victim: Option<string>, epoch: Epoch, lines: nat, eligible: bool, now: nat)
    : (State, View, Option<Reservation>)
  {
    if NeedsRoom(s, pane) && victim.None? then (s, NO_VIEW, None) else
      var s := Inserted(s, pane, victim, epoch, lines, now);
      var (e, due) := Settle(s.entries[pane], epoch, lines, eligible, now);
      (s.(entries := s.entries[pane := e]), View(e.snapshot, e.version, e.busy),
       if due then Some(Reservation(pane, e.lines, e.epoch)) else None)
  }

  function Released(s: State, pane: string, history: Option<History>): State {
    var version := s.version + 1;
    if pane !in s.entries then s.(version := version) else
      var e := s.entries[pane].(busy := false, version := version);
      State(s.entries[pane := if history.Some? then e.(snapshot := history, complete := true) else e], version)
  }

  // ---- the store itself ----

  class Store {
    var entries: map<string, Entry>
    var version: nat

    function Value(): State
      reads this
    {
      State(entries, version)
    }

    constructor ()
      ensures Value() == State(map[], 0)
    {
      entries, version := map[], 0;
    }

    /** The idle entry touched first, if any entry is idle. */
    method FindOldest() returns (oldest: Option<string>)
      ensures if oldest.Some? then IsOldest(Value(), oldest.value) else AllBusy(Value())
    {
      oldest := None;
      var left := entries.Keys;
      while left != {}
        invariant left <= entries.Keys
        invariant oldest.Some? ==>
                    && oldest.value in entries && !entries[oldest.value].busy
                    && forall p :: p in entries.Keys - left && !entries[p].busy ==>
                         entries[oldest.value].touched <= entries[p].touched
        invariant oldest.None? ==> forall p :: p in entries.Keys - left ==> entries[p].busy
        decreases |left|
      {
        var p :| p in left;
        left := left - {p};
        if !entries[p].busy && (oldest.None? || entries[p].touched < entries[oldest.value].touched) {
          oldest := Some(p);
        }
      }
    }

    method Observe(pane: string, epoch: Epoch, lines: nat, eligible: bool, now: nat)
      returns (view: View, reservation: Option<Reservation>, victim: Option<string>)
      modifies this
      ensures ValidVictim(old(Value()), pane, victim)
      ensures (Value(), view, reservation) == Observed(old(Value()), pane, victim, epoch, lines, eligible, now)
    {
      victim := None;
      if pane !in entries {
        if |entries| >= MAX_PANES {
          victim := FindOldest();
          if victim.None? { return NO_VIEW, None, None; }
          entries := entries - {victim.value};
        }
        version := version + 1;
        entries := entries[pane := Entry(epoch, None, version, false, false, lines, 0, None, now)];
      }
      var (entry, due) := Settle(entries[pane], epoch, lines, eligible, now);
      entries := entries[pane := entry];
      view := View(entry.snapshot, entry.version, entry.busy);
      reservation := if due then Some(Reservation(pane, entry.lines, entry.epoch)) else None;
    }

    method Release(pane: string, history: Option<History>)
      modifies this
      ensures Value() == Released(old(Value()), pane, history)
    {
      version := version + 1;
      if pane in entries {
        var entry := entries[pane].(busy := false, version := version);
        if history.Some? { entry := entry.(snapshot := history, complete := true); }
        entries := entries[pane := entry];
      }
    }
  }

  // ---- runs ----

  datatype Step =
    | Observing(pane: string, victim: Option<string>, epoch: Epoch, lines: nat, eligible: bool, now: nat)
    | Finishing(index: nat, rows: Option<string>)
    | Dropping(index: nat)

  /** The store and the reservations still held. */
  datatype World = World(store: State, live: seq<Reservation>)

  const EMPTY := World(State(map[], 0), [])

  predicate Enabled(w: World, step: Step) {
    match step
    case Observing(pane, victim, _, _, _, _) => ValidVictim(w.store, pane, victim)
    case Finishing(index, _) => index < |w.live|
    case Dropping(index) => index < |w.live|
  }

  function Without(live: seq<Reservation>, i: nat): seq<Reservation>
    requires i < |live|
  {
    live[..i] + live[i + 1..]
  }

  function Next(w: World, step: Step): World
    requires Enabled(w, step)
  {
    match step
    case Observing(pane, victim, epoch, lines, eligible, now) =>
      var (store, _, granted) := Observed(w.store, pane, victim, epoch, lines, eligible, now);
      World(store, if granted.Some? then w.live + [granted.value] else w.live)
    case Finishing(index, rows) =>
      var r := w.live[index];
      var snapshot := if rows.Some? then Some(History(rows.value, r.epoch)) else None;
      World(Released(w.store, r.pane, snapshot), Without(w.live, index))
    case Dropping(index) =>
      var r := w.live[index];
      World(if r.pane == "" then w.store else Released(w.store, r.pane, None), Without(w.live, index))
  }

  function Count(live: seq<Reservation>, pane: string): nat {
    if live == [] then 0 else
      var n := |live| - 1;
      Count(live[..n], pane) + (if live[n].pane == pane then 1 else 0)
  }

  lemma {:induction false} CountAppend(xs: seq<Reservation>, ys: seq<Reservation>, pane: string)
    ensures Count(xs + ys, pane) == Count(xs, pane) + Count(ys, pane)
    decreases |ys|
  {
    if ys == [] {
      assert xs + ys == xs;
    } else {
      var n := |ys| - 1;
      assert (xs + ys)[..|xs| + n] == xs + ys[..n];
      CountAppend(xs, ys[..n], pane);
    }
  }

  lemma CountOne(r: Reservation, pane: string)
    ensures Count([r], pane) == if r.pane == pane then 1 else 0
  {
    assert [r][..0] == [];
  }

  lemma CountWithout(live: seq<Reservation>, i: nat, pane: string)
    requires i < |live|
    ensures Count(live, pane) == Count(Without(live, i), pane) + if live[i].pane == pane then 1 else 0
  {
    assert live == live[..i] + [live[i]] + live[i + 1..];
    CountAppend(live[..i] + [live[i]], live[i + 1..], pane);
    CountAppend(live[..i], [live[i]], pane);
    CountAppend(live[..i], live[i + 1..], pane);
    CountOne(live[i], pane);
  }

  // ---- what every step keeps ----

  /** At most one reservation on a pane, it makes the entry busy, and nothing else does. */
  predicate PaneKept(w: World, pane: string) {
    && Count(w.live, pane) <= 1
    && (Count(w.live, pane) == 1 ==> pane in w.store.entries && w.store.entries[pane].busy)
    && (pane != "" && pane in w.store.entries && w.store.entries[pane].busy ==> Count(w.live, pane) == 1)
  }

  predicate EntryKept(s: State, e: Entry) {
    && 1 <= e.version <= s.version && e.attempts <= MAX_ATTEMPTS
    && (e.snapshot.Some? ==> SameTerminal(e.snapshot.value.epoch, e.epoch))
  }

  /** A held reservation was granted under the entry's present epoch. */
  predicate HeldKept(w: World, r: Reservation) {
    r.pane in w.store.entries && w.store.entries[r.pane].epoch == r.epoch
  }

  ghost predicate Kept(w: World) {
    && |w.store.entries| <= MAX_PANES
    && (forall pane :: PaneKept(w, pane))
    && (forall pane :: pane in w.store.entries ==> EntryKept(w.store, w.store.entries[pane]))
    && (forall i :: 0 <= i < |w.live| ==> HeldKept(w, w.live[i]))
  }

  lemma {:induction false} CountAt(live: seq<Reservation>, i: nat)
    requires i < |live|
    ensures Count(live, live[i].pane) >= 1
    decreases |live|
  {
    CountWithout(live, i, live[i].pane);
  }

  /** Any other reservation is on another pane. */
  lemma OthersElsewhere(w: World, i: nat, j: nat)
    requires i < |w.live| && j < |Without(w.live, i)| && PaneKept(w, w.live[i].pane)
    ensures Without(w.live, i)[j].pane != w.live[i].pane
  {
    CountWithout(w.live, i, w.live[i].pane);
    if Without(w.live, i)[j].pane == w.live[i].pane { CountAt(Without(w.live, i), j); }
  }

  lemma ReleaseKeeps(w: World, i: nat, rows: Option<string>)
    requires Kept(w) && i < |w.live|
    ensures Kept(Next(w, Finishing(i, rows)))
  {
    var r := w.live[i];
    var next := Next(w, Finishing(i, rows));
    CountAt(w.live, i);
    assert PaneKept(w, r.pane) && HeldKept(w, r) && EntryKept(w.store, w.store.entries[r.pane]);
    assert next.store.entries.Keys == w.store.entries.Keys;
    forall pane ensures PaneKept(next, pane) {
      assert PaneKept(w, pane);
      CountWithout(w.live, i, pane);
    }
    forall j | 0 <= j < |next.live| ensures HeldKept(next, next.live[j]) {
      OthersElsewhere(w, i, j);
      assert HeldKept(w, next.live[j]);
    }
  }

  lemma DropKeeps(w: World, i: nat)
    requires Kept(w) && i < |w.live|
    ensures Kept(Next(w, Dropping(i)))
  {
    if w.live[i].pane != "" {
      ReleaseKeeps(w, i, None);
    } else {
      var next := Next(w, Dropping(i));
      forall pane ensures PaneKept(next, pane) {
        assert PaneKept(w, pane);
        CountWithout(w.live, i, pane);
      }
      forall j | 0 <= j < |next.live| ensures HeldKept(next, next.live[j]) {
        assert next.live[j] == w.live[if j < i then j else j + 1];
      }
    }
  }

  /** Making room never takes a busy entry, so every held reservation keeps its own. */
  lemma InsertKeeps(w: World, pane: string, victim: Option<string>, epoch: Epoch, lines: nat, now: nat)
    requires Kept(w) && ValidVictim(w.store, pane, victim) && !(NeedsRoom(w.store, pane) && victim.None?)
    ensures var s := Inserted(w.store, pane, victim, epoch, lines, now);
            Kept(w.(store := s)) && pane in s.entries
  {
    var s := Inserted(w.store, pane, victim, epoch, lines, now);
    var next := w.(store := s);
    if pane !in w.store.entries {
      assert PaneKept(w, pane);
      if victim.Some? {
        assert |w.store.entries - {victim.value}| == |w.store.entries| - 1 by {
          RemoveKey(w.store.entries, victim.value);
        }
      }
      forall p ensures PaneKept(next, p) { assert PaneKept(w, p); }
      forall p | p in s.entries ensures EntryKept(s, s.entries[p]) {
        if p != pane { assert EntryKept(w.store, w.store.entries[p]); }
      }
      forall j | 0 <= j < |next.live| ensures HeldKept(next, next.live[j]) {
        CountAt(w.live, j);
        assert HeldKept(w, w.live[j]) && PaneKept(w, w.live[j].pane);
      }
    }
  }

  lemma RemoveKey(m: map<string, Entry>, k: string)
    requires k in m
    ensures |m - {k}| == |m| - 1
  {
    assert (m - {k}).Keys == m.Keys - {k};
    assert |(m - {k}).Keys| == |m - {k}| && |m.Keys| == |m|;
  }

  lemma SettleKeeps(w: World, pane: string, epoch: Epoch, lines: nat, eligible: bool, now: nat)
    requires Kept(w) && pane in w.store.entries
    ensures var (e, due) := Settle(w.store.entries[pane], epoch, lines, eligible, now);
            Kept(World(w.store.(entries := w.store.entries[pane := e]),
                       if due then w.live + [Reservation(pane, e.lines, e.epoch)] else w.live))
  {
    var was := w.store.entries[pane];
    var (e, due) := Settle(was, epoch, lines, eligible, now);
    var live := if due then w.live + [Reservation(pane, e.lines, e.epoch)] else w.live;
    var next := World(w.store.(entries := w.store.entries[pane := e]), live);
    assert next.store.entries.Keys == w.store.entries.Keys;
    assert EntryKept(w.store, was);
    forall p ensures PaneKept(next, p) {
      assert PaneKept(w, p);
      if due {
        CountAppend(w.live, [Reservation(pane, e.lines, e.epoch)], p);
        CountOne(Reservation(pane, e.lines, e.epoch), p);
      }
    }
    forall j | 0 <= j < |live| ensures HeldKept(next, live[j]) {
      if j < |w.live| {
        CountAt(w.live, j);
        assert HeldKept(w, w.live[j]) && PaneKept(w, w.live[j].pane);
      }
    }
  }

  lemma NextKeeps(w: World, step: Step)
    requires Kept(w) && Enabled(w, step)
    ensures Kept(Next(w, step))
  {
    match step
    case Finishing(i, rows) => ReleaseKeeps(w, i, rows);
    case Dropping(i) => DropKeeps(w, i);
    case Observing(pane, victim, epoch, lines, eligible, now) =>
      if !(NeedsRoom(w.store, pane) && victim.None?) {
        InsertKeeps(w, pane, victim, epoch, lines, now);
        var inserted := w.(store := Inserted(w.store, pane, victim, epoch, lines, now));
        SettleKeeps(inserted, pane, epoch, lines, eligible, now);
      }
  }
}
