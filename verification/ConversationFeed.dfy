/**
  The conversation feed: a poll probes the source by its stat stamp, reads a
  page when the stamp moved, and pushes a reset or an appended tail.
 */
module ConversationFeed {
  import opened Text

  datatype Entry = Entry(id: string, body: string, hasTools: bool)

  /** An entry digest is modelled by the entry it identifies; flat text is not hashed. */
  datatype Digest = Zero | DigestOf(entry: Entry)

  datatype Page = Page(
    failed: bool, native: bool, available: bool, reasonCode: string, sourceRevision: string,
    entries: seq<Entry>, total: Option<int>, probePath: string)

  datatype Sig = Sig(
    resolved: bool, available: bool, reasonCode: string, sourceRevision: string,
    ids: seq<string>, digests: seq<Digest>, total: Option<int>)

  const TOMBSTONE := Sig(false, false, "", "", [], [], None)

  function Ids(entries: seq<Entry>): (ids: seq<string>)
    ensures |ids| == |entries| && forall i :: 0 <= i < |ids| ==> ids[i] == entries[i].id
  {
    if entries == [] then [] else
      var n := |entries| - 1;
      Ids(entries[..n]) + [entries[n].id]
  }

  function EntryDigest(native: bool, entry: Entry): Digest {
    if native || entry.hasTools then DigestOf(entry) else Zero
  }

  function Digests(native: bool, entries: seq<Entry>): (digests: seq<Digest>)
    ensures |digests| == |entries| && forall i :: 0 <= i < |digests| ==> digests[i] == EntryDigest(native, entries[i])
  {
    if entries == [] then [] else
      var n := |entries| - 1;
      Digests(native, entries[..n]) + [EntryDigest(native, entries[n])]
  }

  function SigOf(page: Page): Sig {
    Sig(true, page.available, page.reasonCode, page.sourceRevision,
        Ids(page.entries), Digests(page.native, page.entries), page.total)
  }

  // ---- stat stamps ----

  /** What `stat` tells about a path: absent, or a version of the file. */
  type Disk = string -> Option<nat>

  datatype Stamp = Stamp(source: Option<nat>, wal: Option<nat>)

  const MISSING := Stamp(None, None)

  function StampOf(disk: Disk, path: string, wal: string): Stamp {
    Stamp(disk(path), if wal == "" then None else disk(wal))
  }

  // ---- deciding a frame ----

  datatype LastRead = LastRead(
    generation: int, tuple: Option<string>, stamp: Stamp, probePath: string, walPath: string, sig: Sig)

  function Position(ids: seq<string>, id: string): (i: nat)
    ensures i <= |ids| && (i < |ids| ==> ids[i] == id)
  {
    if ids == [] || ids[0] == id then 0 else 1 + Position(ids[1..], id)
  }

  /** `append_delta`: the entries past the previous tail, when everything up to it is unchanged. */
  function AppendDelta(prev: Sig, sig: Sig, entries: seq<Entry>): Option<seq<Entry>>
    requires |sig.ids| == |sig.digests| == |entries|
  {
    if prev.ids == [] then None else
      var pos := Position(sig.ids, prev.ids[|prev.ids| - 1]);
      if pos == |sig.ids| || pos + 1 > |prev.ids| then None else
        var from_ := |prev.ids| - (pos + 1);
        if sig.ids[..pos + 1] != prev.ids[from_..] then None
        else if from_ > |prev.digests| || prev.digests[from_..] != sig.digests[..pos + 1] then None
        else if entries[pos + 1..] == [] then None
        else Some(entries[pos + 1..])
  }

  /** `decide`: the entries to ship and whether they reset the client, or nothing. */
  function Decide(last: Option<LastRead>, generation: int, sig: Sig, entries: seq<Entry>): Option<(seq<Entry>, bool)>
    requires |sig.ids| == |sig.digests| == |entries|
  {
    if last.None? || last.value.generation != generation || !last.value.sig.resolved then Some((entries, true))
    else
      var prev := last.value.sig;
      if sig == prev then None
      else if sig.sourceRevision != prev.sourceRevision || sig.available != prev.available
              || sig.reasonCode != prev.reasonCode
      then Some((entries, true))
      else
        match AppendDelta(prev, sig, entries)
        case Some(appended) => Some((appended, false))
        case None => Some((entries, true))
  }

  datatype Push = Push(generation: int, entries: seq<Entry>, reset: bool, tombstone: bool, accepted: bool)

  /** The page matches the probe the last read left. */
  predicate SameProbe(last: Option<LastRead>, page: Page) {
    last.Some? && last.value.probePath == page.probePath && (last.value.walPath != "" <==> IsSqlite(page))
  }

  predicate IsSqlite(page: Page) { page.native && page.probePath != "" }

  function WalOf(page: Page): string { if IsSqlite(page) then page.probePath + "-wal" else "" }

  function Probe(last: Option<LastRead>, disk: Disk): Option<Stamp> {
    if last.Some? && last.value.probePath != ""
    then Some(StampOf(disk, last.value.probePath, last.value.walPath))
    else None
  }

  predicate Settled(last: Option<LastRead>, generation: int, tuple: string, probe: Option<Stamp>) {
    && last.Some? && last.value.sig.resolved && last.value.generation == generation
    && last.value.tuple == Some(tuple) && last.value.probePath != "" && probe == Some(last.value.stamp)
  }

  /** The stamp kept with a page: from before the read, or none for a new source. */
  function StampFor(last: Option<LastRead>, page: Page, probe: Option<Stamp>): Stamp {
    if SameProbe(last, page) && probe.Some? then probe.value else MISSING
  }

  function WalFor(last: Option<LastRead>, page: Page): string {
    if SameProbe(last, page) then last.value.walPath else WalOf(page)
  }

  /**
    A poll of a live pane: the stamp at the probe, the page if the read answered, whether the
    fence held, the sink's answer.
   */
  function PollLive(last: Option<LastRead>, generation: int, tuple: string, probe: Option<Stamp>,
                    page: Option<Page>, fenceHolds: bool, accepted: bool): (Option<LastRead>, seq<Push>)
  {
    if Settled(last, generation, tuple, probe) || page.None? || !fenceHolds || page.value.failed then (last, [])
    else
      var read := page.value;
      var stamp := StampFor(last, read, probe);
      match Decide(last, generation, SigOf(read), read.entries)
      case None =>
        (Some(last.value.(stamp := stamp, probePath := read.probePath, walPath := WalFor(last, read))), [])
      case Some((entries, reset)) =>
        (if accepted
         then Some(LastRead(generation, Some(tuple), stamp, read.probePath, WalFor(last, read), SigOf(read)))
         else last,
         [Push(generation, entries, reset, false, accepted)])
  }

  /** A poll of a pane that left the snapshot. */
  function PollGone(last: Option<LastRead>, generation: int, accepted: bool): (Option<LastRead>, seq<Push>) {
    if last.Some? && last.value.sig == TOMBSTONE then (last, [])
    else (if accepted then Some(LastRead(generation, None, MISSING, "", "", TOMBSTONE)) else last,
          [Push(generation, [], true, true, accepted)])
  }

  /** The feed task: one field, updated by each poll. */
  class Feed {
    var last: Option<LastRead>

    constructor ()
      ensures last == None
    {
      last := None;
    }

    method Poll(generation: int, tuple: string, disk: Disk, page: Option<Page>, fenceHolds: bool, accepted: bool)
      returns (pushes: seq<Push>)
      modifies this
      ensures (last, pushes)
           == PollLive(old(last), generation, tuple, Probe(old(last), disk), page, fenceHolds, accepted)
    {
      var probe := Probe(last, disk);
      if Settled(last, generation, tuple, probe) { return []; }
      if page.None? || !fenceHolds || page.value.failed { return []; }
      var read := page.value;
      var sqlite := read.native && read.probePath != "";
      var sameProbe := last.Some? && last.value.probePath == read.probePath && (last.value.walPath != "" <==> sqlite);
      var stamp := if sameProbe && probe.Some? then probe.value else MISSING;
      var sig := SigOf(read);
      var decision := Decide(last, generation, sig, read.entries);
      if decision.None? {
        var wal := if sameProbe then last.value.walPath else if sqlite then read.probePath + "-wal" else "";
        last := Some(last.value.(stamp := stamp, probePath := read.probePath, walPath := wal));
        return [];
      }
      var (entries, reset) := decision.value;
      pushes := [Push(generation, entries, reset, false, accepted)];
      if !accepted { return; }
      var walPath := if !sqlite then "" else if sameProbe then last.value.walPath else read.probePath + "-wal";
      last := Some(LastRead(generation, Some(tuple), stamp, read.probePath, walPath, sig));
    }

    method EmitTombstone(generation: int, accepted: bool) returns (pushes: seq<Push>)
      modifies this
      ensures (last, pushes) == PollGone(old(last), generation, accepted)
    {
      if last.Some? && last.value.sig == TOMBSTONE { return []; }
      pushes := [Push(generation, [], true, true, accepted)];
      if accepted { last := Some(LastRead(generation, None, MISSING, "", "", TOMBSTONE)); }
    }
  }

  // ---- the settled skip ----

  /** The disk at every moment. */
  type Timeline = nat -> Disk

  /** The page a read gives for a generation, a conversation tuple and a disk. */
  type Browser = (int, string, Disk) -> Page

  /** Whenever the file a page names exists and its stamp is the same at two moments, so is the page. */
  ghost predicate ReadsItsProbe(disks: Timeline, browse: Browser) {
    forall g: int, t: string, i: nat, j: nat ::
      var page := browse(g, t, disks(i));
      page.probePath != "" && disks(i)(page.probePath).Some?
      && StampOf(disks(i), page.probePath, WalOf(page)) == StampOf(disks(j), page.probePath, WalOf(page)) ==>
        browse(g, t, disks(j)) == page
  }

  /** The stamp of an existing source never comes back once it moved. */
  ghost predicate NeverReturns(disks: Timeline, path: string, wal: string) {
    forall i: nat, j: nat, k: nat ::
      i <= j <= k && disks(i)(path).Some? && StampOf(disks(i), path, wal) == StampOf(disks(k), path, wal) ==>
        StampOf(disks(j), path, wal) == StampOf(disks(i), path, wal)
  }

  datatype Turn =
    | LiveTurn(
        generation: int, tuple: string, statAt: nat, readAt: nat, answered: bool, fenceHolds: bool, accepted: bool)
    | GoneTurn(generation: int, at: nat, accepted: bool)

  function StartOf(turn: Turn): nat { if turn.LiveTurn? then turn.statAt else turn.at }
  function EndOf(turn: Turn): nat { if turn.LiveTurn? then turn.readAt else turn.at }

  function Take(disks: Timeline, browse: Browser, last: Option<LastRead>, turn: Turn): (Option<LastRead>, seq<Push>) {
    match turn
    case GoneTurn(generation, _, accepted) => PollGone(last, generation, accepted)
    case LiveTurn(generation, tuple, statAt, readAt, answered, fenceHolds, accepted) =>
      PollLive(last, generation, tuple, Probe(last, disks(statAt)),
               if answered then Some(browse(generation, tuple, disks(readAt))) else None, fenceHolds, accepted)
  }

  function Run(disks: Timeline, browse: Browser, turns: seq<Turn>): (Option<LastRead>, seq<Push>) {
    if turns == [] then (None, []) else
      var n := |turns| - 1;
      var (last, log) := Run(disks, browse, turns[..n]);
      var (next, pushes) := Take(disks, browse, last, turns[n]);
      (next, log + pushes)
  }

  /** Turns follow each other in time; a read comes after its probe, with any writes in between. */
  predicate InOrder(turns: seq<Turn>) {
    && (forall i :: 0 <= i < |turns| ==> StartOf(turns[i]) <= EndOf(turns[i]))
    && (forall i, j :: 0 <= i < j < |turns| ==> EndOf(turns[i]) <= StartOf(turns[j]))
  }

  function PageAt(disks: Timeline, browse: Browser, turn: Turn): Page
    requires turn.LiveTurn?
  {
    browse(turn.generation, turn.tuple, disks(turn.readAt))
  }

  /** The turn reads a page and stores its stamp: after an accepted push, or because the page has not changed. */
  predicate Stores(disks: Timeline, browse: Browser, last: Option<LastRead>, turn: Turn) {
    && turn.LiveTurn? && turn.answered && turn.fenceHolds
    && !Settled(last, turn.generation, turn.tuple, Probe(last, disks(turn.statAt)))
    && var page := PageAt(disks, browse, turn);
       !page.failed && (turn.accepted || Decide(last, turn.generation, SigOf(page), page.entries).None?)
  }

  /** The last turn of a run that stored a stamp. */
  function StoredBy(disks: Timeline, browse: Browser, turns: seq<Turn>): (k: Option<nat>)
    ensures k.Some? ==> k.value < |turns| && turns[k.value].LiveTurn?
  {
    if turns == [] then None else
      var n := |turns| - 1;
      if Stores(disks, browse, Run(disks, browse, turns[..n]).0, turns[n]) then Some(n)
      else StoredBy(disks, browse, turns[..n])
  }

  /** What a turn that found `before` stored. */
  predicate Stored(disks: Timeline, browse: Browser, before: Option<LastRead>, turn: Turn, last: LastRead)
    requires turn.LiveTurn?
  {
    var page := PageAt(disks, browse, turn);
    && last.generation == turn.generation && last.sig == SigOf(page) && last.probePath == page.probePath
    && last.stamp == StampFor(before, page, Probe(before, disks(turn.statAt)))
    && last.walPath == WalFor(before, page)
  }

  /** A kept WAL path is the one its page would name. */
  predicate WalFits(last: Option<LastRead>) {
    last.Some? ==> last.value.walPath == "" || last.value.walPath == last.value.probePath + "-wal"
  }

  lemma TakeStores(disks: Timeline, browse: Browser, last: Option<LastRead>, turn: Turn)
    ensures var next := Take(disks, browse, last, turn).0;
            && (Stores(disks, browse, last, turn) ==> next.Some? && Stored(disks, browse, last, turn, next.value))
            && (!Stores(disks, browse, last, turn) ==> next == last || next.value.tuple.None?)
            && (WalFits(last) ==> WalFits(next))
  {
  }

  lemma {:induction false} RunWalFits(disks: Timeline, browse: Browser, turns: seq<Turn>)
    ensures WalFits(Run(disks, browse, turns).0)
    decreases |turns|
  {
    if turns != [] {
      var n := |turns| - 1;
      RunWalFits(disks, browse, turns[..n]);
      TakeStores(disks, browse, Run(disks, browse, turns[..n]).0, turns[n]);
    }
  }

  /** Until a tombstone, a run remembers exactly what its last storing turn stored. */
  lemma {:induction false} RunStored(disks: Timeline, browse: Browser, turns: seq<Turn>)
    requires var last := Run(disks, browse, turns).0; last.Some? && last.value.tuple.Some?
    ensures var k := StoredBy(disks, browse, turns);
            && k.Some?
            && Stored(disks, browse, Run(disks, browse, turns[..k.value]).0, turns[k.value],
                      Run(disks, browse, turns).0.value)
    decreases |turns|
  {
    var n := |turns| - 1;
    TakeStores(disks, browse, Run(disks, browse, turns[..n]).0, turns[n]);
    if !Stores(disks, browse, Run(disks, browse, turns[..n]).0, turns[n]) {
      RunStored(disks, browse, turns[..n]);
      var k := StoredBy(disks, browse, turns[..n]).value;
      assert turns[..n][..k] == turns[..k];
    }
  }

  /**
    Exactly when a poll under the last generation and tuple skips: the source stands as the storing
    turn probed it, or that turn met the source for the first time and it is absent now.
   */
  lemma SkipsExactly(disks: Timeline, browse: Browser, turns: seq<Turn>, now: nat) returns (k: nat)
    requires var last := Run(disks, browse, turns).0;
             last.Some? && last.value.sig.resolved && last.value.tuple.Some? && last.value.probePath != ""
    ensures StoredBy(disks, browse, turns) == Some(k)
    ensures var last := Run(disks, browse, turns).0.value;
            var stamp := StampOf(disks(now), last.probePath, last.walPath);
            Settled(Some(last), last.generation, last.tuple.value, Probe(Some(last), disks(now))) <==>
              if SameProbe(Run(disks, browse, turns[..k]).0, PageAt(disks, browse, turns[k]))
              then stamp == StampOf(disks(turns[k].statAt), last.probePath, last.walPath)
              else stamp == MISSING
  {
    RunStored(disks, browse, turns);
    k := StoredBy(disks, browse, turns).value;
  }

  lemma StampFromProbe(last: Option<LastRead>, page: Page, disk: Disk)
    requires WalFits(last)
    ensures StampFor(last, page, Probe(last, disk)).source.Some? ==>
              && StampFor(last, page, Probe(last, disk)) == StampOf(disk, page.probePath, WalFor(last, page))
              && WalOf(page) == WalFor(last, page)
  {
  }

  /**
    On a settled skip at an existing source, a read now under the tuple of the turn that stored the
    stamp returns a page with the signature last sent, whatever was written between probes, reads and
    emissions. So the skip is sound exactly when the tuple asked for reads like that one: always, if
    they are the same.
   */
  lemma SettledSkipIsSound(
    disks: Timeline, browse: Browser, turns: seq<Turn>, generation: int, tuple: string, now: nat)
    returns (k: nat)
    requires ReadsItsProbe(disks, browse) && InOrder(turns)
    requires forall i :: 0 <= i < |turns| ==> EndOf(turns[i]) <= now
    requires var last := Run(disks, browse, turns).0;
             && Settled(last, generation, tuple, Probe(last, disks(now))) && disks(now)(last.value.probePath).Some?
             && NeverReturns(disks, last.value.probePath, last.value.walPath)
    ensures StoredBy(disks, browse, turns) == Some(k)
    ensures var sig := Run(disks, browse, turns).0.value.sig;
            && sig == SigOf(browse(generation, turns[k].tuple, disks(now)))
            && (sig == SigOf(browse(generation, tuple, disks(now))) <==>
                  SigOf(browse(generation, tuple, disks(now))) == SigOf(browse(generation, turns[k].tuple, disks(now))))
  {
    RunStored(disks, browse, turns);
    k := StoredBy(disks, browse, turns).value;
    var before, turn := Run(disks, browse, turns[..k]).0, turns[k];
    var page := PageAt(disks, browse, turn);
    RunWalFits(disks, browse, turns[..k]);
    StampFromProbe(before, page, disks(turn.statAt));
    StampStood(disks, page.probePath, WalOf(page), turn.statAt, turn.readAt, now);
    assert browse(generation, turn.tuple, disks(now)) == page;
  }

  lemma StampStood(disks: Timeline, path: string, wal: string, s: nat, r: nat, now: nat)
    requires NeverReturns(disks, path, wal) && s <= r <= now
    requires StampOf(disks(s), path, wal) == StampOf(disks(now), path, wal) && disks(s)(path).Some?
    ensures disks(r)(path).Some? && StampOf(disks(r), path, wal) == StampOf(disks(now), path, wal)
  {
    assert StampOf(disks(r), path, wal) == StampOf(disks(s), path, wal);
  }

  // ---- a source that vanishes ----

  /** A first read is skipped once its source is absent, whatever a read would return then. */
  lemma VanishedSourceIsSkipped(
    disks: Timeline, browse: Browser, generation: int, tuple: string, gone: nat)
    requires var page := browse(generation, tuple, disks(0));
             && !page.failed && page.probePath != ""
             && disks(gone)(page.probePath).None? && disks(gone)(WalOf(page)).None?
    ensures var last := Run(disks, browse, [LiveTurn(generation, tuple, 0, 0, true, true, true)]).0;
            && Settled(last, generation, tuple, Probe(last, disks(gone)))
            && last.value.sig == SigOf(browse(generation, tuple, disks(0)))
  {
    var turn := LiveTurn(generation, tuple, 0, 0, true, true, true);
    assert [turn][..0] == [];
    assert Run(disks, browse, [turn]).0 == Take(disks, browse, None, turn).0;
  }

  /** One file, removed at time 1. */
  function OneRemoval(): Timeline { (t: nat) => (path: string) => if path == "p" && t == 0 then Some(0) else None }

  /** One message while the file exists, unavailable after. */
  function OneSource(): Browser {
    (g: int, t: string, d: Disk) =>
      if d("p").Some? then Page(false, false, true, "", "", [Entry("message", "", false)], None, "p")
      else Page(false, false, false, "unavailable", "", [], None, "p")
  }

  lemma RemovalIsPlain()
    ensures ReadsItsProbe(OneRemoval(), OneSource()) && NeverReturns(OneRemoval(), "p", "")
  {
  }

  /** The poll after a removal skips, and the client keeps a page a read would no longer return. */
  lemma VanishedSourceIsStale(generation: int, tuple: string)
    ensures ReadsItsProbe(OneRemoval(), OneSource()) && NeverReturns(OneRemoval(), "p", "")
    ensures var last := Run(OneRemoval(), OneSource(), [LiveTurn(generation, tuple, 0, 0, true, true, true)]).0;
            && Settled(last, generation, tuple, Probe(last, OneRemoval()(1)))
            && SigOf(OneSource()(generation, tuple, OneRemoval()(1))) != last.value.sig
  {
    RemovalIsPlain();
    VanishedSourceIsSkipped(OneRemoval(), OneSource(), generation, tuple, 1);
  }

  // ---- a stamp refreshed under another tuple ----

  function VersionAt(t: nat): nat { if t < 2 then 0 else 1 }

  /** One file, rewritten once at time 2. */
  function OneRewrite(): Timeline { (t: nat) => (path: string) => if path == "p" then Some(VersionAt(t)) else None }

  /** Under one tuple the page shows the rewrite, under any other it does not. */
  function TwoViews(seeing: string): Browser {
    (g: int, t: string, d: Disk) =>
      var id := if t == seeing && d("p") == Some(1) then "new" else "old";
      Page(false, false, true, "", "", [Entry(id, "", false)], None, "p")
  }

  lemma ViewsReadTheirProbe(seeing: string)
    ensures ReadsItsProbe(OneRewrite(), TwoViews(seeing))
  {
    var disks, browse := OneRewrite(), TwoViews(seeing);
    forall g: int, t: string, i: nat, j: nat | StampOf(disks(i), "p", "") == StampOf(disks(j), "p", "")
      ensures browse(g, t, disks(i)) == browse(g, t, disks(j))
    {
      assert disks(i)("p") == disks(j)("p");
    }
  }

  lemma RewriteIsPlain(seeing: string)
    ensures ReadsItsProbe(OneRewrite(), TwoViews(seeing)) && NeverReturns(OneRewrite(), "p", "")
  {
    ViewsReadTheirProbe(seeing);
    var disks := OneRewrite();
    forall i: nat, j: nat, k: nat | i <= j <= k && StampOf(disks(i), "p", "") == StampOf(disks(k), "p", "")
      ensures StampOf(disks(j), "p", "") == StampOf(disks(i), "p", "")
    {
      assert VersionAt(i) == VersionAt(j);
    }
  }

  function ReadTurn(tuple: string, at: nat): Turn { LiveTurn(0, tuple, at, at, true, true, true) }

  /** A read of an equal page under any tuple leaves the tuple and takes the stamp. */
  lemma RefreshTakesStamp(disks: Timeline, browse: Browser, last: LastRead, tuple: string, at: nat)
    requires var page := browse(0, tuple, disks(at));
             && !page.failed && !page.native && page.probePath == last.probePath && SigOf(page) == last.sig
    requires last.generation == 0 && last.sig.resolved && last.probePath != "" && last.walPath == ""
    ensures Take(disks, browse, Some(last), ReadTurn(tuple, at)).0
         == Some(last.(stamp := StampOf(disks(at), last.probePath, "")))
  {
  }

  lemma RunThree(disks: Timeline, browse: Browser, a: Turn, b: Turn, c: Turn)
    ensures Run(disks, browse, [a, b, c]).0
         == Take(disks, browse, Take(disks, browse, Take(disks, browse, None, a).0, b).0, c).0
  {
    assert [a][..0] == [] && Run(disks, browse, [a]).0 == Take(disks, browse, None, a).0;
    assert [a, b][..1] == [a] && [a, b, c][..2] == [a, b];
    assert Run(disks, browse, [a, b]).0 == Take(disks, browse, Run(disks, browse, [a]).0, b).0;
  }

  /** Reads under a, a, b and back to a: the skip leaves the client with a page a read would no longer return. */
  lemma ReturnedTupleIsSkipped(a: string, b: string)
    requires a != b
    ensures ReadsItsProbe(OneRewrite(), TwoViews(a)) && NeverReturns(OneRewrite(), "p", "")
    ensures var last := Run(OneRewrite(), TwoViews(a), [ReadTurn(a, 0), ReadTurn(a, 1), ReadTurn(b, 2)]).0;
            && Settled(last, 0, a, Probe(last, OneRewrite()(3)))
            && SigOf(TwoViews(a)(0, a, OneRewrite()(3))) != last.value.sig
  {
    RewriteIsPlain(a);
    var disks, browse := OneRewrite(), TwoViews(a);
    RunThree(disks, browse, ReadTurn(a, 0), ReadTurn(a, 1), ReadTurn(b, 2));
    var shown := browse(0, a, disks(0));
    var first := LastRead(0, Some(a), MISSING, "p", "", SigOf(shown));
    assert Take(disks, browse, None, ReadTurn(a, 0)).0 == Some(first);
    RefreshTakesStamp(disks, browse, first, a, 1);
    RefreshTakesStamp(disks, browse, first.(stamp := StampOf(disks(1), "p", "")), b, 2);
    assert Ids(shown.entries)[0] == "old" && Ids(browse(0, a, disks(3)).entries)[0] == "new";
  }
}
