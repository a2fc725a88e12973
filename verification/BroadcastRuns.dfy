/**
  The broadcast as a machine: commits of the one writer, a client that joins,
  and its forwarder, in any order.
 */
module BroadcastRuns {
  import opened Text
  import opened Broadcast

  /** How the client's sink answers one forward: absent, or taking this many frames before it fails. */
  datatype Sink = Missing | Takes(frames: nat)

  /** A publish carries the next revision (`Topology.StepRevision`). */
  datatype Step = Publish(inventory: Inventory) | Join | Forward(sink: Sink)

  /**
    `history[r]` is what revision r projects; the channel holds the latest and its frames, the
    difference to `base`.
   */
  datatype World = World(
    history: seq<Inventory>, view: View, base: View, client: View, joined: nat, sent: Option<nat>, forwarding: bool)

  function Latest(w: World): Inventory
    requires w.history != []
  {
    w.history[|w.history| - 1]
  }

  /** The actor publishes once before anything else. */
  function Start(before: Inventory, first: Inventory): World {
    World([before, first], ViewAfter(first, NOTHING), NOTHING, NOTHING, 0, None, false)
  }

  /** The frames a forwarder sends: the difference, after the full rows if it skipped a revision. */
  function FramesOf(sent: Option<nat>, latest: Inventory, frames: seq<Frame>): seq<Frame> {
    if sent.Some? && latest.revision > sent.value + 1 then FullInventory(latest) + frames else frames
  }

  function FramesFor(w: World): seq<Frame>
    requires w.history != []
  {
    FramesOf(w.sent, Latest(w), Diff(Latest(w), w.base))
  }

  predicate Completes(w: World, step: Step)
    requires w.history != []
  {
    w.forwarding && step.Forward? && step.sink.Takes? && step.sink.frames >= |FramesFor(w)|
  }

  function Next(w: World, step: Step): World
    requires w.history != []
  {
    match step
    case Publish(i) =>
      if i.revision != Latest(w).revision + 1 then w
      else w.(history := w.history + [i], view := ViewAfter(i, w.view), base := w.view)
    case Join =>
      w.(client := Projection(Latest(w)), joined := Latest(w).revision, sent := None, forwarding := true)
    case Forward(sink) =>
      if !w.forwarding || sink == Missing then w
      else if sink.frames >= |FramesFor(w)| then
        w.(client := ReceiveAll(w.client, FramesFor(w)), sent := Some(Latest(w).revision))
      else w.(client := ReceiveAll(w.client, FramesFor(w)[..sink.frames]), forwarding := false)
  }

  function Run(w: World, steps: seq<Step>): (after: World)
    requires w.history != []
    ensures after.history != []
  {
    if steps == [] then w else Next(Run(w, steps[..|steps| - 1]), steps[|steps| - 1])
  }

  // ---- what every step keeps ----

  /**
    Revisions are consecutive, the view is the last projection, and the frames are the difference
    to the projection before it, or to nothing at the first publish.
   */
  ghost predicate Consistent(w: World) {
    && |w.history| >= 2
    && (forall r :: 0 <= r < |w.history| ==> w.history[r].revision == r)
    && w.view == Projection(Latest(w))
    && w.base == if |w.history| == 2 then NOTHING else Projection(w.history[|w.history| - 2])
  }

  /** A live forwarder's client holds the revision it joined at or was last sent. */
  ghost predicate Synced(w: World)
    requires w.history != []
  {
    w.forwarding ==>
      && 1 <= w.joined < |w.history|
      && (w.sent.None? ==> w.client == Projection(w.history[w.joined]))
      && (w.sent.Some? ==> 1 <= w.sent.value < |w.history| && w.client == Projection(w.history[w.sent.value]))
  }

  lemma StartIsConsistent(before: Inventory, first: Inventory)
    requires before.revision == 0 && first.revision == 1
    ensures Consistent(Start(before, first)) && Synced(Start(before, first))
  {
    ViewTracksProjection(first, NOTHING);
  }

  lemma NextIsConsistent(w: World, step: Step)
    requires Consistent(w)
    ensures Consistent(Next(w, step))
  {
    if step.Publish? {
      if step.inventory.revision == |w.history| { PublishIsConsistent(w, step.inventory); }
    } else {
      ClientsLeaveChannel(w, step);
    }
  }

  lemma ClientsLeaveChannel(w: World, step: Step)
    requires w.history != [] && !step.Publish?
    ensures var next := Next(w, step); next.history == w.history && next.view == w.view && next.base == w.base
  {
  }

  lemma PublishIsConsistent(w: World, i: Inventory)
    requires Consistent(w) && i.revision == |w.history|
    ensures Consistent(Next(w, Publish(i)))
  {
    var history := w.history + [i];
    assert history[|history| - 1] == i && history[|history| - 2] == Latest(w);
    assert forall r :: 0 <= r < |history| ==> history[r].revision == r;
    ViewTracksProjection(i, w.view);
  }

  // ---- when a forward converges ----

  /** Only a forwarder that has completed a send notices that it skipped a revision. */
  predicate SeesGap(w: World)
    requires w.history != []
  {
    w.sent.Some? && Latest(w).revision > w.sent.value + 1
  }

  /**
    A completed forward leaves its client with the projection of the revision it forwarded exactly
    when it saw a gap, or every leg that differs at the client is in the last difference.
   */
  lemma ForwardConvergesExactly(w: World, step: Step)
    requires Consistent(w) && Completes(w, step)
    ensures Next(w, step).client == Projection(Latest(w)) <==> SeesGap(w) || Served(w.client, Latest(w), w.base)
  {
    ForwardDelivers(w, step);
    FramesConverge(w.client, w.sent, Latest(w), w.base);
  }

  lemma ForwardDelivers(w: World, step: Step)
    requires w.history != [] && Completes(w, step)
    ensures Next(w, step).client == ReceiveAll(w.client, FramesOf(w.sent, Latest(w), Diff(Latest(w), w.base)))
  {
  }

  lemma FramesConverge(client: View, sent: Option<nat>, latest: Inventory, base: View)
    ensures ReceiveAll(client, FramesOf(sent, latest, Diff(latest, base))) == Projection(latest) <==>
              (sent.Some? && latest.revision > sent.value + 1) || Served(client, latest, base)
  {
    if sent.Some? && latest.revision > sent.value + 1 {
      FullRowsConverge(client, latest, base, FullInventory(latest), Diff(latest, base));
    } else {
      DiffServes(client, latest, base);
    }
  }

  lemma FullRowsConverge(client: View, latest: Inventory, base: View, full: seq<Frame>, diff: seq<Frame>)
    requires full == FullInventory(latest) && diff == Diff(latest, base)
    ensures ReceiveAll(client, full + diff) == Projection(latest)
  {
    ReceiveAppend(client, full, diff);
    assert ReceiveAll(client, full) == Projection(latest) by { ReceiveFull(client, latest); }
    assert ReceiveAll(Projection(latest), diff) == Projection(latest) by {
      DiffServes(Projection(latest), latest, base);
    }
  }

  /** A client one revision behind, or not behind, is served. */
  lemma RecentIsServed(w: World, held: nat)
    requires Consistent(w) && 1 <= held && |w.history| - 2 <= held < |w.history|
    requires w.client == Projection(w.history[held])
    ensures Served(w.client, Latest(w), w.base)
  {
  }

  /** The first completed forward after a join reaches a client that its frames serve. */
  predicate ServedFirst(w: World, step: Step)
    requires w.history != []
  {
    Completes(w, step) && w.sent.None? ==> Served(w.client, Latest(w), w.base)
  }

  lemma ForwardConverges(w: World, step: Step)
    requires Consistent(w) && Synced(w) && Completes(w, step) && ServedFirst(w, step)
    ensures Next(w, step).client == Projection(Latest(w)) && Next(w, step).sent == Some(Latest(w).revision)
  {
    ForwardConvergesExactly(w, step);
    if w.sent.Some? && !SeesGap(w) { RecentIsServed(w, w.sent.value); }
  }

  lemma NextKeeps(w: World, step: Step)
    requires Consistent(w) && Synced(w) && ServedFirst(w, step)
    ensures Synced(Next(w, step))
  {
    match step
    case Publish(i) => PublishKeepsSynced(w, i);
    case Join =>
    case Forward(sink) => ForwardKeepsSynced(w, sink);
  }

  lemma ForwardKeepsSynced(w: World, sink: Sink)
    requires Consistent(w) && Synced(w) && ServedFirst(w, Forward(sink))
    ensures Synced(Next(w, Forward(sink)))
  {
    if Completes(w, Forward(sink)) { ForwardConverges(w, Forward(sink)); }
  }

  lemma PublishKeepsSynced(w: World, i: Inventory)
    requires Consistent(w) && Synced(w)
    ensures Synced(Next(w, Publish(i)))
  {
    assert forall r :: 0 <= r < |w.history| ==> (w.history + [i])[r] == w.history[r];
  }

  // ---- over whole runs ----

  lemma {:induction false} RunIsConsistent(w: World, steps: seq<Step>)
    requires Consistent(w)
    ensures Consistent(Run(w, steps))
    decreases |steps|
  {
    if steps != [] {
      RunIsConsistent(w, steps[..|steps| - 1]);
      NextIsConsistent(Run(w, steps[..|steps| - 1]), steps[|steps| - 1]);
    }
  }

  predicate ServedAt(w: World, steps: seq<Step>, k: nat)
    requires w.history != [] && k < |steps|
  {
    ServedFirst(Run(w, steps[..k]), steps[k])
  }

  /** If step k is a completed forward, the client then holds the revision forwarded. */
  predicate ConvergesAt(w: World, steps: seq<Step>, k: nat)
    requires w.history != [] && k < |steps|
  {
    var at := Run(w, steps[..k]);
    Completes(at, steps[k]) ==>
      var after := Run(w, steps[..k + 1]);
      after.client == Projection(Latest(at)) && after.sent == Some(Latest(at).revision)
  }

  lemma RunSnoc(w: World, steps: seq<Step>, k: nat)
    requires w.history != [] && k < |steps|
    ensures Run(w, steps[..k + 1]) == Next(Run(w, steps[..k]), steps[k])
  {
    assert steps[..k + 1][..k] == steps[..k];
  }

  lemma {:induction false} RunKeeps(w: World, steps: seq<Step>, k: nat)
    requires Consistent(w) && Synced(w) && k <= |steps|
    requires forall j: nat | j < k :: ServedAt(w, steps, j)
    ensures Consistent(Run(w, steps[..k])) && Synced(Run(w, steps[..k]))
  {
    RunIsConsistent(w, steps[..k]);
    if k > 0 {
      RunKeeps(w, steps, k - 1);
      RunSnoc(w, steps, k - 1);
      assert ServedAt(w, steps, k - 1);
      NextKeeps(Run(w, steps[..k - 1]), steps[k - 1]);
    }
  }

  /**
    In every run of publishes, joins and forwards, every completed forward leaves the client with
    exactly the projection of the revision forwarded, be it a duplicate, the next one or one past a
    gap, if and only if every first forward after a join serves its client.
   */
  lemma EveryForwardConverges(before: Inventory, first: Inventory, w: World, steps: seq<Step>)
    requires before.revision == 0 && first.revision == 1 && w == Start(before, first)
    ensures (forall k: nat | k < |steps| :: ConvergesAt(w, steps, k)) <==>
            (forall k: nat | k < |steps| :: ServedAt(w, steps, k))
  {
    StartIsConsistent(before, first);
    RunConvergesExactly(w, steps);
  }

  lemma RunConvergesExactly(w: World, steps: seq<Step>)
    requires Consistent(w) && Synced(w)
    ensures (forall k: nat | k < |steps| :: ConvergesAt(w, steps, k)) <==>
            (forall k: nat | k < |steps| :: ServedAt(w, steps, k))
  {
    forall k: nat | k < |steps| && ConvergesAt(w, steps, k) ensures ServedAt(w, steps, k) {
      ConvergedWasServed(w, steps, k);
    }
    if forall k: nat | k < |steps| :: ServedAt(w, steps, k) {
      forall k: nat | k < |steps| ensures ConvergesAt(w, steps, k) { ServedConverges(w, steps, k); }
    }
  }

  lemma ConvergedWasServed(w: World, steps: seq<Step>, k: nat)
    requires Consistent(w) && k < |steps| && ConvergesAt(w, steps, k)
    ensures ServedAt(w, steps, k)
  {
    var at := Run(w, steps[..k]);
    RunIsConsistent(w, steps[..k]);
    RunSnoc(w, steps, k);
    if Completes(at, steps[k]) { ForwardConvergesExactly(at, steps[k]); }
  }

  lemma ServedConverges(w: World, steps: seq<Step>, k: nat)
    requires Consistent(w) && Synced(w) && k < |steps|
    requires forall j: nat | j <= k :: ServedAt(w, steps, j)
    ensures ConvergesAt(w, steps, k)
  {
    RunKeeps(w, steps, k);
    RunSnoc(w, steps, k);
    assert ServedAt(w, steps, k);
    if Completes(Run(w, steps[..k]), steps[k]) { ForwardConverges(Run(w, steps[..k]), steps[k]); }
  }

  // ---- a sufficient condition: the first forward comes in time ----

  /** The first forward after a join comes before a second publish. */
  predicate Timely(w: World, step: Step)
    requires w.history != []
  {
    Completes(w, step) && w.sent.None? ==> Latest(w).revision <= w.joined + 1
  }

  predicate TimelyAt(w: World, steps: seq<Step>, k: nat)
    requires w.history != [] && k < |steps|
  {
    Timely(Run(w, steps[..k]), steps[k])
  }

  lemma {:induction false} TimelyIsServed(w: World, steps: seq<Step>, k: nat)
    requires Consistent(w) && Synced(w) && k < |steps|
    requires forall j: nat | j <= k :: TimelyAt(w, steps, j)
    ensures forall j: nat | j <= k :: ServedAt(w, steps, j)
  {
    if k > 0 { TimelyIsServed(w, steps, k - 1); }
    var at := Run(w, steps[..k]);
    RunKeeps(w, steps, k);
    assert TimelyAt(w, steps, k);
    if Completes(at, steps[k]) && at.sent.None? { RecentIsServed(at, at.joined); }
  }

  /** A run whose first forwards are timely converges at every completed forward. */
  lemma TimelyForwardConverges(before: Inventory, first: Inventory, w: World, steps: seq<Step>, k: nat)
    requires before.revision == 0 && first.revision == 1 && w == Start(before, first) && k < |steps|
    requires forall j: nat | j <= k :: TimelyAt(w, steps, j)
    ensures ConvergesAt(w, steps, k)
  {
    StartIsConsistent(before, first);
    TimelyIsServed(w, steps, k);
    ServedConverges(w, steps, k);
  }

  // ---- a first forward that comes too late ----

  /** The next revision with nothing else changed. */
  function Republished(i: Inventory): Inventory { i.(revision := i.revision + 1) }

  function Repeat(w: World, n: nat): (after: World)
    requires w.history != []
    ensures after.history != []
  {
    if n == 0 then w else
      var before := Repeat(w, n - 1);
      Next(before, Publish(Republished(Latest(before))))
  }

  lemma RepublishHolds(w: World)
    requires Consistent(w)
    ensures var after := Next(w, Publish(Republished(Latest(w))));
            && Consistent(after) && after.history == w.history + [Republished(Latest(w))]
            && after == w.(history := after.history, base := w.view)
  {
    var i := Republished(Latest(w));
    NextIsConsistent(w, Publish(i));
    ViewTracksProjection(i, w.view);
  }

  lemma {:induction false} RepeatHolds(w: World, n: nat)
    requires Consistent(w)
    ensures var after := Repeat(w, n);
            && Consistent(after) && |after.history| == |w.history| + n && after.view == w.view
            && after.client == w.client && after.joined == w.joined && after.sent == w.sent
            && after.forwarding == w.forwarding
            && (n > 0 ==> after.base == after.view)
  {
    if n > 0 {
      RepeatHolds(w, n - 1);
      RepublishHolds(Repeat(w, n - 1));
    }
  }

  lemma ForwardsNothing(w: World, taken: nat)
    requires Consistent(w) && w.base == w.view && w.sent == None
    ensures FramesFor(w) == [] && Next(w, Forward(Takes(taken))).client == w.client
  {
    QuietPublish(Latest(w), w.base);
  }

  /**
    The first forward does no gap check. A client that joined at revision r and
    is first served at r + 2 or any later revision misses what r + 1 changed and
    later revisions did not.
   */
  lemma LateFirstForwardDiverges(w: World, joined: World, changed: World, i: Inventory, late: nat, taken: nat)
    requires Consistent(w) && late >= 1 && joined == Next(w, Join) && changed == Next(joined, Publish(i))
    requires i.revision == Latest(w).revision + 1 && Projection(i) != Projection(Latest(w))
    ensures var before := Repeat(changed, late);
            && Latest(before).revision == before.joined + 1 + late && Completes(before, Forward(Takes(taken)))
            && Next(before, Forward(Takes(taken))).client != Projection(Latest(before))
  {
    NextIsConsistent(joined, Publish(i));
    RepeatHolds(changed, late);
    ForwardsNothing(Repeat(changed, late), taken);
  }
}
