/**
  Which of the relay's streams may be coalesced in the send buffer.
 */
module Coalescing {
  import opened SendBuffer
  import B = Broadcast
  import C = ConversationFeed
  import R = ConversationRuns
  import W = PaneWatch

  // ---- topology frames ----

  function KindOf(frame: B.Frame): string {
    match frame
    case InventoryStatus(_, _, _) => "inventory_status"
    case Agents(_) => "agents"
    case Workspaces(_) => "workspaces"
    case HerdrStatusFrame(_) => "herdr_status"
    case CapsUpdate(_) => "caps_update"
  }

  /** `workspaces` is not in the list of types a newer message replaces. */
  predicate IsTopologyMessage(m: Message<B.Frame>) {
    m.kind == KindOf(m.body) && m.isReplaceable == !m.body.Workspaces?
  }

  function ReceiveTopology(): (B.View, Message<B.Frame>) -> B.View {
    (view: B.View, m: Message<B.Frame>) => B.Receive(view, m.body)
  }

  /** A topology frame supersedes every earlier one of its kind, so a run of the buffer loses nothing. */
  lemma TopologyCoalesces(w: World<B.Frame, B.View>, steps: seq<Step<B.Frame>>)
    requires Owes(ReceiveTopology(), IsTopologyMessage, w)
    requires forall i :: 0 <= i < |steps| && steps[i].Pushing? ==> IsTopologyMessage(steps[i].message)
    ensures var after := Run(ReceiveTopology(), w, steps);
            after.buffer.items == [] ==> after.client == after.meant
  {
    TopologySupersedes();
    CoalescingKeepsMeaning(ReceiveTopology(), IsTopologyMessage, w, steps);
  }

  lemma TopologySupersedes()
    ensures Supersedes(ReceiveTopology(), IsTopologyMessage)
  {
    forall view: B.View, a: Message<B.Frame>, b: Message<B.Frame>
      | IsTopologyMessage(a) && IsTopologyMessage(b) && a.isReplaceable && b.isReplaceable && a.kind == b.kind
      ensures ReceiveTopology()(ReceiveTopology()(view, a), b) == ReceiveTopology()(view, b)
    {
      SameKind(a.body, b.body);
    }
  }

  lemma SameKind(f: B.Frame, g: B.Frame)
    requires KindOf(f) == KindOf(g)
    ensures forall view: B.View :: B.Receive(B.Receive(view, f), g) == B.Receive(view, g)
  {
    var kinds := ["inventory_status", "agents", "workspaces", "herdr_status", "caps_update"];
    assert |kinds[0]| == 16 && |kinds[1]| == 6 && |kinds[2]| == 10 && |kinds[3]| == 12 && |kinds[4]| == 11;
  }

  // ---- conversation updates ----

  /** A conversation update supersedes whatever came before exactly when it is a reset. */
  lemma OnlyResetsSupersede(b: C.Push)
    requires b.accepted
    ensures (forall list: seq<C.Entry>, a: C.Push :: R.Fold(R.Fold(list, a), b) == R.Fold(list, b)) <==> b.reset
  {
    if !b.reset {
      var a := C.Push(b.generation, [C.Entry("", "", false)], true, false, true);
      assert |R.Fold(R.Fold([], a), b)| == 1 + |b.entries|;
      assert |R.Fold([], b)| == |b.entries|;
    }
  }

  function ReceiveUpdate(): (seq<C.Entry>, Message<C.Push>) -> seq<C.Entry> {
    (list: seq<C.Entry>, m: Message<C.Push>) => R.Fold(list, m.body)
  }

  /** An update that takes a queued one's place is harmless exactly when it resets, or the other changed nothing. */
  lemma UpdateIsHarmlessExactly(w: World<C.Push, seq<C.Entry>>, update: Message<C.Push>)
    requires Whole(ReceiveUpdate(), w) && Push(w.buffer, update).1.Coalesced? && update.body.accepted
    ensures var n := |w.buffer.items| - 1;
            var before := Fold(ReceiveUpdate(), w.client, w.buffer.items[..n]);
            Harmless(ReceiveUpdate(), w, Pushing(update)) <==>
              update.body.reset || R.Fold(before, w.buffer.items[n].body) == before
  {
    var n := |w.buffer.items| - 1;
    var before := Fold(ReceiveUpdate(), w.client, w.buffer.items[..n]);
    var with := R.Fold(before, w.buffer.items[n].body);
    if !update.body.reset && with + update.body.entries == before + update.body.entries {
      assert |with| == |before|;
      assert with == (with + update.body.entries)[..|with|] == (before + update.body.entries)[..|before|] == before;
    }
  }

  /** An append queued behind a reset takes its place: the client never gets the page. */
  lemma AppendReplacesReset(page: seq<C.Entry>, tail: seq<C.Entry>, generation: int, size: nat)
    requires page != [] && size <= DEFAULT_MAX_BYTES
    ensures var reset := Message("conversation_update", true, size, C.Push(generation, page, true, false, true));
            var append := Message("conversation_update", true, size, C.Push(generation, tail, false, false, true));
            var w := World(State([], 0, DEFAULT_MAX_ITEMS, DEFAULT_MAX_BYTES, false), [], []);
            var after := Run(ReceiveUpdate(), w, [Pushing(reset), Pushing(append), Popping]);
            after.buffer.items == [] && after.client != after.meant
  {
    var reset := Message("conversation_update", true, size, C.Push(generation, page, true, false, true));
    var append := Message("conversation_update", true, size, C.Push(generation, tail, false, false, true));
    assert |ReceiveUpdate()(ReceiveUpdate()([], reset), append)| == |page| + |tail|;
    assert |ReceiveUpdate()([], append)| == |tail|;
    CoalescingNeedsSuperseding(ReceiveUpdate(), [], reset, append, DEFAULT_MAX_ITEMS, DEFAULT_MAX_BYTES);
  }

  // ---- pane frames ----

  /** A frame of one of the panes a client watches. */
  datatype PaneFrame = PaneFrame(paneId: string, message: W.Message)

  /** Full frames and death notices share a type, whatever their pane; deltas are never replaced. */
  predicate IsPaneContent(frame: PaneFrame) { frame.message.Full? || frame.message.PaneNotFound? }

  function ShowPane(phones: map<string, W.Phone>, frame: PaneFrame): map<string, W.Phone> {
    if frame.paneId in phones then phones[frame.paneId := W.Receive(phones[frame.paneId], frame.message)] else phones
  }

  /**
    One `pane_content` may replace another exactly when the other was of the same pane and not a full
    frame under a notice, which only leaves its fingerprint, or would have shown nothing new.
   */
  lemma PaneContentSupersedes(phones: map<string, W.Phone>, a: PaneFrame, b: PaneFrame)
    requires IsPaneContent(a) && IsPaneContent(b) && a.paneId in phones && b.paneId in phones
    ensures ShowPane(ShowPane(phones, a), b) == ShowPane(phones, b) <==>
              var phone := phones[a.paneId];
              if a.paneId != b.paneId then W.Receive(phone, a.message) == phone
              else
                || a.message.PaneNotFound? || b.message.Full?
                || a.message.fingerprint == phone.fingerprint
  {
    var both, one := ShowPane(ShowPane(phones, a), b), ShowPane(phones, b);
    assert both[a.paneId] == one[a.paneId] ==> both == one;
  }

  function ReceivePane(): (map<string, W.Phone>, Message<PaneFrame>) -> map<string, W.Phone> {
    (phones: map<string, W.Phone>, m: Message<PaneFrame>) => ShowPane(phones, m.body)
  }

  /** A frame of one pane takes the place of another pane's queued frame: the client never gets it. */
  lemma OtherPaneReplacesFrame(phones: map<string, W.Phone>, a: PaneFrame, b: PaneFrame, size: nat)
    requires IsPaneContent(a) && IsPaneContent(b) && a.paneId in phones && b.paneId in phones
    requires a.paneId != b.paneId && W.Receive(phones[a.paneId], a.message) != phones[a.paneId]
    requires size <= DEFAULT_MAX_BYTES
    ensures var w := World(State([], 0, DEFAULT_MAX_ITEMS, DEFAULT_MAX_BYTES, false), phones, phones);
            var first, second := Message("pane_content", true, size, a), Message("pane_content", true, size, b);
            var after := Run(ReceivePane(), w, [Pushing(first), Pushing(second), Popping]);
            after.buffer.items == [] && after.client != after.meant
  {
    PaneContentSupersedes(phones, a, b);
    var first, second := Message("pane_content", true, size, a), Message("pane_content", true, size, b);
    CoalescingNeedsSuperseding(ReceivePane(), phones, first, second, DEFAULT_MAX_ITEMS, DEFAULT_MAX_BYTES);
  }
}
