/**
  The watch task itself: the fields it updates and the loop over its events.
 */
module PaneWatcher {
  import opened Text
  import opened PaneDelta
  import opened PaneWatch

  class WatchState {
    var sentFingerprint: Fingerprint
    var sentContent: string
    var sentFrameFingerprint: FrameFingerprint
    var sentResizeSettling: bool
    var sentClassificationAgent: string
    var probeFingerprint: Fingerprint
    var ackedFingerprint: Fingerprint
    var pendingAck: bool
    var ackDeadline: Option<nat>
    var forceFull: bool
    var upstream: Output
    var gone: bool

    function Value(): State
      reads this
    {
      State(sentFingerprint, sentContent, sentFrameFingerprint, sentResizeSettling, sentClassificationAgent,
            probeFingerprint, ackedFingerprint, pendingAck, ackDeadline, forceFull, upstream, gone)
    }

    constructor ()
      ensures Value() == FRESH
    {
      sentFingerprint, sentContent, sentFrameFingerprint := Unset, "", NoFrame;
      sentResizeSettling, sentClassificationAgent := false, "";
      probeFingerprint, ackedFingerprint := Unset, Unset;
      pendingAck, ackDeadline, forceFull, upstream, gone := false, None, false, Output(-1, 0), false;
    }

    method Ungate()
      modifies this`pendingAck, this`ackDeadline
      ensures Value() == PaneWatch.Ungate(old(Value()))
    {
      pendingAck, ackDeadline := false, None;
    }

    method Sent(frame: Frame, now: nat)
      modifies this
      ensures Value() == PaneWatch.Sent(old(Value()), frame, now)
    {
      sentFingerprint, sentContent := Of(frame.content), frame.content;
      sentFrameFingerprint := FrameOf(frame.content, frame.metadata);
      sentResizeSettling := frame.metadata.resizeSettling;
      sentClassificationAgent := frame.classificationAgent;
      pendingAck, ackDeadline := true, Some(now + ACK_TIMEOUT_SECONDS);
    }

    method SendFrame(frame: Frame, accepted: bool, now: nat) returns (entries: seq<Entry>)
      modifies this
      ensures (Value(), entries) == PaneWatch.SendFrame(old(Value()), frame, accepted, now)
    {
      entries := [];
      if pendingAck { return; }
      var fingerprint := FrameOf(frame.content, frame.metadata);
      if !forceFull && sentFrameFingerprint != NoFrame && fingerprint == sentFrameFingerprint {
        sentClassificationAgent := frame.classificationAgent;
        sentResizeSettling := frame.metadata.resizeSettling;
        ackedFingerprint := Of(frame.content);
        return;
      }
      var message;
      if forceFull || sentFingerprint == Unset {
        message := FullFrame(frame);
      } else if Of(frame.content) == sentFingerprint {
        message := Delta(sentFingerprint, Of(frame.content), CopyAll(frame.content), frame.metadata);
      } else {
        var segments := ComputeBuild(sentContent, frame.content);
        message := if Efficient(segments, frame.content)
                   then Delta(sentFingerprint, Of(frame.content), segments, frame.metadata) else FullFrame(frame);
      }
      entries := [Pushed(message, accepted)];
      if !accepted { return; }
      Sent(frame, now);
      forceFull := false;
    }

    method SendGone(accepted: bool) returns (entries: seq<Entry>)
      modifies this
      ensures (Value(), entries) == PaneWatch.SendGone(old(Value()), accepted)
    {
      if gone { return []; }
      gone := true;
      Ungate();
      entries := [Pushed(PaneNotFound, accepted)];
    }

    method FoldUpstream(read: Output)
      modifies this`upstream
      ensures Value() == old(Value()).(upstream := PaneWatch.FoldUpstream(old(upstream), read))
    {
      if read.generation != upstream.generation { upstream := Output(read.generation, 0); }
      upstream := upstream.(revision := Max(upstream.revision, read.revision));
    }

    /** The bookkeeping of `read_watch_frame`. */
    method NoteRead(read: Read)
      modifies this`gone, this`upstream
      ensures Value() == AfterRead(old(Value()), read)
    {
      if read.Verified? || read.Fenced? {
        gone := false;
        if read.output.Some? { FoldUpstream(read.output.value); }
      }
    }

    method Answer(read: Read, accepted: bool, now: nat) returns (entries: seq<Entry>)
      modifies this
      ensures (Value(), entries) == PaneWatch.Answer(old(Value()), read, accepted, now)
    {
      entries := [];
      NoteRead(read);
      match read
      case Verified(frame, _) =>
        entries := SendFrame(frame, accepted, now);
      case Missing =>
        entries := SendGone(accepted);
      case _ =>
    }

    method PollStream(read: Read, accepted: bool, now: nat) returns (entries: seq<Entry>)
      modifies this
      ensures (Value(), entries) == PaneWatch.PollStream(old(Value()), read, accepted, now)
    {
      entries := [];
      if pendingAck { return; }
      NoteRead(read);
      if read.Verified? { entries := SendFrame(read.frame, accepted, now); }
    }

    method Poll(probe: Probe, read: Read, accepted: bool, now: nat) returns (entries: seq<Entry>)
      modifies this
      ensures (Value(), entries) == PollPane(old(Value()), probe, read, accepted, now)
    {
      entries := [];
      if pendingAck { return; }
      match probe
      case ProbeFailed =>
      case ProbeMissing =>
        entries := SendGone(accepted);
      case Probed(moved, fingerprint, _, output, _, _) =>
        gone := false;
        if moved { return; }
        var needsRead := NeedsRead(Value(), probe);
        FoldUpstream(output);
        if !needsRead { return; }
        if read.Verified? { probeFingerprint := fingerprint; }
        entries := Answer(read, accepted, now);
    }

    method TakeAck(fingerprint: Fingerprint, read: Read, accepted: bool, now: nat) returns (entries: seq<Entry>)
      modifies this
      ensures (Value(), entries) == PaneWatch.TakeAck(old(Value()), fingerprint, read, accepted, now)
    {
      entries := [];
      if fingerprint == Unset { return; }
      if pendingAck && fingerprint == sentFingerprint {
        ackedFingerprint := fingerprint;
        Ungate();
        var pushed := PollStream(read, accepted, now);
        entries := [Acknowledged(fingerprint)] + pushed;
      } else if ackedFingerprint != Unset && fingerprint == ackedFingerprint {
      } else {
        entries := [Pushed(PaneResync, accepted)];
      }
    }

    method Reset()
      modifies this
      ensures Value() == PaneWatch.Reset(old(Value()))
    {
      Ungate();
      ackedFingerprint, probeFingerprint, forceFull := Unset, Unset, true;
    }

    /** One turn of the select loop. */
    method Handle(event: Event) returns (entries: seq<Entry>)
      modifies this
      ensures (Value(), entries) == Step(old(Value()), event)
    {
      entries := [];
      match event
      case Ack(fingerprint, read, accepted, now) =>
        entries := TakeAck(fingerprint, read, accepted, now);
      case Resync(read, accepted, now) =>
        Reset();
        var pushed := Answer(read, accepted, now);
        entries := [ResyncAsked] + pushed;
      case AckDeadline(now) =>
        if ackDeadline.Some? && ackDeadline.value <= now {
          Reset();
          entries := [TimedOut];
        }
      case Tick(probe, read, accepted, now) =>
        entries := Poll(probe, read, accepted, now);
      case Invalidated(output, probe, read, accepted, now) =>
        if output.None? || output.value > upstream.revision {
          entries := Poll(probe, read, accepted, now);
        }
      case StreamUpdated(read, accepted, now) =>
        entries := PollStream(read, accepted, now);
      case StreamClosed(accepted) =>
        entries := SendGone(accepted);
      case StreamEnded =>
        probeFingerprint := Unset;
    }
  }

  /** The watch task from its first read on. */
  method Serve(watch: Watch, events: seq<Event>) returns (state: WatchState, log: seq<Entry>)
    ensures fresh(state) && (state.Value(), log) == Run(watch, events)
  {
    state := new WatchState();
    if watch.read.Verified? && watch.known == Some(Of(watch.read.frame.content)) {
      var frame := watch.read.frame;
      state.NoteRead(watch.read);
      var known := Of(frame.content);
      log := [Pushed(Delta(known, known, CopyAll(frame.content), frame.metadata), watch.accepted)];
      if watch.accepted { state.Sent(frame, watch.now); }
    } else {
      log := state.Answer(watch.read, watch.accepted, watch.now);
    }
    for i := 0 to |events|
      invariant fresh(state) && (state.Value(), log) == Run(watch, events[..i])
    {
      assert events[..i + 1][..i] == events[..i];
      var entries := state.Handle(events[i]);
      log := log + entries;
    }
    assert events[..|events|] == events;
  }
}
