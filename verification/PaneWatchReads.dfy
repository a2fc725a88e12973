/**
  What a watch must send: which reads owe the phone a frame, and what else an
  event leaves in the log.
 */
module PaneWatchReads {
  import opened Text
  import opened PaneWatch
  import opened PaneWatchRuns

  // ---- the fingerprint a probe is compared with ----

  /** The event polls the pane: the gate is open and no served output covers it. */
  predicate Polls(s: State, event: Event) {
    && !s.pendingAck
    && (event.Tick? || (event.Invalidated? && (event.output.None? || event.output.value > s.upstream.revision)))
  }

  predicate Expires(s: State, event: Event) {
    event.AckDeadline? && s.ackDeadline.Some? && s.ackDeadline.value <= event.now
  }

  function VouchedAfter(before: Fingerprint, s: State, event: Event): Fingerprint {
    if Polls(s, event) && event.probe.Probed? && !event.probe.moved && event.read.Verified? then event.probe.fingerprint
    else if event.Resync? || event.StreamEnded? || Expires(s, event) then Unset
    else before
  }

  /** The fingerprint of the last probe with a verified read, since the chain was last reset or the stream ended. */
  function Vouched(watch: Watch, events: seq<Event>): Fingerprint {
    if events == [] then Unset else
      var n := |events| - 1;
      VouchedAfter(Vouched(watch, events[..n]), Run(watch, events[..n]).0, events[n])
  }

  // ---- the frame an event owes ----

  /** A probe that saw the pane unmoved calls for a read: it cannot vouch, or the last frame asked for another. */
  predicate Due(vouched: Fingerprint, s: State, probe: Probe) {
    && probe.Probed? && !probe.moved
    && (|| vouched == Unset || probe.fingerprint != vouched
        || s.sentResizeSettling || (s.sentFrameFingerprint != NoFrame && probe.agent != s.sentClassificationAgent)
        || probe.output.revision > s.upstream.revision
        || (probe.observedNow > probe.observedBefore && probe.observedNow > probe.output.revision))
  }

  /** The read the event makes, if any. */
  function ReadMade(s: State, vouched: Fingerprint, event: Event): Read {
    match event
    case Ack(fingerprint, read, _, _) =>
      if fingerprint != Unset && s.pendingAck && fingerprint == s.sentFingerprint then read else NotDue
    case Resync(read, _, _) => read
    case StreamUpdated(read, _, _) => if s.pendingAck then NotDue else read
    case Tick(probe, read, _, _) => if Polls(s, event) && Due(vouched, s, probe) then read else NotDue
    case Invalidated(_, probe, read, _, _) => if Polls(s, event) && Due(vouched, s, probe) then read else NotDue
    case _ => NotDue
  }

  /** The phone was not sent this very frame, or is owed a full one. */
  predicate IsNew(s: State, event: Event, frame: Frame) {
    event.Resync? || s.forceFull || s.sentFrameFingerprint != FrameOf(frame.content, frame.metadata)
  }

  predicate PushesContent(entries: seq<Entry>) {
    exists e <- entries :: e.Pushed? && (e.message.Full? || e.message.Delta?)
  }

  /** The last frame sent is this one. */
  predicate HasSent(s: State, frame: Frame) {
    && s.sentContent == frame.content && s.sentFingerprint == Of(frame.content)
    && s.sentFrameFingerprint == FrameOf(frame.content, frame.metadata)
    && s.sentResizeSettling == frame.metadata.resizeSettling && s.sentClassificationAgent == frame.classificationAgent
  }

  predicate SameSent(s: State, next: State) {
    && next.sentContent == s.sentContent && next.sentFingerprint == s.sentFingerprint
    && next.sentFrameFingerprint == s.sentFrameFingerprint
    && next.sentResizeSettling == s.sentResizeSettling && next.sentClassificationAgent == s.sentClassificationAgent
  }

  predicate IsAccepted(event: Event) { !event.AckDeadline? && !event.StreamEnded? && event.accepted }

  lemma SendsExactly(s: State, frame: Frame, accepted: bool, now: nat)
    requires Valid(s) && !s.pendingAck
    ensures var (next, entries) := SendFrame(s, frame, accepted, now);
            var fresh' := s.forceFull || s.sentFrameFingerprint != FrameOf(frame.content, frame.metadata);
            && (PushesContent(entries) <==> fresh')
            && (accepted || !fresh' ==> HasSent(next, frame)) && (!accepted && fresh' ==> SameSent(s, next))
  {
    var entries := SendFrame(s, frame, accepted, now).1;
    assert entries != [] ==> entries[0] in entries;
  }

  lemma AnswersExactly(s: State, read: Read, accepted: bool, now: nat)
    requires Valid(s) && !s.pendingAck
    ensures var (next, entries) := Answer(s, read, accepted, now);
            if read.Verified? then
              var fresh' := s.forceFull || s.sentFrameFingerprint != FrameOf(read.frame.content, read.frame.metadata);
              && (PushesContent(entries) <==> fresh')
              && (accepted || !fresh' ==> HasSent(next, read.frame)) && (!accepted && fresh' ==> SameSent(s, next))
            else !PushesContent(entries) && SameSent(s, next)
  {
    if read.Verified? { SendsExactly(AfterRead(s, read), read.frame, accepted, now); }
  }

  lemma StreamsExactly(s: State, read: Read, accepted: bool, now: nat)
    requires Valid(s) && !s.pendingAck
    ensures var (next, entries) := PollStream(s, read, accepted, now);
            if read.Verified? then
              var fresh' := s.forceFull || s.sentFrameFingerprint != FrameOf(read.frame.content, read.frame.metadata);
              && (PushesContent(entries) <==> fresh')
              && (accepted || !fresh' ==> HasSent(next, read.frame)) && (!accepted && fresh' ==> SameSent(s, next))
            else !PushesContent(entries) && SameSent(s, next)
  {
    if read.Verified? { SendsExactly(AfterRead(s, read), read.frame, accepted, now); }
  }

  /** What an event does with the read it makes, stated from the outside. */
  predicate Delivers(s: State, event: Event, read: Read, next: State, entries: seq<Entry>) {
    if read.Verified? then
      && (PushesContent(entries) <==> IsNew(s, event, read.frame))
      && (IsAccepted(event) || !IsNew(s, event, read.frame) ==> HasSent(next, read.frame))
      && (!IsAccepted(event) && IsNew(s, event, read.frame) ==> SameSent(s, next))
    else !PushesContent(entries) && SameSent(s, next)
  }

  /** The state a due read starts from. */
  function Served(s: State, probe: Probe, read: Read): State
    requires probe.Probed?
  {
    var served := s.(gone := false, upstream := FoldUpstream(s.upstream, probe.output));
    if read.Verified? then served.(probeFingerprint := probe.fingerprint) else served
  }

  lemma DueNeedsRead(s: State, probe: Probe)
    requires probe.Probed? && !probe.moved
    ensures Due(s.probeFingerprint, s, probe) <==> NeedsRead(s.(gone := false), probe)
  {
  }

  /** A poll that is not due leaves the log alone, and of the state changes only `gone` and the watermark. */
  lemma QuietPoll(s: State, event: Event)
    requires (event.Tick? || event.Invalidated?) && !(Polls(s, event) && event.probe.ProbeMissing?)
    requires !(Polls(s, event) && Due(s.probeFingerprint, s, event.probe))
    ensures var (next, entries) := Step(s, event);
            && entries == [] && next == s.(gone := next.gone, upstream := next.upstream)
            && next.gone == (s.gone && !(Polls(s, event) && event.probe.Probed?))
    ensures Polls(s, event) && event.probe.Probed? && !event.probe.moved ==>
              event.probe.fingerprint == s.probeFingerprint
  {
    if Polls(s, event) && event.probe.Probed? && !event.probe.moved { DueNeedsRead(s, event.probe); }
  }

  lemma DuePoll(s: State, event: Event)
    requires (event.Tick? || event.Invalidated?) && Polls(s, event) && Due(s.probeFingerprint, s, event.probe)
    ensures Step(s, event) == Answer(Served(s, event.probe, event.read), event.read, event.accepted, event.now)
  {
    DueNeedsRead(s, event.probe);
  }

  lemma GonePoll(s: State, event: Event)
    requires (event.Tick? || event.Invalidated?) && Polls(s, event) && event.probe.ProbeMissing?
    ensures Step(s, event) == SendGone(s, event.accepted)
  {
  }

  lemma DueDelivers(s: State, event: Event, next: State, entries: seq<Entry>)
    requires Valid(s) && (event.Tick? || event.Invalidated?)
    requires Polls(s, event) && Due(s.probeFingerprint, s, event.probe)
    requires (next, entries) == Answer(Served(s, event.probe, event.read), event.read, event.accepted, event.now)
    ensures Delivers(s, event, event.read, next, entries)
  {
    AnswersExactly(Served(s, event.probe, event.read), event.read, event.accepted, event.now);
  }

  lemma PollDelivers(s: State, event: Event)
    requires Valid(s) && (event.Tick? || event.Invalidated?)
    ensures var (next, entries) := Step(s, event);
            Delivers(s, event, ReadMade(s, s.probeFingerprint, event), next, entries)
  {
    if Polls(s, event) && event.probe.ProbeMissing? {
      GonePoll(s, event);
    } else if Polls(s, event) && Due(s.probeFingerprint, s, event.probe) {
      DuePoll(s, event);
      DueDelivers(s, event, Step(s, event).0, Step(s, event).1);
    } else {
      QuietPoll(s, event);
    }
  }

  lemma MarkPushesNothing(mark: Entry, entries: seq<Entry>)
    requires !mark.Pushed?
    ensures PushesContent([mark] + entries) <==> PushesContent(entries)
  {
    if PushesContent(entries) {
      var e :| e in entries && e.Pushed? && (e.message.Full? || e.message.Delta?);
      assert e in [mark] + entries;
    }
  }

  lemma StepDelivers(s: State, event: Event)
    requires Valid(s)
    ensures var (next, entries) := Step(s, event);
            Delivers(s, event, ReadMade(s, s.probeFingerprint, event), next, entries)
  {
    match event
    case Ack(fingerprint, read, accepted, now) =>
      if fingerprint != Unset && s.pendingAck && fingerprint == s.sentFingerprint {
        var open := Ungate(s.(ackedFingerprint := fingerprint));
        StreamsExactly(open, read, accepted, now);
        MarkPushesNothing(Acknowledged(fingerprint), PollStream(open, read, accepted, now).1);
      }
    case Resync(read, accepted, now) =>
      AnswersExactly(Reset(s), read, accepted, now);
      MarkPushesNothing(ResyncAsked, Answer(Reset(s), read, accepted, now).1);
    case StreamUpdated(read, accepted, now) => if !s.pendingAck { StreamsExactly(s, read, accepted, now); }
    case Tick(_, _, _, _) => PollDelivers(s, event);
    case Invalidated(_, _, _, _, _) => PollDelivers(s, event);
    case _ =>
  }

  /** A phone that fits the watch, to read the run by. */
  function SomePhone(watch: Watch): Phone {
    if watch.known.Some? && watch.known.value.Of? then Showing(Some(watch.known.value.content), watch.known.value)
    else Showing(None, Unset)
  }

  /**
    In every run an event pushes a content frame if and only if it makes a verified read of a frame the
    phone was not sent; once accepted, or if it was sent before, that frame is the one last sent. No
    other event touches what was sent.
   */
  lemma FrameIsSentExactly(watch: Watch, events: seq<Event>, event: Event)
    ensures var s := Run(watch, events).0;
            var (next, entries) := Step(s, event);
            Delivers(s, event, ReadMade(s, Vouched(watch, events), event), next, entries)
  {
    RunKeeps(SomePhone(watch), watch, events);
    VouchedIsRemembered(watch, events);
    StepDelivers(Run(watch, events).0, event);
  }

  /**
    And the phone shows it: a verified read, accepted or sent before, leaves the phone with its content,
    unless a refused delta or a death notice stands.
   */
  lemma ReadFrameIsShown(phone: Phone, watch: Watch, events: seq<Event>, event: Event)
    requires Truthful(watch, phone)
    requires var s := Run(watch, events).0;
             var read := ReadMade(s, Vouched(watch, events), event);
             read.Verified? && (IsAccepted(event) || !IsNew(s, event, read.frame))
    ensures var frame := ReadMade(Run(watch, events).0, Vouched(watch, events), event).frame;
            var log := Run(watch, events + [event]).1;
            !RefusalStands(log) && !Blank(log) ==>
              PhoneAfter(phone, log) == Showing(Some(frame.content), Of(frame.content))
  {
    FrameIsSentExactly(watch, events, event);
    assert (events + [event])[..|events|] == events;
    PhoneShowsSentContent(phone, watch, events + [event]);
  }

  /** The probe is remembered before the push: a refused frame is not tried again while the pane stands still. */
  lemma RefusedFrameIsNotRetried(s: State, probe: Probe, frame: Frame, now: nat, read: Read, accepted: bool, later: nat)
    requires Valid(s) && !s.pendingAck && Due(s.probeFingerprint, s, probe) && probe.fingerprint != Unset
    requires s.forceFull || s.sentFrameFingerprint != FrameOf(frame.content, frame.metadata)
    requires !s.sentResizeSettling && (s.sentFrameFingerprint == NoFrame || probe.agent == s.sentClassificationAgent)
    requires probe.observedNow <= probe.observedBefore
    ensures var (refused, entries) := Step(s, Tick(probe, Verified(frame, None), false, now));
            && PushesContent(entries) && Step(refused, Tick(probe, read, accepted, later)).1 == []
  {
    StepDelivers(s, Tick(probe, Verified(frame, None), false, now));
  }

  /**
    A watch opens with a frame exactly when its first read is verified: a copy of everything if the
    client said it holds that content, a full frame otherwise.
   */
  lemma OpensExactly(watch: Watch)
    ensures var (s, log) := Run(watch, []);
            if watch.read.Verified? then
              var frame := watch.read.frame;
              && log == [Pushed(if watch.known == Some(Of(frame.content))
                                then Delta(Of(frame.content), Of(frame.content), CopyAll(frame.content), frame.metadata)
                                else FullFrame(frame), watch.accepted)]
              && (watch.accepted ==> HasSent(s, frame) && s.ackDeadline == Some(watch.now + ACK_TIMEOUT_SECONDS))
              && (!watch.accepted ==> s.sentFingerprint == Unset && !s.pendingAck)
            else log == (if watch.read.Missing? then [Pushed(PaneNotFound, watch.accepted)] else [])
                 && s.sentFingerprint == Unset && !s.pendingAck
  {
  }

  // ---- the served watermark ----

  /** The larger of two revisions of one generation; a new generation starts over. */
  function Newer(served: Output, read: Output): Output {
    if read.generation != served.generation then read
    else if read.revision > served.revision then read else served
  }

  /** What a read reports. */
  function Reported(served: Output, read: Read): Output {
    if (read.Verified? || read.Fenced?) && read.output.Some? then Newer(served, read.output.value) else served
  }

  lemma AnswerServes(s: State, read: Read, accepted: bool, now: nat)
    ensures Answer(s, read, accepted, now).0.upstream == Reported(s.upstream, read)
    ensures !s.pendingAck ==> PollStream(s, read, accepted, now).0.upstream == Reported(s.upstream, read)
  {
  }

  /** The watermark takes in what an unmoved probe and a read that was made report, and nothing else. */
  lemma WatermarkExactly(s: State, event: Event)
    ensures var probed := if Polls(s, event) && event.probe.Probed? && !event.probe.moved
                          then Newer(s.upstream, event.probe.output) else s.upstream;
            Step(s, event).0.upstream == Reported(probed, ReadMade(s, s.probeFingerprint, event))
  {
    match event
    case Ack(fingerprint, read, accepted, now) =>
      AnswerServes(Ungate(s.(ackedFingerprint := fingerprint)), read, accepted, now);
    case Resync(read, accepted, now) => AnswerServes(Reset(s), read, accepted, now);
    case StreamUpdated(read, accepted, now) => AnswerServes(s, read, accepted, now);
    case Tick(_, _, _, _) => PollServes(s, event);
    case Invalidated(_, _, _, _, _) => PollServes(s, event);
    case _ =>
  }

  lemma PollServes(s: State, event: Event)
    requires event.Tick? || event.Invalidated?
    ensures var probed := if Polls(s, event) && event.probe.Probed? && !event.probe.moved
                          then Newer(s.upstream, event.probe.output) else s.upstream;
            Step(s, event).0.upstream == Reported(probed, ReadMade(s, s.probeFingerprint, event))
  {
    if Polls(s, event) && event.probe.ProbeMissing? {
      GonePoll(s, event);
    } else if Polls(s, event) && Due(s.probeFingerprint, s, event.probe) {
      DuePoll(s, event);
      AnswerServes(Served(s, event.probe, event.read), event.read, event.accepted, event.now);
    } else if Polls(s, event) && event.probe.Probed? && !event.probe.moved {
      DueNeedsRead(s, event.probe);
    }
  }

  // ---- what an event does beside ----

  /** The event gets a content frame accepted: it reads a frame the phone was not sent, and the queue takes it. */
  predicate Sends(s: State, event: Event) {
    var read := ReadMade(s, s.probeFingerprint, event);
    read.Verified? && IsNew(s, event, read.frame) && IsAccepted(event)
  }

  predicate PushesNotice(entries: seq<Entry>) { exists e <- entries :: e.Pushed? && e.message.PaneNotFound? }

  /** The event saw the pane alive: its probe answered, or a read it made did. */
  predicate SeesAlive(s: State, event: Event) {
    || (Polls(s, event) && event.probe.Probed?)
    || ReadMade(s, s.probeFingerprint, event).Verified? || ReadMade(s, s.probeFingerprint, event).Fenced?
  }

  /** The event found the pane gone; the stream's reads never do. */
  predicate FindsGone(s: State, event: Event) {
    || event.StreamClosed? || (Polls(s, event) && event.probe.ProbeMissing?)
    || (!event.Ack? && !event.StreamUpdated? && ReadMade(s, s.probeFingerprint, event).Missing?)
  }

  /** The part of a step that answers a read: the pane seen alive or found gone or neither, a frame sent or not. */
  predicate Effects(s: State, alive: bool, gone: bool, sent: bool, now: nat, next: State, entries: seq<Entry>) {
    && next.probeFingerprint == s.probeFingerprint
    && next.gone == (gone || (s.gone && !alive))
    && (PushesNotice(entries) <==> gone && !(s.gone && !alive))
    && (if sent then next.ackDeadline == Some(now + ACK_TIMEOUT_SECONDS)
        else next.ackDeadline.None? || next.ackDeadline == s.ackDeadline)
  }

  /** A frame through the open gate that the phone was not sent, accepted. */
  predicate Passes(s: State, frame: Frame, accepted: bool) {
    !s.pendingAck && accepted && (s.forceFull || s.sentFrameFingerprint != FrameOf(frame.content, frame.metadata))
  }

  lemma OneEntry(entries: seq<Entry>, e: Entry)
    requires entries == [e]
    ensures PushesNotice(entries) <==> e.Pushed? && e.message.PaneNotFound?
  {
    assert e in entries;
  }

  lemma SendFrameEffects(s: State, frame: Frame, accepted: bool, now: nat)
    ensures var (next, entries) := SendFrame(s, frame, accepted, now);
            Effects(s, false, false, Passes(s, frame, accepted), now, next, entries)
  {
    var entries := SendFrame(s, frame, accepted, now).1;
    if entries != [] { OneEntry(entries, Pushed(MessageFor(s, frame), accepted)); }
  }

  lemma SendGoneEffects(s: State, accepted: bool, now: nat)
    ensures var (next, entries) := SendGone(s, accepted); Effects(s, false, true, false, now, next, entries)
  {
    if !s.gone { OneEntry([Pushed(PaneNotFound, accepted)], Pushed(PaneNotFound, accepted)); }
  }

  lemma AnswerEffects(s: State, read: Read, accepted: bool, now: nat)
    ensures var (next, entries) := Answer(s, read, accepted, now);
            Effects(s, read.Verified? || read.Fenced?, read.Missing?,
                    read.Verified? && Passes(s, read.frame, accepted), now, next, entries)
  {
    if read.Verified? { SendFrameEffects(AfterRead(s, read), read.frame, accepted, now); }
    if read.Missing? { SendGoneEffects(s, accepted, now); }
  }

  lemma StreamEffects(s: State, read: Read, accepted: bool, now: nat)
    requires !s.pendingAck
    ensures var (next, entries) := PollStream(s, read, accepted, now);
            Effects(s, read.Verified? || read.Fenced?, false,
                    read.Verified? && Passes(s, read.frame, accepted), now, next, entries)
  {
    if read.Verified? { SendFrameEffects(AfterRead(s, read), read.frame, accepted, now); }
  }

  function TimeOf(event: Event): nat { if event.StreamClosed? || event.StreamEnded? then 0 else event.now }

  /** What every event does to the probe, the notice and the deadline. */
  predicate StepEffects(s: State, event: Event, next: State, entries: seq<Entry>) {
    var known := s.gone && !SeesAlive(s, event);
    && next.probeFingerprint == VouchedAfter(s.probeFingerprint, s, event)
    && next.gone == (FindsGone(s, event) || known)
    && (PushesNotice(entries) <==> FindsGone(s, event) && !known)
    && (if Sends(s, event) then next.ackDeadline == Some(TimeOf(event) + ACK_TIMEOUT_SECONDS)
        else next.ackDeadline.None? || next.ackDeadline == s.ackDeadline)
  }

  lemma DueHasEffects(s: State, event: Event, next: State, entries: seq<Entry>)
    requires (event.Tick? || event.Invalidated?) && Polls(s, event) && Due(s.probeFingerprint, s, event.probe)
    requires (next, entries) == Answer(Served(s, event.probe, event.read), event.read, event.accepted, event.now)
    ensures StepEffects(s, event, next, entries)
  {
    AnswerEffects(Served(s, event.probe, event.read), event.read, event.accepted, event.now);
  }

  lemma PollHasEffects(s: State, event: Event)
    requires event.Tick? || event.Invalidated?
    ensures var (next, entries) := Step(s, event); StepEffects(s, event, next, entries)
  {
    if Polls(s, event) && event.probe.ProbeMissing? {
      GonePoll(s, event);
      SendGoneEffects(s, event.accepted, event.now);
    } else if Polls(s, event) && Due(s.probeFingerprint, s, event.probe) {
      DuePoll(s, event);
      DueHasEffects(s, event, Step(s, event).0, Step(s, event).1);
    } else {
      QuietPoll(s, event);
    }
  }

  lemma MarkHasNoEffect(mark: Entry, entries: seq<Entry>)
    requires !mark.Pushed?
    ensures PushesNotice([mark] + entries) <==> PushesNotice(entries)
  {
    forall e | e in entries ensures e in [mark] + entries {
    }
    forall e | e in [mark] + entries ensures e == mark || e in entries {
    }
  }

  lemma AckHasEffects(s: State, event: Event)
    requires event.Ack?
    ensures var (next, entries) := Step(s, event); StepEffects(s, event, next, entries)
  {
    if event.fingerprint != Unset && s.pendingAck && event.fingerprint == s.sentFingerprint {
      var open := Ungate(s.(ackedFingerprint := event.fingerprint));
      StreamEffects(open, event.read, event.accepted, event.now);
      MarkHasNoEffect(Acknowledged(event.fingerprint), PollStream(open, event.read, event.accepted, event.now).1);
    } else {
      OneEntry([Pushed(PaneResync, event.accepted)], Pushed(PaneResync, event.accepted));
    }
  }

  lemma ResyncHasEffects(s: State, event: Event)
    requires event.Resync?
    ensures var (next, entries) := Step(s, event); StepEffects(s, event, next, entries)
  {
    AnswerEffects(Reset(s), event.read, event.accepted, event.now);
    MarkHasNoEffect(ResyncAsked, Answer(Reset(s), event.read, event.accepted, event.now).1);
  }

  lemma StepHasEffects(s: State, event: Event)
    ensures var (next, entries) := Step(s, event); StepEffects(s, event, next, entries)
  {
    match event
    case Tick(_, _, _, _) => PollHasEffects(s, event);
    case Invalidated(_, _, _, _, _) => PollHasEffects(s, event);
    case Ack(_, _, _, _) => AckHasEffects(s, event);
    case Resync(_, _, _) => ResyncHasEffects(s, event);
    case StreamUpdated(read, accepted, now) => if !s.pendingAck { StreamEffects(s, read, accepted, now); }
    case StreamClosed(accepted) => SendGoneEffects(s, accepted, 0);
    case AckDeadline(_) => OneEntry([TimedOut], TimedOut);
    case StreamEnded =>
  }

  lemma {:induction false} VouchedIsRemembered(watch: Watch, events: seq<Event>)
    ensures Run(watch, events).0.probeFingerprint == Vouched(watch, events)
    decreases |events|
  {
    if events != [] {
      var n := |events| - 1;
      VouchedIsRemembered(watch, events[..n]);
      StepHasEffects(Run(watch, events[..n]).0, events[n]);
    }
  }

  // ---- deadlines, notices and acks ----

  /** When the frame in flight was sent: the time of the last event that got a content frame accepted. */
  function SentAt(watch: Watch, events: seq<Event>): nat {
    if events == [] then watch.now else
      var n := |events| - 1;
      if Sends(Run(watch, events[..n]).0, events[n]) then TimeOf(events[n]) else SentAt(watch, events[..n])
  }

  lemma StartSetsDeadline(watch: Watch)
    ensures var s := Run(watch, []).0;
            s.ackDeadline.Some? ==> s.ackDeadline == Some(watch.now + ACK_TIMEOUT_SECONDS)
  {
    AnswerEffects(FRESH, watch.read, watch.accepted, watch.now);
  }

  predicate HasDeadline(s: State, at: nat) {
    s.ackDeadline.Some? ==> s.ackDeadline == Some(at + ACK_TIMEOUT_SECONDS)
  }

  lemma {:induction false} DeadlineIsSet(watch: Watch, events: seq<Event>, s: State, at: nat)
    requires s == Run(watch, events).0 && at == SentAt(watch, events)
    ensures HasDeadline(s, at)
    decreases |events|
  {
    if events == [] {
      StartSetsDeadline(watch);
    } else {
      var n := |events| - 1;
      var before, sent := Run(watch, events[..n]).0, SentAt(watch, events[..n]);
      DeadlineIsSet(watch, events[..n], before, sent);
      DeadlineMoves(before, events[n], sent, s, at);
    }
  }

  lemma DeadlineMoves(s: State, event: Event, at: nat, next: State, at': nat)
    requires HasDeadline(s, at) && next == Step(s, event).0 && at' == if Sends(s, event) then TimeOf(event) else at
    ensures HasDeadline(next, at')
  {
    StepHasEffects(s, event);
  }

  /** A deadline check times out exactly when a frame has been in flight for four seconds. */
  lemma TimesOutExactly(watch: Watch, events: seq<Event>, now: nat)
    ensures var (s, log) := Run(watch, events);
            Step(s, AckDeadline(now)).1
              == if InFlight(log) && now >= SentAt(watch, events) + ACK_TIMEOUT_SECONDS then [TimedOut] else []
  {
    RunKeeps(SomePhone(watch), watch, events);
    SummaryIsLog(SomePhone(watch), Run(watch, events).1);
    DeadlineIsSet(watch, events, Run(watch, events).0, SentAt(watch, events));
  }

  /** One notice per death: pushed exactly when a pane not known to be gone is found gone. */
  lemma NoticeExactly(s: State, event: Event)
    ensures var (next, entries) := Step(s, event);
            var known := s.gone && !SeesAlive(s, event);
            && (PushesNotice(entries) <==> FindsGone(s, event) && !known)
            && next.gone == (FindsGone(s, event) || known)
  {
    StepHasEffects(s, event);
  }

  /** An ack of the frame in flight opens the gate, a repeated or empty one does nothing, any other asks to resync. */
  lemma AckExactly(s: State, fingerprint: Fingerprint, read: Read, accepted: bool, now: nat)
    requires Valid(s)
    ensures var (next, entries) := Step(s, Ack(fingerprint, read, accepted, now));
            var matches := s.pendingAck && fingerprint == s.sentFingerprint;
            && (Acknowledged(fingerprint) in entries <==> matches)
            && (matches ==> next.ackedFingerprint.Of?)
            && (!matches ==> next == s)
            && (!matches ==>
                  entries == if fingerprint == Unset || fingerprint == s.ackedFingerprint then []
                             else [Pushed(PaneResync, accepted)])
  {
    var (next, entries) := Step(s, Ack(fingerprint, read, accepted, now));
    assert s.pendingAck && fingerprint == s.sentFingerprint ==> entries[0] == Acknowledged(fingerprint);
  }
}
