/**
  What holds in every run of a pane watch, read off its log.
 */
module PaneWatchRuns {
  import opened Text
  import opened PaneDelta
  import opened ClientDelta
  import opened PaneWatch

  // ---- the log without its summary ----

  /** The phone after the accepted messages of a log, in order. */
  function PhoneAfter(phone: Phone, log: seq<Entry>): Phone {
    if log == [] then phone else
      var n := |log| - 1;
      var before := PhoneAfter(phone, log[..n]);
      if log[n].Pushed? && log[n].accepted then Receive(before, log[n].message) else before
  }

  predicate IsFull(e: Entry) { e.Pushed? && e.accepted && e.message.Full? }
  predicate IsNotice(e: Entry) { e.Pushed? && e.accepted && e.message.PaneNotFound? }
  predicate IsDelta(e: Entry) { e.Pushed? && e.accepted && e.message.Delta? }

  /** A marked entry, and nothing after it that cancels the mark. */
  ghost predicate Standing(log: seq<Entry>, mark: Entry -> bool, cancel: Entry -> bool) {
    exists i :: 0 <= i < |log| && mark(log[i]) && forall j :: i < j < |log| ==> !cancel(log[j])
  }

  /** A death notice arrived and no full frame since. */
  ghost predicate Blank(log: seq<Entry>) { Standing(log, IsNotice, IsFull) }

  ghost predicate InFlight(log: seq<Entry>) { Standing(log, IsContent, OpensGate) }

  ghost predicate OwesFull(log: seq<Entry>) { Standing(log, ResetsChain, IsContent) }

  /** A delta arrived that the phone cannot read, and no full frame since: one with an empty literal, or on a notice. */
  ghost predicate RefusalStands(log: seq<Entry>) {
    exists i :: 0 <= i < |log| && IsRefused(log, i) && forall j :: i < j < |log| ==> !IsFull(log[j])
  }

  ghost predicate IsRefused(log: seq<Entry>, i: nat)
    requires i < |log|
  {
    IsDelta(log[i]) && Refuses(Blank(log[..i]), log[i].message)
  }

  /** The fingerprint of the last frame the phone took over: a full one, or a readable delta to what it held. */
  ghost function Held(first: Fingerprint, log: seq<Entry>): Fingerprint {
    if log == [] then first else
      var n := |log| - 1;
      var before := Held(first, log[..n]);
      if log[n].Pushed? && log[n].accepted then HeldAfter(before, Blank(log[..n]), log[n].message) else before
  }

  lemma LastMark(log: seq<Entry>, mark: Entry -> bool, cancel: Entry -> bool)
    requires log != []
    ensures Standing(log, mark, cancel) <==>
              mark(log[|log| - 1]) || (!cancel(log[|log| - 1]) && Standing(log[..|log| - 1], mark, cancel))
  {
    var n := |log| - 1;
    var before := log[..n];
    if Standing(log, mark, cancel) {
      var i :| 0 <= i < |log| && mark(log[i]) && forall j :: i < j < |log| ==> !cancel(log[j]);
      if i < n { assert mark(before[i]); }
    }
    if !cancel(log[n]) && Standing(before, mark, cancel) {
      var i :| 0 <= i < |before| && mark(before[i]) && forall j :: i < j < |before| ==> !cancel(before[j]);
      assert mark(log[i]) && forall j :: i < j < |log| ==> !cancel(log[j]);
    }
  }

  lemma LastRefusal(log: seq<Entry>)
    requires log != []
    ensures RefusalStands(log) <==>
              || IsRefused(log, |log| - 1)
              || (!IsFull(log[|log| - 1]) && RefusalStands(log[..|log| - 1]))
  {
    var n := |log| - 1;
    forall i: nat | i < n ensures IsRefused(log, i) <==> IsRefused(log[..n], i) {
      assert log[..n][..i] == log[..i];
    }
    if RefusalStands(log) {
      var i :| 0 <= i < |log| && IsRefused(log, i) && forall j :: i < j < |log| ==> !IsFull(log[j]);
      if i < n { assert IsRefused(log[..n], i) && forall j :: i < j < n ==> !IsFull(log[..n][j]); }
    }
    if !IsFull(log[n]) && RefusalStands(log[..n]) {
      var i :| 0 <= i < n && IsRefused(log[..n], i) && forall j :: i < j < n ==> !IsFull(log[..n][j]);
      assert IsRefused(log, i) && forall j :: i < j < |log| ==> !IsFull(log[j]);
    }
  }

  /** The summary kept along a run says what the log says. */
  lemma {:induction false} SummaryIsLog(phone: Phone, log: seq<Entry>)
    ensures var sum := Summarize(phone, log);
            && sum.phone == PhoneAfter(phone, log) && sum.gated == InFlight(log) && sum.owesFull == OwesFull(log)
            && sum.blank == Blank(log) && sum.refusal == RefusalStands(log)
            && sum.held == Held(phone.fingerprint, log)
    decreases |log|
  {
    if log != [] {
      SummaryIsLog(phone, log[..|log| - 1]);
      LastMark(log, IsNotice, IsFull);
      LastMark(log, IsContent, OpensGate);
      LastMark(log, ResetsChain, IsContent);
      LastRefusal(log);
    }
  }

  lemma {:induction false} DisciplinedAt(phone: Phone, log: seq<Entry>, j: nat)
    requires j < |log| && Summarize(phone, log).disciplined
    ensures Fits(Summarize(phone, log[..j]), log[j])
    decreases |log|
  {
    var n := |log| - 1;
    if j < n {
      DisciplinedAt(phone, log[..n], j);
      assert log[..n][..j] == log[..j];
    }
  }

  // ---- every run ----

  /**
    In every run the phone shows the content of the fingerprint it holds, or the notice text while a
    death notice stands. So it shows the content last sent exactly when it holds that fingerprint, and
    it does unless it refused a delta since the last full frame.
   */
  lemma PhoneShowsSentContent(phone: Phone, watch: Watch, events: seq<Event>)
    requires Truthful(watch, phone)
    ensures var (s, log) := Run(watch, events);
            var after, held := PhoneAfter(phone, log), Held(phone.fingerprint, log);
            if s.sentFingerprint == Unset then
              after == if Blank(log) then Showing(Some(EMPTY_TEXT), phone.fingerprint) else phone
            else
              && held.Of? && after == Showing(Some(if Blank(log) then EMPTY_TEXT else held.content), held)
              && (after == Showing(Some(if Blank(log) then EMPTY_TEXT else s.sentContent), Of(s.sentContent)) <==>
                    held == Of(s.sentContent))
              && (!RefusalStands(log) ==> held == Of(s.sentContent))
  {
    RunKeeps(phone, watch, events);
    SummaryIsLog(phone, Run(watch, events).1);
  }

  /** Two accepted content frames are separated by an ack, a timeout, a resync or a death notice. */
  lemma FramesAreSeparated(phone: Phone, watch: Watch, events: seq<Event>, i: nat, j: nat)
    requires Truthful(watch, phone) && i < j < |Run(watch, events).1|
    requires IsContent(Run(watch, events).1[i]) && IsContent(Run(watch, events).1[j])
    ensures exists k :: i < k < j && OpensGate(Run(watch, events).1[k])
  {
    var log := Run(watch, events).1;
    RunKeeps(phone, watch, events);
    DisciplinedAt(phone, log, j);
    SummaryIsLog(phone, log[..j]);
    assert IsContent(log[..j][i]) && !InFlight(log[..j]);
    var k :| i < k < j && OpensGate(log[..j][k]);
    assert OpensGate(log[k]);
  }

  /** An ack opens the gate only for the frame in flight. */
  lemma AckMatchesFrameInFlight(phone: Phone, watch: Watch, events: seq<Event>, j: nat)
    requires Truthful(watch, phone) && j < |Run(watch, events).1| && Run(watch, events).1[j].Acknowledged?
    ensures var log := Run(watch, events).1;
            exists i :: 0 <= i < j && IsContent(log[i]) && log[i].message.fingerprint == log[j].fingerprint
                        && forall k :: i < k < j ==> !OpensGate(log[k]) && !IsContent(log[k])
  {
    var log := Run(watch, events).1;
    RunKeeps(phone, watch, events);
    DisciplinedAt(phone, log, j);
    LastContent(phone, log[..j]);
    SummaryIsLog(phone, log[..j]);
    var before := log[..j];
    var m :| 0 <= m < |before| && IsContent(before[m]) && forall k :: m < k < |before| ==> !OpensGate(before[k]);
    var i :| 0 <= i < |before| && IsContent(before[i]) && before[i].message.fingerprint == log[j].fingerprint
             && forall k :: i < k < |before| ==> !IsContent(before[k]);
    assert m <= i;
    assert IsContent(log[i]) && forall k :: i < k < j ==> log[k] == before[k];
  }

  lemma {:induction false} LastContent(phone: Phone, log: seq<Entry>)
    requires Summarize(phone, log).gated
    ensures exists i :: 0 <= i < |log| && IsContent(log[i])
                        && log[i].message.fingerprint == Summarize(phone, log).last
                        && forall k :: i < k < |log| ==> !IsContent(log[k])
    decreases |log|
  {
    var n := |log| - 1;
    if IsContent(log[n]) {
    } else {
      LastContent(phone, log[..n]);
      var i :| 0 <= i < n && IsContent(log[..n][i]) && log[..n][i].message.fingerprint == Summarize(phone, log).last
               && forall k :: i < k < n ==> !IsContent(log[..n][k]);
      assert IsContent(log[i]) && forall k :: i < k < |log| ==> !IsContent(log[k]);
    }
  }

  /** The first content frame accepted after a timeout or a resync is full. */
  lemma FullAfterReset(phone: Phone, watch: Watch, events: seq<Event>, i: nat, j: nat)
    requires Truthful(watch, phone) && i < j < |Run(watch, events).1|
    requires ResetsChain(Run(watch, events).1[i]) && IsContent(Run(watch, events).1[j])
    requires forall k :: i < k < j ==> !IsContent(Run(watch, events).1[k])
    ensures Run(watch, events).1[j].message.Full?
  {
    var log := Run(watch, events).1;
    RunKeeps(phone, watch, events);
    DisciplinedAt(phone, log, j);
    SummaryIsLog(phone, log[..j]);
    assert ResetsChain(log[..j][i]) && OwesFull(log[..j]);
  }

  /** And it heals the phone, whatever was refused before. */
  lemma FrameAfterResetHeals(phone: Phone, watch: Watch, events: seq<Event>, i: nat, j: nat)
    requires Truthful(watch, phone) && i < j < |Run(watch, events).1|
    requires ResetsChain(Run(watch, events).1[i]) && IsContent(Run(watch, events).1[j])
    requires forall k :: i < k < j ==> !IsContent(Run(watch, events).1[k])
    ensures var log := Run(watch, events).1;
            && !RefusalStands(log[..j + 1]) && !Blank(log[..j + 1])
            && log[j].message.Full?
            && PhoneAfter(phone, log[..j + 1]) == Showing(Some(log[j].message.content), log[j].message.fingerprint)
  {
    var log := Run(watch, events).1;
    FullAfterReset(phone, watch, events, i, j);
    var upto := log[..j + 1];
    assert upto[..|upto| - 1] == log[..j] && upto[|upto| - 1] == log[j];
    LastRefusal(upto);
    LastMark(upto, IsNotice, IsFull);
  }

  /** Unless the phone refused a delta since the last full frame, every delta is built on the fingerprint it holds. */
  lemma DeltaBaseIsPhones(phone: Phone, watch: Watch, events: seq<Event>, j: nat)
    requires Truthful(watch, phone) && j < |Run(watch, events).1| && IsDelta(Run(watch, events).1[j])
    ensures var log := Run(watch, events).1;
            !RefusalStands(log[..j]) ==> PhoneAfter(phone, log[..j]).fingerprint == log[j].message.base
  {
    var log := Run(watch, events).1;
    RunKeeps(phone, watch, events);
    DisciplinedAt(phone, log, j);
    SummaryIsLog(phone, log[..j]);
  }

  // ---- a pane that comes back ----

  /**
    After a death notice, the next frame through the open gate brings the phone
    back exactly when it goes out as a full frame.
   */
  lemma RevivedFrameShowsIffFull(phone: Phone, s: State, sum: Summary, frame: Frame, now: nat)
    requires Kept(phone, s, sum) && sum.blank && !s.pendingAck
    requires frame.content != EMPTY_TEXT
    ensures var entries := SendFrame(s, frame, true, now).1;
            (Advance(sum, entries).phone == Showing(Some(frame.content), Of(frame.content)) <==>
               !Unchanged(s, frame)
               && (s.forceFull || s.sentFingerprint == Unset
                   || (s.sentContent != frame.content
                       && !Efficient(Build(s.sentContent, frame.content), frame.content))))
  {
    SendFrameKeeps(phone, s, sum, frame, true, now);
    if !Unchanged(s, frame) { AdvanceOne(sum, Pushed(MessageFor(s, frame), true)); }
  }

  /** The same frame again: the pane died and came back, and the phone is left with the notice. */
  lemma RevivedFrameIsSuppressed(frame: Frame, probe: Probe)
    requires probe.Probed? && !probe.moved && frame.content != EMPTY_TEXT
    ensures var read := Verified(frame, None);
            var watch := Watch(None, read, true, 0);
            var events := [Ack(Of(frame.content), NotDue, true, 1), StreamClosed(true), Tick(probe, read, true, 2)];
            var (s, log) := Run(watch, events);
            && s.sentContent == frame.content && !s.pendingAck && !s.gone
            && PhoneAfter(Showing(None, Unset), log) == Showing(Some(EMPTY_TEXT), Of(frame.content))
  {
    var read := Verified(frame, None);
    var watch := Watch(None, read, true, 0);
    var ack := Ack(Of(frame.content), NotDue, true, 1);
    var events := [ack, StreamClosed(true), Tick(probe, read, true, 2)];
    assert events[..2] == [ack, StreamClosed(true)] && events[..2][..1] == [ack] && [ack][..0] == [];
    var full, notice := Pushed(FullFrame(frame), true), Pushed(PaneNotFound, true);
    assert Run(watch, []).1 == [full];
    assert Run(watch, [ack]).1 == [full, Acknowledged(Of(frame.content))];
    var log := [full, Acknowledged(Of(frame.content)), notice];
    assert Run(watch, events[..2]).1 == log;
    assert Run(watch, events).1 == log;
    NoticeAfterFrame(frame);
  }

  lemma NoticeAfterFrame(frame: Frame)
    ensures PhoneAfter(Showing(None, Unset), [
              Pushed(FullFrame(frame), true), Acknowledged(Of(frame.content)), Pushed(PaneNotFound, true)])
         == Showing(Some(EMPTY_TEXT), Of(frame.content))
  {
    var full, notice := Pushed(FullFrame(frame), true), Pushed(PaneNotFound, true);
    var ack := Acknowledged(Of(frame.content));
    assert [full][..0] == [] && [full, ack][..1] == [full] && [full, ack, notice][..2] == [full, ack];
    assert PhoneAfter(Showing(None, Unset), [full]) == Showing(Some(frame.content), Of(frame.content));
    assert PhoneAfter(Showing(None, Unset), [full, ack]) == Showing(Some(frame.content), Of(frame.content));
  }

  // ---- the served watermark ----

  predicate ReadIn(read: Read, generation: int) {
    (read.Verified? || read.Fenced?) && read.output.Some? ==> read.output.value.generation == generation
  }

  /** Everything the event read belongs to one pane generation. */
  predicate EventIn(event: Event, generation: int) {
    match event
    case Ack(_, read, _, _) => ReadIn(read, generation)
    case Resync(read, _, _) => ReadIn(read, generation)
    case StreamUpdated(read, _, _) => ReadIn(read, generation)
    case Tick(probe, read, _, _) =>
      ReadIn(read, generation) && (probe.Probed? ==> probe.output.generation == generation)
    case Invalidated(_, probe, read, _, _) =>
      ReadIn(read, generation) && (probe.Probed? ==> probe.output.generation == generation)
    case _ => true
  }

  predicate Grows(was: Output, now: Output) { was.generation == now.generation && was.revision <= now.revision }

  lemma AnswerGrows(s: State, read: Read, accepted: bool, now: nat)
    requires ReadIn(read, s.upstream.generation)
    ensures Grows(s.upstream, Answer(s, read, accepted, now).0.upstream)
    ensures Grows(s.upstream, PollStream(s, read, accepted, now).0.upstream)
  {
  }

  lemma PollGrows(s: State, probe: Probe, read: Read, accepted: bool, now: nat)
    requires ReadIn(read, s.upstream.generation) && (probe.Probed? ==> probe.output.generation == s.upstream.generation)
    ensures Grows(s.upstream, PollPane(s, probe, read, accepted, now).0.upstream)
  {
    if probe.Probed? {
      var served := s.(gone := false, upstream := FoldUpstream(s.upstream, probe.output));
      AnswerGrows(served, read, accepted, now);
      AnswerGrows(served.(probeFingerprint := probe.fingerprint), read, accepted, now);
    }
  }

  /** Within a pane generation no step lowers the served watermark. */
  lemma WatermarkGrows(s: State, event: Event)
    requires EventIn(event, s.upstream.generation)
    ensures Grows(s.upstream, Step(s, event).0.upstream)
  {
    match event
    case Ack(fingerprint, read, accepted, now) =>
      AnswerGrows(Ungate(s.(ackedFingerprint := fingerprint)), read, accepted, now);
    case Resync(read, accepted, now) => AnswerGrows(Reset(s), read, accepted, now);
    case StreamUpdated(read, accepted, now) => AnswerGrows(s, read, accepted, now);
    case Tick(probe, read, accepted, now) => PollGrows(s, probe, read, accepted, now);
    case Invalidated(_, probe, read, accepted, now) => PollGrows(s, probe, read, accepted, now);
    case _ =>
  }
}
