/**
  A pane watch: the relay pushes full frames and deltas through an ack gate,
  the phone folds what its queue accepted. Fingerprints are modelled by what
  they identify, that is, as injective and never empty.
 */
module PaneWatch {
  import opened Text
  import opened PaneDelta
  import opened ClientDelta

  const ACK_TIMEOUT_SECONDS: nat := 4

  datatype Fingerprint = Unset | Of(content: string)

  /** Everything of a frame that its frame fingerprint covers beside the content. */
  datatype Metadata = Metadata(fields: string, resizeSettling: bool)

  datatype FrameFingerprint = NoFrame | FrameOf(content: string, metadata: Metadata)

  datatype Frame = Frame(content: string, metadata: Metadata, classificationAgent: string)

  datatype Message =
    | Full(content: string, fingerprint: Fingerprint, metadata: Metadata)
    | Delta(base: Fingerprint, fingerprint: Fingerprint, segments: seq<Segment>, metadata: Metadata)
    | PaneNotFound
    | PaneResync

  /** What a run leaves behind, in order; `accepted` is the answer of the client's queue. */
  datatype Entry =
    | Pushed(message: Message, accepted: bool)
    | Acknowledged(fingerprint: Fingerprint)
    | TimedOut
    | ResyncAsked

  datatype State = State(
    sentFingerprint: Fingerprint,
    sentContent: string,
    sentFrameFingerprint: FrameFingerprint,
    sentResizeSettling: bool,
    sentClassificationAgent: string,
    probeFingerprint: Fingerprint,
    ackedFingerprint: Fingerprint,
    pendingAck: bool,
    ackDeadline: Option<nat>,
    forceFull: bool,
    upstream: Output,
    gone: bool)

  /** An upstream output revision and the pane generation it counts in. */
  datatype Output = Output(generation: int, revision: nat)

  const FRESH := State(Unset, "", NoFrame, false, "", Unset, Unset, false, None, false, Output(-1, 0), false)

  /**
    A read: not due, verified, fenced off after the pane was seen alive, failed,
    or `pane_not_found`. A read over the socket reports an output revision, one
    off the stream does not.
   */
  datatype Read =
    | NotDue
    | Verified(frame: Frame, output: Option<Output>)
    | Fenced(output: Option<Output>)
    | Failed
    | Missing

  /** A probe that answered: the observed watermark before and after it, and the revision it read. */
  datatype Probe =
    | ProbeFailed
    | ProbeMissing
    | Probed(
        moved: bool, fingerprint: Fingerprint, agent: string, output: Output, observedBefore: nat, observedNow: nat)

  /** Every step says what the world answered: the read, the queue and the clock. */
  datatype Event =
    | Ack(fingerprint: Fingerprint, read: Read, accepted: bool, now: nat)
    | Resync(read: Read, accepted: bool, now: nat)
    | AckDeadline(now: nat)
    | Tick(probe: Probe, read: Read, accepted: bool, now: nat)
    | Invalidated(output: Option<nat>, probe: Probe, read: Read, accepted: bool, now: nat)
    | StreamUpdated(read: Read, accepted: bool, now: nat)
    | StreamClosed(accepted: bool)
    | StreamEnded

  // ---- the steps as functions ----

  function Ungate(s: State): State { s.(pendingAck := false, ackDeadline := None) }

  function Gate(s: State, now: nat): State {
    s.(pendingAck := true, ackDeadline := Some(now + ACK_TIMEOUT_SECONDS))
  }

  function Sent(s: State, frame: Frame, now: nat): State {
    Gate(s.(sentFingerprint := Of(frame.content), sentContent := frame.content,
            sentFrameFingerprint := FrameOf(frame.content, frame.metadata),
            sentResizeSettling := frame.metadata.resizeSettling,
            sentClassificationAgent := frame.classificationAgent), now)
  }

  function FullFrame(frame: Frame): Message { Full(frame.content, Of(frame.content), frame.metadata) }

  function CopyAll(content: string): seq<Segment> { [CopyOf(0, CountNewlines(content) + 1)] }

  function MessageFor(s: State, frame: Frame): Message {
    if s.forceFull || s.sentFingerprint == Unset then FullFrame(frame)
    else if Of(frame.content) == s.sentFingerprint then
      Delta(s.sentFingerprint, Of(frame.content), CopyAll(frame.content), frame.metadata)
    else
      var segments := Build(s.sentContent, frame.content);
      if Efficient(segments, frame.content) then Delta(s.sentFingerprint, Of(frame.content), segments, frame.metadata)
      else FullFrame(frame)
  }

  /** The frame the relay believes the client already shows. */
  predicate Unchanged(s: State, frame: Frame) {
    && !s.forceFull && s.sentFrameFingerprint != NoFrame
    && FrameOf(frame.content, frame.metadata) == s.sentFrameFingerprint
  }

  function SendFrame(s: State, frame: Frame, accepted: bool, now: nat): (State, seq<Entry>) {
    if s.pendingAck then (s, [])
    else if Unchanged(s, frame) then
      (s.(sentClassificationAgent := frame.classificationAgent,
          sentResizeSettling := frame.metadata.resizeSettling,
          ackedFingerprint := Of(frame.content)), [])
    else
      (if accepted then Sent(s, frame, now).(forceFull := false) else s, [Pushed(MessageFor(s, frame), accepted)])
  }

  function SendGone(s: State, accepted: bool): (State, seq<Entry>) {
    if s.gone then (s, []) else (Ungate(s.(gone := true)), [Pushed(PaneNotFound, accepted)])
  }

  /** The served watermark only grows within a generation, and starts over with a new one. */
  function FoldUpstream(served: Output, read: Output): Output {
    Output(read.generation,
           if read.generation == served.generation then Max(served.revision, read.revision) else read.revision)
  }

  /** A read that saw the pane alive clears `gone` and counts what it read. */
  function AfterRead(s: State, read: Read): State {
    if !read.Verified? && !read.Fenced? then s
    else if read.output.None? then s.(gone := false)
    else s.(gone := false, upstream := FoldUpstream(s.upstream, read.output.value))
  }

  /** The stream's half of a poll: only a verified frame does anything. */
  function PollStream(s: State, read: Read, accepted: bool, now: nat): (State, seq<Entry>) {
    if s.pendingAck then (s, [])
    else if read.Verified? then SendFrame(AfterRead(s, read), read.frame, accepted, now)
    else (AfterRead(s, read), [])
  }

  /** A read answered with its frame, or with the death notice. */
  function Answer(s: State, read: Read, accepted: bool, now: nat): (State, seq<Entry>) {
    match read
    case Verified(frame, _) => SendFrame(AfterRead(s, read), frame, accepted, now)
    case Missing => SendGone(s, accepted)
    case _ => (AfterRead(s, read), [])
  }

  predicate NeedsRead(s: State, probe: Probe)
    requires probe.Probed?
  {
    || s.probeFingerprint == Unset || probe.fingerprint != s.probeFingerprint || s.sentResizeSettling
    || (s.sentFrameFingerprint != NoFrame && s.sentClassificationAgent != probe.agent)
    || probe.observedNow > Max(probe.observedBefore, probe.output.revision)
    || probe.output.revision > s.upstream.revision
  }

  function PollPane(s: State, probe: Probe, read: Read, accepted: bool, now: nat): (State, seq<Entry>) {
    if s.pendingAck then (s, []) else
      match probe
      case ProbeFailed => (s, [])
      case ProbeMissing => SendGone(s, accepted)
      case Probed(moved, fingerprint, _, output, _, _) =>
        var alive := s.(gone := false);
        var served := alive.(upstream := FoldUpstream(alive.upstream, output));
        if moved then (alive, [])
        else if !NeedsRead(alive, probe) then (served, [])
        else if read.Verified? then Answer(served.(probeFingerprint := fingerprint), read, accepted, now)
        else Answer(served, read, accepted, now)
  }

  /** An output event at or below the served watermark is already covered. */
  function TakeInvalidation(s: State, output: Option<nat>, probe: Probe, read: Read, accepted: bool, now: nat)
    : (State, seq<Entry>)
  {
    if output.Some? && output.value <= s.upstream.revision then (s, []) else PollPane(s, probe, read, accepted, now)
  }

  function TakeAck(s: State, fingerprint: Fingerprint, read: Read, accepted: bool, now: nat): (State, seq<Entry>) {
    if fingerprint == Unset then (s, [])
    else if s.pendingAck && fingerprint == s.sentFingerprint then
      var (next, pushed) := PollStream(Ungate(s.(ackedFingerprint := fingerprint)), read, accepted, now);
      (next, [Acknowledged(fingerprint)] + pushed)
    else if s.ackedFingerprint != Unset && fingerprint == s.ackedFingerprint then (s, [])
    else (s, [Pushed(PaneResync, accepted)])
  }

  /** Gate open, no trusted base, next frame full. */
  function Reset(s: State): State {
    Ungate(s).(ackedFingerprint := Unset, probeFingerprint := Unset, forceFull := true)
  }

  function Step(s: State, event: Event): (State, seq<Entry>) {
    match event
    case Ack(fingerprint, read, accepted, now) => TakeAck(s, fingerprint, read, accepted, now)
    case Resync(read, accepted, now) =>
      var (next, pushed) := Answer(Reset(s), read, accepted, now);
      (next, [ResyncAsked] + pushed)
    case AckDeadline(now) =>
      if s.ackDeadline.Some? && s.ackDeadline.value <= now then (Reset(s), [TimedOut]) else (s, [])
    case Tick(probe, read, accepted, now) => PollPane(s, probe, read, accepted, now)
    case Invalidated(output, probe, read, accepted, now) => TakeInvalidation(s, output, probe, read, accepted, now)
    case StreamUpdated(read, accepted, now) => PollStream(s, read, accepted, now)
    case StreamClosed(accepted) => SendGone(s, accepted)
    case StreamEnded => (s.(probeFingerprint := Unset), [])
  }

  /** The first read of a watch: a client that already holds the content gets a copy of everything. */
  function Start(known: Option<Fingerprint>, read: Read, accepted: bool, now: nat): (State, seq<Entry>) {
    if read.Verified? && known == Some(Of(read.frame.content)) then
      var frame := read.frame;
      var s := AfterRead(FRESH, read);
      (if accepted then Sent(s, frame, now) else s,
       [Pushed(Delta(Of(frame.content), Of(frame.content), CopyAll(frame.content), frame.metadata), accepted)])
    else Answer(FRESH, read, accepted, now)
  }

  datatype Watch = Watch(known: Option<Fingerprint>, read: Read, accepted: bool, now: nat)

  /** The state and the log after a watch was opened and the events happened. */
  function Run(watch: Watch, events: seq<Event>): (State, seq<Entry>) {
    if events == [] then Start(watch.known, watch.read, watch.accepted, watch.now) else
      var n := |events| - 1;
      var (s, log) := Run(watch, events[..n]);
      var (next, more) := Step(s, events[n]);
      (next, log + more)
  }

  // ---- the phone ----

  datatype Phone = Showing(content: Option<string>, fingerprint: Fingerprint)

  const EMPTY_TEXT := "(empty)"

  /** `applyContent` and `applyDelta`; a refused delta stores nothing, and the old frame stays. */
  function Receive(phone: Phone, message: Message): Phone {
    match message
    case Full(content, fingerprint, _) => Showing(Some(content), fingerprint)
    case PaneNotFound => Showing(Some(EMPTY_TEXT), phone.fingerprint)
    case PaneResync => phone
    case Delta(base, fingerprint, segments, _) =>
      if phone.content == None || base != phone.fingerprint || (base == fingerprint && segments == []) then phone
      else
        var next := ApplyStrict(phone.content.value, EncodeAll(segments));
        if next.None? || Of(next.value) != fingerprint then phone else Showing(next, fingerprint)
  }

  // ---- what a log says, entry by entry ----

  predicate IsContent(e: Entry) { e.Pushed? && e.accepted && (e.message.Full? || e.message.Delta?) }

  predicate OpensGate(e: Entry) {
    e.Acknowledged? || e.TimedOut? || e.ResyncAsked? || (e.Pushed? && e.message.PaneNotFound?)
  }

  predicate ResetsChain(e: Entry) { e.TimedOut? || e.ResyncAsked? }

  /**
    `held`: the fingerprint the phone holds. `blank`: a death notice since the last full frame.
    `refusal`: a delta the phone cannot read since then.
   */
  datatype Summary = Summary(
    gated: bool, owesFull: bool, last: Fingerprint, held: Fingerprint, blank: bool, refusal: bool,
    phone: Phone, disciplined: bool)

  /** What of a delta decides whether a phone that holds its base can read it. */
  predicate Refuses(blank: bool, delta: Message)
    requires delta.Delta?
  {
    !AllAccepted(delta.segments) || (blank && delta.fingerprint != Of(EMPTY_TEXT))
  }

  function HeldAfter(held: Fingerprint, blank: bool, message: Message): Fingerprint {
    match message
    case Full(_, fingerprint, _) => fingerprint
    case Delta(base, fingerprint, _, _) => if base == held && !Refuses(blank, message) then fingerprint else held
    case _ => held
  }

  function Next(sum: Summary, e: Entry): Summary {
    Summary(
      if IsContent(e) then true else if OpensGate(e) then false else sum.gated,
      if IsContent(e) then false else if ResetsChain(e) then true else sum.owesFull,
      if IsContent(e) then e.message.fingerprint else sum.last,
      if e.Pushed? && e.accepted then HeldAfter(sum.held, sum.blank, e.message) else sum.held,
      if e.Pushed? && e.accepted && e.message.Full? then false
      else if e.Pushed? && e.accepted && e.message.PaneNotFound? then true else sum.blank,
      if e.Pushed? && e.accepted && e.message.Full? then false
      else sum.refusal || (IsContent(e) && e.message.Delta? && Refuses(sum.blank, e.message)),
      if e.Pushed? && e.accepted then Receive(sum.phone, e.message) else sum.phone,
      sum.disciplined && Fits(sum, e))
  }

  /**
    What may follow a log: a content frame only through an open gate, full if owed, on the
    client's own base unless it refused a delta; an ack only of the frame in flight.
   */
  predicate Fits(sum: Summary, e: Entry) {
    && (IsContent(e) ==> !sum.gated && (sum.owesFull ==> e.message.Full?))
    && (IsContent(e) && e.message.Delta? && !sum.refusal ==> e.message.base == sum.phone.fingerprint)
    && (e.Acknowledged? ==> sum.gated && e.fingerprint == sum.last)
  }

  function Summarize(phone: Phone, log: seq<Entry>): Summary {
    if log == [] then Summary(false, false, Unset, phone.fingerprint, false, false, phone, true) else
      var n := |log| - 1;
      Next(Summarize(phone, log[..n]), log[n])
  }

  lemma SummarizeSnoc(phone: Phone, log: seq<Entry>, e: Entry)
    ensures Summarize(phone, log + [e]) == Next(Summarize(phone, log), e)
  {
    assert (log + [e])[..|log|] == log;
  }

  /** The summary after more entries. */
  function Advance(sum: Summary, entries: seq<Entry>): Summary
    decreases |entries|
  {
    if entries == [] then sum else Advance(Next(sum, entries[0]), entries[1..])
  }

  lemma {:induction false} SummarizeAppend(phone: Phone, log: seq<Entry>, entries: seq<Entry>)
    ensures Summarize(phone, log + entries) == Advance(Summarize(phone, log), entries)
    decreases |entries|
  {
    if entries == [] {
      assert log + entries == log;
    } else {
      SummarizeSnoc(phone, log, entries[0]);
      SummarizeAppend(phone, log + [entries[0]], entries[1..]);
      assert log + entries == log + [entries[0]] + entries[1..];
    }
  }

  lemma AdvanceOne(sum: Summary, e: Entry)
    ensures Advance(sum, [e]) == Next(sum, e)
  {
    assert [e][1..] == [];
  }

  lemma AdvanceCons(sum: Summary, e: Entry, entries: seq<Entry>)
    ensures Advance(sum, [e] + entries) == Advance(Next(sum, e), entries)
  {
    assert ([e] + entries)[1..] == entries;
  }

  // ---- what every step keeps ----

  predicate Valid(s: State) {
    && (s.sentFingerprint == Unset <==> s.sentFrameFingerprint == NoFrame)
    && (s.sentFingerprint != Unset ==>
          s.sentFingerprint == Of(s.sentContent) && s.sentFrameFingerprint.content == s.sentContent)
    && (s.pendingAck <==> s.ackDeadline.Some?)
    && (s.pendingAck ==> s.sentFingerprint != Unset)
  }

  /** What the phone shows: the content of the fingerprint it holds, or the empty notice while a death notice stands. */
  function Expected(phone: Phone, s: State, held: Fingerprint, blank: bool): Phone {
    if s.sentFingerprint == Unset || held == Unset then
      (if blank then Showing(Some(EMPTY_TEXT), phone.fingerprint) else phone)
    else Showing(Some(if blank then EMPTY_TEXT else held.content), held)
  }

  predicate Kept(phone: Phone, s: State, sum: Summary) {
    && Valid(s)
    && sum.gated == s.pendingAck && sum.owesFull == s.forceFull && sum.last == s.sentFingerprint
    && sum.disciplined
    && (if s.sentFingerprint == Unset then sum.held == phone.fingerprint && !sum.refusal
        else sum.held.Of? && (sum.refusal || sum.held == s.sentFingerprint))
    && sum.phone == Expected(phone, s, sum.held, sum.blank)
  }

  /** A copy of everything, read off the notice text. */
  lemma CopyAllOnNotice(content: string)
    requires content != EMPTY_TEXT
    ensures var next := ApplyStrict(EMPTY_TEXT, EncodeAll(CopyAll(content)));
            next.None? || next.value == EMPTY_TEXT
  {
    var n := CountNewlines(content) + 1;
    NoticeIsOneLine();
    StrictAgreesWithApply(EMPTY_TEXT, CopyAll(content));
    if n == 1 {
      assert CopyAll(content) == CopyAll(EMPTY_TEXT);
      CopyEverything(EMPTY_TEXT);
    } else {
      assert !InRange(SplitAfter(EMPTY_TEXT), CopyAll(content)[0]);
    }
  }

  lemma NoticeIsOneLine()
    ensures CountNewlines(EMPTY_TEXT) == 0 && |SplitAfter(EMPTY_TEXT)| == 1
  {
    assert forall i :: 0 <= i < |EMPTY_TEXT| ==> EMPTY_TEXT[i] != '\n';
    NoNewline(EMPTY_TEXT);
    LineCount(EMPTY_TEXT);
  }

  lemma {:induction false} NoNewline(s: string)
    requires forall i :: 0 <= i < |s| ==> s[i] != '\n'
    ensures CountNewlines(s) == 0
  {
    if s != "" { NoNewline(s[1..]); }
  }

  /** A delta worth sending cannot be read off the notice text. */
  lemma DeltaOnNotice(previous: string, current: string)
    requires Efficient(Build(previous, current), current)
    ensures ApplyStrict(EMPTY_TEXT, EncodeAll(Build(previous, current))) == None && current != EMPTY_TEXT
  {
    var segments := Build(previous, current);
    EfficientCopies(previous, current);
    NoticeIsOneLine();
    var i :| 0 <= i < |segments| && segments[i].copyLines >= MINIMUM_COPY_LINES;
    assert !InRange(SplitAfter(EMPTY_TEXT), segments[i]);
    StrictAgreesWithApply(EMPTY_TEXT, segments);
  }

  lemma FullKeeps(phone: Phone, s: State, sum: Summary, frame: Frame, now: nat)
    requires Kept(phone, s, sum) && !s.pendingAck
    ensures Kept(phone, Sent(s, frame, now).(forceFull := false), Next(sum, Pushed(FullFrame(frame), true)))
  {
  }

  /** How a phone that shows `previous`, or the notice, reads a delta to `current`. */
  predicate ReadsAs(segments: seq<Segment>, previous: string, current: string) {
    && segments != []
    && ApplyStrict(previous, EncodeAll(segments)) == (if AllAccepted(segments) then Some(current) else None)
    && (AllAccepted(segments) && current == EMPTY_TEXT ==>
          ApplyStrict(EMPTY_TEXT, EncodeAll(segments)) == Some(current))
    && (current != EMPTY_TEXT ==> ApplyStrict(EMPTY_TEXT, EncodeAll(segments)) != Some(current))
  }

  lemma CopyAllReads(content: string)
    ensures ReadsAs(CopyAll(content), content, content) && AllAccepted(CopyAll(content))
  {
    StrictCopiesEverything(content, CountNewlines(content) + 1);
    if content != EMPTY_TEXT { CopyAllOnNotice(content); }
  }

  lemma BuildReads(previous: string, current: string)
    requires Efficient(Build(previous, current), current)
    ensures ReadsAs(Build(previous, current), previous, current)
  {
    StrictAppliesBuild(previous, current);
    BuildAccepted(previous, current);
    DeltaOnNotice(previous, current);
    EfficientCopies(previous, current);
  }

  lemma PhoneReadsDelta(previous: string, blank: bool, delta: Message)
    requires delta.Delta? && delta.base == Of(previous) && delta.fingerprint.Of?
    requires ReadsAs(delta.segments, previous, delta.fingerprint.content)
    ensures Receive(Showing(Some(if blank then EMPTY_TEXT else previous), delta.base), delta)
         == if Refuses(blank, delta) then Showing(Some(if blank then EMPTY_TEXT else previous), delta.base)
            else Showing(Some(if blank then EMPTY_TEXT else delta.fingerprint.content), delta.fingerprint)
  {
  }

  lemma DeltaReceived(sum: Summary, previous: string, delta: Message)
    requires delta.Delta? && delta.base == Of(previous) && delta.fingerprint.Of? && sum.held.Of?
    requires ReadsAs(delta.segments, previous, delta.fingerprint.content)
    requires sum.phone == Showing(Some(if sum.blank then EMPTY_TEXT else sum.held.content), sum.held)
    ensures var held := HeldAfter(sum.held, sum.blank, delta);
            held.Of? && Receive(sum.phone, delta) == Showing(Some(if sum.blank then EMPTY_TEXT else held.content), held)
  {
    if sum.held == delta.base { PhoneReadsDelta(previous, sum.blank, delta); }
  }

  lemma ReceivedKeeps(phone: Phone, s: State, sum: Summary, frame: Frame, delta: Message, now: nat, received: Phone)
    requires Kept(phone, s, sum) && !s.pendingAck && !s.forceFull && s.sentFingerprint != Unset
    requires delta.Delta? && delta.base == s.sentFingerprint && delta.fingerprint == Of(frame.content)
    requires received == Receive(sum.phone, delta)
    requires var held := HeldAfter(sum.held, sum.blank, delta);
             received == Showing(Some(if sum.blank then EMPTY_TEXT else held.content), held)
    ensures Kept(phone, Sent(s, frame, now).(forceFull := false), Next(sum, Pushed(delta, true)))
  {
  }

  lemma DeltaKeeps(phone: Phone, s: State, sum: Summary, frame: Frame, segments: seq<Segment>, now: nat)
    requires Kept(phone, s, sum) && !s.pendingAck && !s.forceFull && s.sentFingerprint != Unset
    requires ReadsAs(segments, s.sentContent, frame.content)
    ensures Kept(phone, Sent(s, frame, now).(forceFull := false), Next(sum, Pushed(
              Delta(s.sentFingerprint, Of(frame.content), segments, frame.metadata), true)))
  {
    var delta := Delta(s.sentFingerprint, Of(frame.content), segments, frame.metadata);
    DeltaReceived(sum, s.sentContent, delta);
    ReceivedKeeps(phone, s, sum, frame, delta, now, Receive(sum.phone, delta));
  }

  lemma SendFrameKeeps(phone: Phone, s: State, sum: Summary, frame: Frame, accepted: bool, now: nat)
    requires Kept(phone, s, sum)
    ensures var (next, entries) := SendFrame(s, frame, accepted, now); Kept(phone, next, Advance(sum, entries))
  {
    if !s.pendingAck && !Unchanged(s, frame) {
      var message := MessageFor(s, frame);
      AdvanceOne(sum, Pushed(message, accepted));
      if accepted {
        if message == FullFrame(frame) {
          FullKeeps(phone, s, sum, frame, now);
        } else if Of(frame.content) == s.sentFingerprint {
          CopyAllReads(frame.content);
          DeltaKeeps(phone, s, sum, frame, CopyAll(frame.content), now);
        } else {
          BuildReads(s.sentContent, frame.content);
          DeltaKeeps(phone, s, sum, frame, Build(s.sentContent, frame.content), now);
        }
      }
    }
  }

  lemma SendGoneKeeps(phone: Phone, s: State, sum: Summary, accepted: bool)
    requires Kept(phone, s, sum)
    ensures var (next, entries) := SendGone(s, accepted); Kept(phone, next, Advance(sum, entries))
  {
    AdvanceOne(sum, Pushed(PaneNotFound, accepted));
  }

  lemma AnswerKeeps(phone: Phone, s: State, sum: Summary, read: Read, accepted: bool, now: nat)
    requires Kept(phone, s, sum)
    ensures var (next, entries) := Answer(s, read, accepted, now); Kept(phone, next, Advance(sum, entries))
  {
    if read.Verified? { SendFrameKeeps(phone, AfterRead(s, read), sum, read.frame, accepted, now); }
    if read.Missing? { SendGoneKeeps(phone, s, sum, accepted); }
  }

  lemma PollStreamKeeps(phone: Phone, s: State, sum: Summary, read: Read, accepted: bool, now: nat)
    requires Kept(phone, s, sum)
    ensures var (next, entries) := PollStream(s, read, accepted, now); Kept(phone, next, Advance(sum, entries))
  {
    if read.Verified? { SendFrameKeeps(phone, AfterRead(s, read), sum, read.frame, accepted, now); }
  }

  lemma PollPaneKeeps(phone: Phone, s: State, sum: Summary, probe: Probe, read: Read, accepted: bool, now: nat)
    requires Kept(phone, s, sum)
    ensures var (next, entries) := PollPane(s, probe, read, accepted, now); Kept(phone, next, Advance(sum, entries))
  {
    if !s.pendingAck {
      match probe
      case ProbeFailed =>
      case ProbeMissing => SendGoneKeeps(phone, s, sum, accepted);
      case Probed(_, fingerprint, _, output, _, _) =>
        ServedKeeps(phone, s, sum, FoldUpstream(s.upstream, output), fingerprint);
        var served := s.(gone := false, upstream := FoldUpstream(s.upstream, output));
        AnswerKeeps(phone, if read.Verified? then served.(probeFingerprint := fingerprint) else served,
                    sum, read, accepted, now);
    }
  }

  lemma ServedKeeps(phone: Phone, s: State, sum: Summary, upstream: Output, fingerprint: Fingerprint)
    requires Kept(phone, s, sum)
    ensures var served := s.(gone := false, upstream := upstream);
            Kept(phone, served, sum) && Kept(phone, served.(probeFingerprint := fingerprint), sum)
  {
  }

  lemma TakeAckKeeps(
    phone: Phone, s: State, sum: Summary, fingerprint: Fingerprint, read: Read, accepted: bool, now: nat)
    requires Kept(phone, s, sum)
    ensures var (next, entries) := TakeAck(s, fingerprint, read, accepted, now);
            Kept(phone, next, Advance(sum, entries))
  {
    if fingerprint != Unset && s.pendingAck && fingerprint == s.sentFingerprint {
      var open := Ungate(s.(ackedFingerprint := fingerprint));
      PollStreamKeeps(phone, open, Next(sum, Acknowledged(fingerprint)), read, accepted, now);
      AdvanceCons(sum, Acknowledged(fingerprint), PollStream(open, read, accepted, now).1);
    } else {
      AdvanceOne(sum, Pushed(PaneResync, accepted));
    }
  }

  lemma StepKeeps(phone: Phone, s: State, sum: Summary, event: Event)
    requires Kept(phone, s, sum)
    ensures var (next, entries) := Step(s, event); Kept(phone, next, Advance(sum, entries))
  {
    match event
    case Ack(fingerprint, read, accepted, now) => TakeAckKeeps(phone, s, sum, fingerprint, read, accepted, now);
    case Resync(read, accepted, now) =>
      AnswerKeeps(phone, Reset(s), Next(sum, ResyncAsked), read, accepted, now);
      AdvanceCons(sum, ResyncAsked, Answer(Reset(s), read, accepted, now).1);
    case AckDeadline(now) => AdvanceOne(sum, TimedOut);
    case Tick(probe, read, accepted, now) => PollPaneKeeps(phone, s, sum, probe, read, accepted, now);
    case Invalidated(_, probe, read, accepted, now) => PollPaneKeeps(phone, s, sum, probe, read, accepted, now);
    case StreamUpdated(read, accepted, now) => PollStreamKeeps(phone, s, sum, read, accepted, now);
    case StreamClosed(accepted) => SendGoneKeeps(phone, s, sum, accepted);
    case StreamEnded =>
  }

  /** The client names only content it holds. */
  predicate Truthful(watch: Watch, phone: Phone) {
    watch.known.Some? && watch.known.value.Of? ==>
      phone == Showing(Some(watch.known.value.content), watch.known.value)
  }

  lemma FirstCopyKeeps(phone: Phone, begin: Summary, frame: Frame, segments: seq<Segment>, now: nat)
    requires phone == Showing(Some(frame.content), Of(frame.content)) && begin == Summarize(phone, [])
    requires ReadsAs(segments, frame.content, frame.content) && AllAccepted(segments)
    ensures Kept(phone, FRESH, Next(begin, Pushed(
              Delta(Of(frame.content), Of(frame.content), segments, frame.metadata), false)))
    ensures Kept(phone, Sent(FRESH, frame, now), Next(begin, Pushed(
              Delta(Of(frame.content), Of(frame.content), segments, frame.metadata), true)))
  {
  }

  lemma SummarizeFirst(phone: Phone, log: seq<Entry>)
    ensures Summarize(phone, log) == Advance(Summarize(phone, []), log)
  {
    SummarizeAppend(phone, [], log);
    assert [] + log == log;
  }

  lemma StartCopyKeeps(phone: Phone, frame: Frame, output: Option<Output>, accepted: bool, now: nat)
    requires phone == Showing(Some(frame.content), Of(frame.content))
    ensures var (s, log) := Start(Some(Of(frame.content)), Verified(frame, output), accepted, now);
            Kept(phone, s, Advance(Summarize(phone, []), log))
  {
    var segments := CopyAll(frame.content);
    CopyAllReads(frame.content);
    FirstCopyKeeps(phone, Summarize(phone, []), frame, segments, now);
    AdvanceOne(Summarize(phone, []),
               Pushed(Delta(Of(frame.content), Of(frame.content), segments, frame.metadata), accepted));
  }

  lemma StartKeeps(phone: Phone, watch: Watch)
    requires Truthful(watch, phone)
    ensures var (s, log) := Start(watch.known, watch.read, watch.accepted, watch.now);
            Kept(phone, s, Summarize(phone, log))
  {
    SummarizeFirst(phone, Start(watch.known, watch.read, watch.accepted, watch.now).1);
    if watch.read.Verified? && watch.known == Some(Of(watch.read.frame.content)) {
      StartCopyKeeps(phone, watch.read.frame, watch.read.output, watch.accepted, watch.now);
    } else {
      AnswerKeeps(phone, FRESH, Summarize(phone, []), watch.read, watch.accepted, watch.now);
    }
  }

  lemma {:induction false} RunKeeps(phone: Phone, watch: Watch, events: seq<Event>)
    requires Truthful(watch, phone)
    ensures var (s, log) := Run(watch, events); Kept(phone, s, Summarize(phone, log))
    decreases |events|
  {
    if events == [] {
      StartKeeps(phone, watch);
    } else {
      var n := |events| - 1;
      var (s, log) := Run(watch, events[..n]);
      RunKeeps(phone, watch, events[..n]);
      StepKeeps(phone, s, Summarize(phone, log), events[n]);
      SummarizeAppend(phone, log, Step(s, events[n]).1);
    }
  }
}
