/**
  Harvesting a transcript through a viewport with a sticky header and footer.
 */
module HarvestRuns {
  import opened Text
  import opened ScrollHarvest

  /** Transcript rows are distinct and not blank, and no footer row is one of them. */
  ghost predicate Readable(transcript: seq<string>, footer: seq<string>) {
    && (forall i, j :: 0 <= i < j < |transcript| ==> transcript[i] != transcript[j])
    && (forall i :: 0 <= i < |transcript| ==> transcript[i] != "")
    && (forall i, j :: 0 <= i < |transcript| && 0 <= j < |footer| ==> transcript[i] != footer[j])
  }

  lemma {:induction false} CommonPrefixIs(a: seq<string>, b: seq<string>, n: nat)
    requires n < |a| && n < |b| && a[..n] == b[..n] && a[n] != b[n]
    ensures CommonPrefix(a, b) == n
    decreases n
  {
    if n > 0 {
      assert a[0] == a[..n][0] == b[..n][0] == b[0];
      assert a[1..][..n - 1] == a[..n][1..] && b[1..][..n - 1] == b[..n][1..];
      CommonPrefixIs(a[1..], b[1..], n - 1);
    }
  }

  lemma SpanOfThree(rows: seq<string>)
    requires |rows| >= 3 && rows[0] != "" && rows[1] != "" && rows[2] != ""
    ensures Span(rows, 0) == Some(3)
  {
    assert rows[1..][0] == rows[1] && rows[1..][1..] == rows[2..];
    assert Span(rows[2..], 2) == Some(1);
    assert Span(rows[1..], 1) == Some(2);
  }

  lemma UniqueMatch(rows: seq<string>, block: seq<string>, at: nat)
    requires block != [] && at + |block| <= |rows| && rows[at..at + |block|] == block
    requires forall i :: 0 <= i < |rows| && rows[i] == block[0] ==> i == at
    ensures OnlyMatch(rows, block) == FirstMatch(rows, block, 0) == Some(at)
  {
    FirstMatchIsFirst(rows, block, 0, at);
    MatchStartsBlock(rows, block, 0);
    MatchStartsBlock(rows, block, at + 1);
  }

  lemma MatchStartsBlock(rows: seq<string>, block: seq<string>, start: nat)
    requires block != []
    ensures var i := FirstMatch(rows, block, start); i.Some? ==> i.value < |rows| && rows[i.value] == block[0]
  {
    var i := FirstMatch(rows, block, start);
    if i.Some? { assert rows[i.value..i.value + |block|][0] == block[0]; }
  }

  /** Where the old top row stands in the new window. */
  lemma AnchorStandsOnce(transcript: seq<string>, footer: seq<string>, lo: nat, lo': nat, hi': nat)
    requires Readable(transcript, footer) && lo' < lo && lo + 3 <= hi' <= |transcript|
    ensures OnlyMatch(transcript[lo'..hi'] + footer, transcript[lo..lo + 3])
         == FirstMatch(transcript[lo'..hi'] + footer, transcript[lo..lo + 3], 0) == Some(lo - lo')
  {
    var rows, block := transcript[lo'..hi'] + footer, transcript[lo..lo + 3];
    var at := lo - lo';
    forall k | 0 <= k < 3 ensures rows[at..at + 3][k] == block[k] {
      assert rows[at + k] == transcript[lo'..hi'][at + k] == transcript[lo + k];
    }
    assert rows[at..at + 3] == block;
    forall i | 0 <= i < |rows| ensures rows[i] == block[0] ==> i == at {
      assert rows[i] == if i < hi' - lo' then transcript[lo' + i] else footer[i - (hi' - lo')];
      assert block[0] == transcript[lo];
    }
    UniqueMatch(rows, block, at);
  }

  /** A transcript shown between a sticky header and footer. */
  datatype Screen = Screen(header: seq<string>, transcript: seq<string>, footer: seq<string>)

  function Window(t: Screen, lo: nat, hi: nat): seq<string>
    requires lo <= hi <= |t.transcript|
  {
    t.header + t.transcript[lo..hi] + t.footer
  }

  ghost predicate ShowsWindow(plain: Plainer, rows: seq<string>, t: Screen, lo: nat, hi: nat) {
    lo <= hi <= |t.transcript| && Plain(plain, rows) == Window(t, lo, hi)
  }

  lemma WindowParts(t: Screen, lo: nat, hi: nat)
    requires lo < hi <= |t.transcript|
    ensures var w, h := Window(t, lo, hi), |t.header|;
            h < |w| && w[..h] == t.header && w[h] == t.transcript[lo] && w[h..] == t.transcript[lo..hi] + t.footer
  {
  }

  lemma AnchorOfWindow(t: Screen, lo: nat, hi: nat)
    requires Readable(t.transcript, t.footer) && lo + 3 <= hi <= |t.transcript|
    ensures Anchor(Window(t, lo, hi), |t.header|) == t.transcript[lo..lo + 3]
  {
    var w, h := Window(t, lo, hi), |t.header|;
    WindowParts(t, lo, hi);
    SpanOfThree(w[h..]);
    assert w[h..h + 3] == t.transcript[lo..lo + 3];
  }

  /** What a merge does once its header, anchor and offset are known. */
  lemma MergeAt(plain: Plainer, history: seq<string>, before: seq<string>, after: seq<string>, next: seq<string>,
                header: seq<string>, anchor: seq<string>, added: nat)
    requires |after| == |next| && |header| <= |before| && |header| <= |after| && before[..|header|] == header
    requires anchor != [] && added > 0
    requires OnlyMatch(after[|header|..], anchor) == FirstMatch(after[|header|..], anchor, 0) == Some(added)
    ensures |header| + added <= |next|
    ensures MergeFrom(plain, history, before, after, next, |header|, anchor)
         == (Insert(plain, history, header, next[|header|..|header| + added]), Some(added))
  {
  }

  lemma HeaderOfWindows(t: Screen, lo: nat, hi: nat, lo': nat, hi': nat)
    requires Readable(t.transcript, t.footer) && lo' < lo < hi <= |t.transcript| && lo' < hi' <= |t.transcript|
    ensures Window(t, lo, hi) != Window(t, lo', hi')
    ensures CommonPrefix(Window(t, lo, hi), Window(t, lo', hi')) == |t.header|
  {
    WindowParts(t, lo, hi);
    WindowParts(t, lo', hi');
    CommonPrefixIs(Window(t, lo, hi), Window(t, lo', hi'), |t.header|);
  }

  lemma AnchorInWindow(t: Screen, lo: nat, lo': nat, hi': nat, below: seq<string>, anchor: seq<string>)
    requires Readable(t.transcript, t.footer) && lo' < lo && lo + 3 <= hi' <= |t.transcript|
    requires below == Window(t, lo', hi')[|t.header|..] && anchor == t.transcript[lo..lo + 3]
    ensures OnlyMatch(below, anchor) == FirstMatch(below, anchor, 0) == Some(lo - lo')
  {
    WindowParts(t, lo', hi');
    AnchorStandsOnce(t.transcript, t.footer, lo, lo', hi');
  }

  /**
    Two snapshots share the header, and the anchor below it stands `added` rows lower in the
    second, and only there.
   */
  predicate Overlap(before: seq<string>, after: seq<string>, header: seq<string>, anchor: seq<string>, added: nat) {
    && before != after && CommonPrefix(before, after) == |header| && before[..|header|] == header
    && Anchor(before, |header|) == anchor && anchor != [] && added > 0
    && OnlyMatch(after[|header|..], anchor) == FirstMatch(after[|header|..], anchor, 0) == Some(added)
  }

  lemma WindowsOverlap(t: Screen, lo: nat, hi: nat, lo': nat, hi': nat)
    requires Readable(t.transcript, t.footer)
    requires lo' < lo && lo + 3 <= hi <= |t.transcript| && lo + 3 <= hi' <= |t.transcript|
    ensures Overlap(Window(t, lo, hi), Window(t, lo', hi'), t.header, t.transcript[lo..lo + 3], lo - lo')
  {
    HeaderOfWindows(t, lo, hi, lo', hi');
    AnchorOfWindow(t, lo, hi);
    AnchorInWindow(t, lo, lo', hi', Window(t, lo', hi')[|t.header|..], t.transcript[lo..lo + 3]);
    WindowParts(t, lo, hi);
  }

  lemma PlainThree(plain: Plainer, a: seq<string>, b: seq<string>, c: seq<string>)
    ensures Plain(plain, a + b + c) == Plain(plain, a) + Plain(plain, b) + Plain(plain, c)
  {
    PlainAppend(plain, a + b, c);
    PlainAppend(plain, a, b);
  }

  lemma PlainHalves(plain: Plainer, rows: seq<string>, header: seq<string>)
    requires header <= Plain(plain, rows)
    ensures |header| <= |rows| && Plain(plain, rows[..|header|]) == header
    ensures Plain(plain, rows[|header|..]) == Plain(plain, rows)[|header|..]
  {
    PlainSlice(plain, rows, 0, |header|);
    PlainSlice(plain, rows, |header|, |rows|);
    assert rows[0..|header|] == rows[..|header|] && rows[|header|..|rows|] == rows[|header|..];
  }

  lemma PlainInsert(plain: Plainer, history: seq<string>, header: seq<string>, exposed: seq<string>)
    requires header <= Plain(plain, history)
    ensures Plain(plain, Insert(plain, history, header, exposed))
         == header + Plain(plain, exposed) + Plain(plain, history)[|header|..]
  {
    PlainHalves(plain, history, header);
    PlainThree(plain, history[..|header|], exposed, history[|header|..]);
  }

  lemma JoinWindows(t: Screen, lo': nat, lo: nat, end: nat)
    requires lo' <= lo < end <= |t.transcript|
    ensures t.header + t.transcript[lo'..lo] + Window(t, lo, end)[|t.header|..] == Window(t, lo', end)
  {
    WindowParts(t, lo, end);
    assert t.transcript[lo'..lo] + t.transcript[lo..end] == t.transcript[lo'..end];
  }

  lemma ExposedRows(plain: Plainer, next: seq<string>, t: Screen, lo: nat, lo': nat, hi': nat)
    requires lo' <= lo <= hi' && ShowsWindow(plain, next, t, lo', hi')
    ensures Plain(plain, next[|t.header|..|t.header| + (lo - lo')]) == t.transcript[lo'..lo]
  {
    var h, added := |t.header|, lo - lo';
    PlainSlice(plain, next, h, h + added);
  }

  lemma MergeUpAt(plain: Plainer, history: seq<string>, previous: seq<string>, next: seq<string>,
                  before: seq<string>, after: seq<string>, header: seq<string>, anchor: seq<string>, added: nat)
    requires Plain(plain, previous) == before && Plain(plain, next) == after
    requires Overlap(before, after, header, anchor, added)
    ensures |header| + added <= |next|
    ensures MergeUp(plain, history, previous, next)
         == (Insert(plain, history, header, next[|header|..|header| + added]), Some(added))
  {
    MergeAt(plain, history, before, after, next, header, anchor, added);
  }

  lemma MergeInserts(
    plain: Plainer, history: seq<string>, previous: seq<string>, next: seq<string>,
    before: seq<string>, after: seq<string>, t: Screen, lo: nat, lo': nat)
    requires lo' < lo && lo + 3 <= |t.transcript|
    requires Plain(plain, previous) == before && Plain(plain, next) == after
    requires Overlap(before, after, t.header, t.transcript[lo..lo + 3], lo - lo')
    ensures |t.header| + (lo - lo') <= |next|
    ensures MergeUp(plain, history, previous, next)
         == (Insert(plain, history, t.header, next[|t.header|..|t.header| + (lo - lo')]), Some(lo - lo'))
  {
    MergeUpAt(plain, history, previous, next, before, after, t.header, t.transcript[lo..lo + 3], lo - lo');
  }

  lemma InsertExtends(
    plain: Plainer, history: seq<string>, next: seq<string>, t: Screen, lo: nat, end: nat, lo': nat, hi': nat)
    requires lo' < lo < end && lo + 3 <= hi'
    requires ShowsWindow(plain, history, t, lo, end) && ShowsWindow(plain, next, t, lo', hi')
    ensures ShowsWindow(plain, Insert(plain, history, t.header, next[|t.header|..|t.header| + (lo - lo')]), t, lo', end)
  {
    WindowParts(t, lo, end);
    PlainInsert(plain, history, t.header, next[|t.header|..|t.header| + (lo - lo')]);
    ExposedRows(plain, next, t, lo, lo', hi');
    JoinWindows(t, lo', lo, end);
  }

  /** One wheel step with at least three shared rows extends the harvested run upwards, and by nothing else. */
  lemma MergeExtends(
    plain: Plainer, history: seq<string>, previous: seq<string>, next: seq<string>, t: Screen,
    lo: nat, hi: nat, end: nat, lo': nat, hi': nat)
    requires Readable(t.transcript, t.footer) && lo' < lo && lo + 3 <= hi && lo + 3 <= hi' && lo < end
    requires ShowsWindow(plain, history, t, lo, end)
    requires ShowsWindow(plain, previous, t, lo, hi) && ShowsWindow(plain, next, t, lo', hi')
    ensures var (merged, added) := MergeUp(plain, history, previous, next);
            added == Some(lo - lo') && ShowsWindow(plain, merged, t, lo', end)
  {
    WindowsOverlap(t, lo, hi, lo', hi');
    MergeInserts(plain, history, previous, next, Window(t, lo, hi), Window(t, lo', hi'), t, lo, lo');
    InsertExtends(plain, history, next, t, lo, end, lo', hi');
  }

  // ---- the loop ----

  predicate Moves(plain: Plainer, previous: seq<string>, scroll: Scroll) {
    scroll.Shows? && Plain(plain, scroll.rows) != Plain(plain, previous)
  }

  /** The snapshot the next one is merged against, once `taken` scrolls have been merged. */
  function LastMerged(previous: seq<string>, scrolls: seq<Scroll>, taken: nat): seq<string>
    requires taken <= |scrolls|
  {
    if taken == 0 || scrolls[taken - 1].Ends? then previous else scrolls[taken - 1].rows
  }

  /** Why the loop stops after `taken` scrolls: a bound, or a scroll that shows nothing new. */
  predicate Stops(
    plain: Plainer, history: seq<string>, previous: seq<string>, scrolls: seq<Scroll>,
    lines: nat, steps: nat, taken: nat)
    requires taken <= |scrolls|
  {
    || |history| >= lines || steps + taken >= MAX_STEPS || taken == |scrolls|
    || !Moves(plain, LastMerged(previous, scrolls, taken), scrolls[taken])
  }

  /** An invariant over the history, the last snapshot, the scrolls to come, the step, its window and theirs. */
  type Invariant = (seq<string>, seq<string>, seq<Scroll>, nat, (nat, nat), seq<(nat, nat)>) -> bool

  predicate Continues(inv: Invariant, merged: seq<string>, scrolls: seq<Scroll>, steps: nat, tops: seq<(nat, nat)>)
    requires scrolls != [] && scrolls[0].Shows? && tops != []
  {
    inv(merged, scrolls[0].rows, scrolls[1..], steps + 1, tops[0], tops[1..])
  }

  /** The loop either stops with its result, or merges a scroll and keeps the invariant. */
  ghost predicate KeptBy(
    plain: Plainer, inv: Invariant, harvested: seq<string>, lines: nat,
    history: seq<string>, previous: seq<string>, scrolls: seq<Scroll>, steps: nat,
    top: (nat, nat), tops: seq<(nat, nat)>)
  {
    inv(history, previous, scrolls, steps, top, tops) ==>
      && |tops| == |scrolls|
      && if Stops(plain, history, previous, scrolls, lines, steps, 0) then history == harvested
         else exists merged :: Continues(inv, merged, scrolls, steps, tops)
  }

  ghost predicate Kept(plain: Plainer, inv: Invariant, harvested: seq<string>, lines: nat) {
    forall history: seq<string>, previous: seq<string>, scrolls: seq<Scroll>, steps: nat,
           top: (nat, nat), tops: seq<(nat, nat)> ::
      KeptBy(plain, inv, harvested, lines, history, previous, scrolls, steps, top, tops)
  }

  /** The loop merged `taken` scrolls, kept the invariant and had a reason to stop. */
  ghost predicate Merges(
    plain: Plainer, inv: Invariant, harvested: seq<string>, previous: seq<string>, scrolls: seq<Scroll>,
    lines: nat, steps: nat, top: (nat, nat), tops: seq<(nat, nat)>, taken: nat)
    decreases taken
  {
    if taken == 0 then
      && inv(harvested, previous, scrolls, steps, top, tops)
      && Stops(plain, harvested, previous, scrolls, lines, steps, 0)
    else
      && scrolls != [] && scrolls[0].Shows? && tops != []
      && Merges(plain, inv, harvested, scrolls[0].rows, scrolls[1..], lines, steps + 1, tops[0], tops[1..], taken - 1)
  }

  lemma {:induction false} LoopMerges(
    plain: Plainer, inv: Invariant, harvested: seq<string>, history: seq<string>, previous: seq<string>,
    scrolls: seq<Scroll>, lines: nat, steps: nat, top: (nat, nat), tops: seq<(nat, nat)>)
    returns (taken: nat)
    requires Kept(plain, inv, harvested, lines) && inv(history, previous, scrolls, steps, top, tops)
    ensures Merges(plain, inv, harvested, previous, scrolls, lines, steps, top, tops, taken)
    decreases |scrolls|
  {
    assert KeptBy(plain, inv, harvested, lines, history, previous, scrolls, steps, top, tops);
    if Stops(plain, history, previous, scrolls, lines, steps, 0) {
      taken := 0;
    } else {
      var next, rest := scrolls[0].rows, scrolls[1..];
      var merged :| Continues(inv, merged, scrolls, steps, tops);
      var later := LoopMerges(plain, inv, harvested, merged, next, rest, lines, steps + 1, tops[0], tops[1..]);
      taken := later + 1;
    }
  }

  lemma HarvestStops(
    plain: Plainer, history: seq<string>, previous: seq<string>, scrolls: seq<Scroll>, lines: nat, steps: nat)
    requires Stops(plain, history, previous, scrolls, lines, steps, 0)
    ensures Harvest(plain, history, previous, scrolls, lines, steps) == history
  {
  }

  lemma HarvestGoesOn(
    plain: Plainer, history: seq<string>, previous: seq<string>, scrolls: seq<Scroll>, lines: nat, steps: nat,
    merged: seq<string>, added: nat)
    requires !Stops(plain, history, previous, scrolls, lines, steps, 0) && added > 0
    requires MergeUp(plain, history, previous, scrolls[0].rows) == (merged, Some(added))
    ensures Harvest(plain, history, previous, scrolls, lines, steps)
         == Harvest(plain, merged, scrolls[0].rows, scrolls[1..], lines, steps + 1)
  {
  }

  /** The window of the last snapshot merged. */
  function Top(top: (nat, nat), tops: seq<(nat, nat)>, taken: nat): (nat, nat)
    requires taken <= |tops|
  {
    if taken == 0 then top else tops[taken - 1]
  }

  lemma {:induction false} MergesMeans(
    plain: Plainer, inv: Invariant, harvested: seq<string>, previous: seq<string>, scrolls: seq<Scroll>,
    lines: nat, steps: nat, top: (nat, nat), tops: seq<(nat, nat)>, taken: nat)
    requires |tops| == |scrolls| && Merges(plain, inv, harvested, previous, scrolls, lines, steps, top, tops, taken)
    ensures taken <= |scrolls| && (forall i :: 0 <= i < taken ==> scrolls[i].Shows?)
    ensures inv(harvested, LastMerged(previous, scrolls, taken), scrolls[taken..], steps + taken,
                Top(top, tops, taken), tops[taken..])
    ensures Stops(plain, harvested, previous, scrolls, lines, steps, taken)
    decreases taken
  {
    if taken == 0 {
      assert scrolls[0..] == scrolls && tops[0..] == tops;
    } else {
      var rest, left := scrolls[1..], tops[1..];
      MergesMeans(plain, inv, harvested, scrolls[0].rows, rest, lines, steps + 1, tops[0], left, taken - 1);
      assert rest[taken - 1..] == scrolls[taken..] && left[taken - 1..] == tops[taken..];
      assert taken > 1 ==> rest[taken - 2] == scrolls[taken - 1] && left[taken - 2] == tops[taken - 1];
      forall i | 0 <= i < taken ensures scrolls[i].Shows? { assert i > 0 ==> rest[i - 1] == scrolls[i]; }
    }
  }

  // ---- the loop on a transcript ----

  /** A snapshot is a window that moved up and shares three rows with the one before, or the same view again. */
  ghost predicate Scrolled(plain: Plainer, previous: seq<string>, scroll: Scroll, t: Screen, lo: nat, top: (nat, nat)) {
    || scroll.Ends?
    || Plain(plain, scroll.rows) == Plain(plain, previous)
    || (top.0 < lo && lo + 3 <= top.1 && ShowsWindow(plain, scroll.rows, t, top.0, top.1))
  }

  ghost predicate AllScrolled(
    plain: Plainer, previous: seq<string>, scrolls: seq<Scroll>, t: Screen, lo: nat, tops: seq<(nat, nat)>)
    decreases |scrolls|
  {
    |tops| == |scrolls| && (scrolls != [] ==>
      && Scrolled(plain, previous, scrolls[0], t, lo, tops[0])
      && (Moves(plain, previous, scrolls[0]) ==>
            AllScrolled(plain, scrolls[0].rows, scrolls[1..], t, tops[0].0, tops[1..])))
  }

  /** A scroll that shows something new extends the run to its top. */
  lemma HarvestStep(
    plain: Plainer, history: seq<string>, previous: seq<string>, scrolls: seq<Scroll>, lines: nat, steps: nat,
    t: Screen, top: (nat, nat), end: nat, tops: seq<(nat, nat)>)
    returns (merged: seq<string>)
    requires Readable(t.transcript, t.footer) && top.0 + 3 <= top.1 && top.0 < end
    requires ShowsWindow(plain, history, t, top.0, end) && ShowsWindow(plain, previous, t, top.0, top.1)
    requires AllScrolled(plain, previous, scrolls, t, top.0, tops)
    requires !Stops(plain, history, previous, scrolls, lines, steps, 0)
    ensures tops[0].0 + 3 <= tops[0].1 && tops[0].0 < end && ShowsWindow(plain, merged, t, tops[0].0, end)
    ensures ShowsWindow(plain, scrolls[0].rows, t, tops[0].0, tops[0].1)
    ensures AllScrolled(plain, scrolls[0].rows, scrolls[1..], t, tops[0].0, tops[1..])
    ensures Harvest(plain, history, previous, scrolls, lines, steps)
         == Harvest(plain, merged, scrolls[0].rows, scrolls[1..], lines, steps + 1)
  {
    assert Scrolled(plain, previous, scrolls[0], t, top.0, tops[0]) && Moves(plain, previous, scrolls[0]);
    MergeExtends(plain, history, previous, scrolls[0].rows, t, top.0, top.1, end, tops[0].0, tops[0].1);
    merged := MergeUp(plain, history, previous, scrolls[0].rows).0;
    HarvestGoesOn(plain, history, previous, scrolls, lines, steps, merged, top.0 - tops[0].0);
  }

  /** The history is one run from the top of the last snapshot on, and the loop leads on to its result. */
  ghost function OnTranscript(plain: Plainer, t: Screen, end: nat, lines: nat, harvested: seq<string>): Invariant {
    (history: seq<string>, previous: seq<string>, scrolls: seq<Scroll>, steps: nat,
     top: (nat, nat), tops: seq<(nat, nat)>) =>
      && top.0 + 3 <= top.1 && top.0 < end && AllScrolled(plain, previous, scrolls, t, top.0, tops)
      && ShowsWindow(plain, history, t, top.0, end) && ShowsWindow(plain, previous, t, top.0, top.1)
      && Harvest(plain, history, previous, scrolls, lines, steps) == harvested
  }

  lemma TranscriptKept(plain: Plainer, t: Screen, end: nat, lines: nat, harvested: seq<string>)
    requires Readable(t.transcript, t.footer)
    ensures Kept(plain, OnTranscript(plain, t, end, lines, harvested), harvested, lines)
  {
    var inv := OnTranscript(plain, t, end, lines, harvested);
    forall history: seq<string>, previous: seq<string>, scrolls: seq<Scroll>, steps: nat,
           top: (nat, nat), tops: seq<(nat, nat)>
      ensures KeptBy(plain, inv, harvested, lines, history, previous, scrolls, steps, top, tops)
    {
      if inv(history, previous, scrolls, steps, top, tops) {
        if Stops(plain, history, previous, scrolls, lines, steps, 0) {
          HarvestStops(plain, history, previous, scrolls, lines, steps);
        } else {
          var merged := HarvestStep(plain, history, previous, scrolls, lines, steps, t, top, end, tops);
          assert Continues(inv, merged, scrolls, steps, tops);
        }
      }
    }
  }

  /**
    The loop merges scrolls until a bound, an end or an unchanged view stops it, and leaves the header,
    one contiguous run of the transcript from the top of the last snapshot it merged to where the first
    one ended, and the footer.
   */
  lemma HarvestIsOneRun(
    plain: Plainer, initial: seq<string>, scrolls: seq<Scroll>, lines: nat, t: Screen, lo: nat, hi: nat,
    tops: seq<(nat, nat)>)
    returns (taken: nat)
    requires Readable(t.transcript, t.footer) && lo + 3 <= hi
    requires ShowsWindow(plain, initial, t, lo, hi) && AllScrolled(plain, initial, scrolls, t, lo, tops)
    ensures taken <= |scrolls| && forall i :: 0 <= i < taken ==> scrolls[i].Shows?
    ensures var harvested := Harvest(plain, initial, initial, scrolls, lines, 0);
            && ShowsWindow(plain, harvested, t, Top((lo, hi), tops, taken).0, hi)
            && Stops(plain, harvested, initial, scrolls, lines, 0, taken)
  {
    var harvested := Harvest(plain, initial, initial, scrolls, lines, 0);
    var inv := OnTranscript(plain, t, hi, lines, harvested);
    TranscriptKept(plain, t, hi, lines, harvested);
    taken := LoopMerges(plain, inv, harvested, initial, initial, scrolls, lines, 0, (lo, hi), tops);
    MergesMeans(plain, inv, harvested, initial, scrolls, lines, 0, (lo, hi), tops, taken);
  }
}
