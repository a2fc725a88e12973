/**
  What a client of the conversation feed accumulates over every run of resets,
  appends and tombstones.
 */
module ConversationRuns {
  import opened Text
  import opened ConversationFeed

  /** A client that replaces its list on a reset and extends it otherwise. */
  function Fold(list: seq<Entry>, push: Push): seq<Entry> {
    if !push.accepted then list else if push.reset then push.entries else list + push.entries
  }

  function FoldAll(pushes: seq<Push>): seq<Entry> {
    if pushes == [] then [] else
      var n := |pushes| - 1;
      Fold(FoldAll(pushes[..n]), pushes[n])
  }

  predicate MatchesAt(sig: Sig, k: nat, entry: Entry)
    requires k < |sig.ids| && k < |sig.digests|
  {
    sig.ids[k] == entry.id && (sig.digests[k] == Zero || sig.digests[k] == DigestOf(entry))
  }

  /** The entries carry the ids of the signature, and their digests where it has any. */
  ghost predicate Matches(sig: Sig, entries: seq<Entry>) {
    && |sig.ids| == |sig.digests| == |entries|
    && forall k: nat :: k < |entries| ==> MatchesAt(sig, k, entries[k])
  }

  /** The last page sent is what the list ends in. */
  ghost predicate EndsIn(sig: Sig, list: seq<Entry>) {
    |sig.ids| <= |list| && Matches(sig, list[|list| - |sig.ids|..])
  }

  lemma PageMatches(page: Page)
    ensures Matches(SigOf(page), page.entries)
  {
  }

  /** The overlap of m entries matches at the end of the list as it did in the previous page. */
  lemma OverlapMatches(prev: Sig, sig: Sig, list: seq<Entry>, m: nat, k: nat)
    requires EndsIn(prev, list) && k < m <= |prev.ids| && m <= |sig.ids| == |sig.digests|
    requires sig.ids[..m] == prev.ids[|prev.ids| - m..] && sig.digests[..m] == prev.digests[|prev.ids| - m..]
    ensures MatchesAt(sig, k, list[|list| - m + k])
  {
    var at := |prev.ids| - m + k;
    assert sig.ids[..m][k] == prev.ids[at] && sig.digests[..m][k] == prev.digests[at];
    assert MatchesAt(prev, at, list[|list| - |prev.ids|..][at]);
  }

  lemma AppendEndsIn(prev: Sig, sig: Sig, entries: seq<Entry>, list: seq<Entry>, m: nat)
    requires EndsIn(prev, list) && Matches(sig, entries) && m <= |prev.ids| && m <= |entries|
    requires sig.ids[..m] == prev.ids[|prev.ids| - m..] && sig.digests[..m] == prev.digests[|prev.ids| - m..]
    ensures EndsIn(sig, list + entries[m..])
  {
    var next := list + entries[m..];
    var tail := next[|next| - |entries|..];
    forall k: nat | k < |tail| ensures MatchesAt(sig, k, tail[k]) {
      assert tail[k] == next[|list| - m + k];
      if k < m {
        OverlapMatches(prev, sig, list, m, k);
      } else {
        assert MatchesAt(sig, k, entries[k]);
      }
    }
  }

  /** The list ends in the last page sent. */
  ghost predicate Kept(last: Option<LastRead>, list: seq<Entry>) {
    last.Some? ==> EndsIn(last.value.sig, list)
  }

  lemma AppendedPage(prev: Sig, page: Page, list: seq<Entry>)
    requires EndsIn(prev, list) && AppendDelta(prev, SigOf(page), page.entries).Some?
    ensures EndsIn(SigOf(page), list + AppendDelta(prev, SigOf(page), page.entries).value)
  {
    PageMatches(page);
    AppendEndsIn(prev, SigOf(page), page.entries, list, Position(SigOf(page).ids, prev.ids[|prev.ids| - 1]) + 1);
  }

  lemma TakeKeepsSuffix(disks: Timeline, browse: Browser, last: Option<LastRead>, turn: Turn, list: seq<Entry>)
    requires Kept(last, list)
    ensures var (next, pushes) := Take(disks, browse, last, turn);
            && |pushes| <= 1
            && Kept(next, if pushes == [] then list else Fold(list, pushes[0]))
  {
    var (next, pushes) := Take(disks, browse, last, turn);
    if turn.LiveTurn? && pushes != [] && pushes[0].accepted {
      var page := browse(turn.generation, turn.tuple, disks(turn.readAt));
      PageMatches(page);
      if pushes[0].reset {
        assert page.entries[|page.entries| - |SigOf(page).ids|..] == page.entries;
      } else {
        AppendedPage(last.value.sig, page, list);
      }
    }
  }

  lemma FoldMore(log: seq<Push>, pushes: seq<Push>)
    requires |pushes| <= 1
    ensures FoldAll(log + pushes) == if pushes == [] then FoldAll(log) else Fold(FoldAll(log), pushes[0])
  {
    if pushes == [] { assert log + pushes == log; } else { assert (log + pushes)[..|log|] == log; }
  }

  /** In every run the last page sent is a suffix of the client's list, by id and by digest. */
  lemma {:induction false} LastPageIsSuffix(disks: Timeline, browse: Browser, turns: seq<Turn>)
    ensures var (last, log) := Run(disks, browse, turns); Kept(last, FoldAll(log))
    decreases |turns|
  {
    if turns != [] {
      var n := |turns| - 1;
      var (last, log) := Run(disks, browse, turns[..n]);
      LastPageIsSuffix(disks, browse, turns[..n]);
      TakeKeepsSuffix(disks, browse, last, turns[n], FoldAll(log));
      FoldMore(log, Take(disks, browse, last, turns[n]).1);
    }
  }

  // ---- resets come first ----

  function AcceptedOnly(log: seq<Push>): seq<Push> {
    if log == [] then [] else
      var n := |log| - 1;
      if log[n].accepted then AcceptedOnly(log[..n]) + [log[n]] else AcceptedOnly(log[..n])
  }

  /** What the relay remembers is what it last got accepted. */
  ghost predicate Remembers(last: Option<LastRead>, frames: seq<Push>) {
    if frames == [] then last == None
    else last.Some? && last.value.generation == frames[|frames| - 1].generation
         && (last.value.sig.resolved <==> !frames[|frames| - 1].tombstone)
  }

  /** An append continues a page of the same generation. */
  ghost predicate AppendsContinue(frames: seq<Push>) {
    forall j :: 0 <= j < |frames| && !frames[j].reset ==>
      j > 0 && frames[j].generation == frames[j - 1].generation && !frames[j - 1].tombstone
  }

  lemma AcceptedMore(log: seq<Push>, pushes: seq<Push>)
    requires |pushes| <= 1
    ensures AcceptedOnly(log + pushes)
         == if pushes != [] && pushes[0].accepted then AcceptedOnly(log) + [pushes[0]] else AcceptedOnly(log)
  {
    if pushes == [] { assert log + pushes == log; } else { assert (log + pushes)[..|log|] == log; }
  }

  lemma AppendsMore(frames: seq<Push>, push: Push)
    requires AppendsContinue(frames)
    requires push.reset || (frames != [] && var last := frames[|frames| - 1];
                            last.generation == push.generation && !last.tombstone)
    ensures AppendsContinue(frames + [push])
  {
  }

  /** A push that is not a reset continues the page the relay remembers. */
  lemma PushContinues(disks: Timeline, browse: Browser, last: Option<LastRead>, turn: Turn)
    ensures var (next, pushes) := Take(disks, browse, last, turn);
            && |pushes| <= 1
            && (pushes == [] || !pushes[0].accepted ==>
                  next.Some? == last.Some? && (last.Some? ==>
                    next.value.generation == last.value.generation && next.value.sig == last.value.sig))
            && (pushes != [] && !pushes[0].reset ==>
                  last.Some? && last.value.generation == pushes[0].generation && last.value.sig.resolved)
            && (pushes != [] && pushes[0].accepted ==>
                  next.Some? && next.value.generation == pushes[0].generation
                  && (next.value.sig.resolved <==> !pushes[0].tombstone))
  {
  }

  lemma TakeRemembers(disks: Timeline, browse: Browser, last: Option<LastRead>, turn: Turn, frames: seq<Push>)
    requires Remembers(last, frames) && AppendsContinue(frames)
    ensures var (next, pushes) := Take(disks, browse, last, turn);
            var more := if pushes != [] && pushes[0].accepted then frames + [pushes[0]] else frames;
            |pushes| <= 1 && Remembers(next, more) && AppendsContinue(more)
  {
    PushContinues(disks, browse, last, turn);
    var pushes := Take(disks, browse, last, turn).1;
    if pushes != [] { AppendsMore(frames, pushes[0]); }
  }

  /** After a tombstone or a generation change no append precedes a reset, in every run. */
  lemma {:induction false} ResetComesFirst(disks: Timeline, browse: Browser, turns: seq<Turn>)
    ensures var (last, log) := Run(disks, browse, turns);
            Remembers(last, AcceptedOnly(log)) && AppendsContinue(AcceptedOnly(log))
    decreases |turns|
  {
    if turns != [] {
      var n := |turns| - 1;
      var (last, log) := Run(disks, browse, turns[..n]);
      ResetComesFirst(disks, browse, turns[..n]);
      TakeRemembers(disks, browse, last, turns[n], AcceptedOnly(log));
      AcceptedMore(log, Take(disks, browse, last, turns[n]).1);
    }
  }

  // ---- transcripts ----

  ghost predicate UniqueIds(transcript: seq<Entry>) {
    forall i, j :: 0 <= i < j < |transcript| ==> transcript[i].id != transcript[j].id
  }

  /** The same entries by id, and as to `part`: everything, or whatever no edit in place changes. */
  ghost predicate Alike<U>(part: Entry -> U, a: seq<Entry>, b: seq<Entry>) {
    |a| == |b| && forall k :: 0 <= k < |a| ==> a[k].id == b[k].id && part(a[k]) == part(b[k])
  }

  /**
    An id stands for all that was said up to it: two transcripts that share an id are alike up to there,
    as a transcript and its continuation are, or a fork, or two that have nothing in common.
   */
  ghost predicate Agree<U>(part: Entry -> U, a: seq<Entry>, b: seq<Entry>) {
    forall i, j :: 0 <= i < |a| && 0 <= j < |b| && a[i].id == b[j].id ==> i == j && Alike(part, a[..i + 1], b[..i + 1])
  }

  /** The page is a window of the transcript that ends at `hi`. */
  predicate IsWindow(page: Page, transcript: seq<Entry>, lo: nat, hi: nat) {
    lo <= hi <= |transcript| && page.entries == transcript[lo..hi]
  }

  /** A signature and the entries it stands for, read off a window. */
  ghost predicate IsPage(sig: Sig, entries: seq<Entry>, transcript: seq<Entry>, lo: nat, hi: nat) {
    && lo <= hi <= |transcript| && entries == transcript[lo..hi]
    && sig.ids == Ids(entries) && |sig.digests| == |entries|
  }

  /** The phone drops appended entries whose id it already has. */
  function DropKnown(list: seq<Entry>, appended: seq<Entry>): seq<Entry> {
    if appended == [] then [] else
      var n := |appended| - 1;
      if appended[n].id in Ids(list) then DropKnown(list, appended[..n])
      else DropKnown(list, appended[..n]) + [appended[n]]
  }

  /** The phone's merge is a plain append exactly when no appended id is known. */
  lemma {:induction false} MergeIsAppend(list: seq<Entry>, appended: seq<Entry>)
    ensures |DropKnown(list, appended)| <= |appended|
    ensures DropKnown(list, appended) == appended <==> forall k :: 0 <= k < |appended| ==> appended[k].id !in Ids(list)
    decreases |appended|
  {
    if appended != [] {
      var n := |appended| - 1;
      MergeIsAppend(list, appended[..n]);
      assert appended == appended[..n] + [appended[n]];
      if appended[n].id in Ids(list) {
        assert |DropKnown(list, appended)| < |appended|;
      } else if DropKnown(list, appended) == appended {
        assert DropKnown(list, appended[..n]) == DropKnown(list, appended)[..n];
        assert forall k :: 0 <= k < n ==> appended[k] == appended[..n][k];
      }
    }
  }

  function PhoneFold(list: seq<Entry>, push: Push): seq<Entry> {
    if !push.accepted then list else if push.reset then push.entries else list + DropKnown(list, push.entries)
  }

  /** An append found between two windows ships exactly the entries between their ends, of the second transcript. */
  lemma AppendIsTail<U>(
    part: Entry -> U, was: seq<Entry>, now: seq<Entry>, prev: Sig, sig: Sig, entries: seq<Entry>,
    lo: nat, hi: nat, lo': nat, hi': nat)
    requires Agree(part, was, now) && lo <= hi <= |was| && prev.ids == Ids(was[lo..hi])
    requires IsPage(sig, entries, now, lo', hi') && AppendDelta(prev, sig, entries).Some?
    ensures lo <= lo' && hi <= hi' && Alike(part, was[..hi], now[..hi])
    ensures AppendDelta(prev, sig, entries).value == now[hi..hi']
  {
    var pos := Position(sig.ids, was[hi - 1].id);
    AnchorStands(was, now, prev, sig, entries, lo, hi, lo', hi', pos);
    TailAfter(part, was, now, entries, lo, hi, lo', hi', pos);
  }

  lemma TailAfter<U>(
    part: Entry -> U, was: seq<Entry>, now: seq<Entry>, entries: seq<Entry>,
    lo: nat, hi: nat, lo': nat, hi': nat, pos: nat)
    requires Agree(part, was, now) && lo < hi <= |was| && lo' <= hi' <= |now| && entries == now[lo'..hi']
    requires pos < |entries| && pos + 1 <= hi - lo && was[hi - 1].id == now[lo' + pos].id
    ensures lo <= lo' && hi <= hi' && Alike(part, was[..hi], now[..hi]) && entries[pos + 1..] == now[hi..hi']
  {
    assert lo' + pos == hi - 1;
  }

  /** The last id of the one page is found in the other where the second transcript has it. */
  lemma AnchorStands(
    was: seq<Entry>, now: seq<Entry>, prev: Sig, sig: Sig, entries: seq<Entry>,
    lo: nat, hi: nat, lo': nat, hi': nat, pos: nat)
    requires lo < hi <= |was| && prev.ids == Ids(was[lo..hi]) && pos == Position(sig.ids, was[hi - 1].id)
    requires IsPage(sig, entries, now, lo', hi')
    ensures prev.ids[|prev.ids| - 1] == was[hi - 1].id
    ensures pos < |entries| ==> now[lo' + pos].id == was[hi - 1].id
  {
    assert prev.ids[|prev.ids| - 1] == was[lo..hi][hi - lo - 1].id;
    assert pos < |entries| ==> sig.ids[pos] == entries[pos].id;
  }

  /** The second window starts inside the first, or where it starts, and ends later, and the first one's end stands. */
  predicate Slides(was: seq<Entry>, now: seq<Entry>, lo: nat, hi: nat, lo': nat, hi': nat) {
    lo <= lo' < hi < hi' && hi <= |was| && hi <= |now| && was[hi - 1].id == now[hi - 1].id
  }

  /** The entries both pages show have the digests they had. */
  predicate OverlapUnchanged(prev: Sig, sig: Sig, shared: nat) {
    && shared <= |prev.digests| && shared <= |sig.digests|
    && prev.digests[|prev.digests| - shared..] == sig.digests[..shared]
  }

  lemma AnchorAt<U>(part: Entry -> U, now: seq<Entry>, sig: Sig, entries: seq<Entry>, lo: nat, hi: nat, x: nat)
    requires Agree(part, now, now) && IsPage(sig, entries, now, lo, hi) && lo <= x < hi
    ensures Position(sig.ids, now[x].id) == x - lo
  {
    var ids := sig.ids;
    assert ids[x - lo] == entries[x - lo].id == now[x].id;
    forall i | 0 <= i < x - lo ensures ids[i] != now[x].id {
      assert ids[i] == entries[i].id == now[lo + i].id;
    }
    FirstPosition(ids, now[x].id, x - lo);
  }

  lemma {:induction false} FirstPosition(ids: seq<string>, id: string, k: nat)
    requires k < |ids| && ids[k] == id && forall i :: 0 <= i < k ==> ids[i] != id
    ensures Position(ids, id) == k
    decreases k
  {
    if k > 0 { FirstPosition(ids[1..], id, k - 1); }
  }

  /** The ids the two windows share are the same on both pages. */
  lemma SharedIds<U>(part: Entry -> U, was: seq<Entry>, now: seq<Entry>, prev: Sig, sig: Sig, entries: seq<Entry>,
                     lo: nat, hi: nat, lo': nat, hi': nat)
    requires Agree(part, was, now) && Slides(was, now, lo, hi, lo', hi')
    requires prev.ids == Ids(was[lo..hi]) && IsPage(sig, entries, now, lo', hi')
    ensures hi - lo' <= |sig.ids| && sig.ids[..hi - lo'] == prev.ids[lo' - lo..]
  {
    assert forall x: nat | x < hi :: was[x].id == now[x].id by { SameIdsBelow(part, was, now, hi); }
    SliceIds(was, now, prev.ids, sig.ids, lo, hi, lo', hi');
  }

  lemma SameIdsBelow<U>(part: Entry -> U, was: seq<Entry>, now: seq<Entry>, hi: nat)
    requires Agree(part, was, now) && 0 < hi <= |was| && hi <= |now| && was[hi - 1].id == now[hi - 1].id
    ensures forall x: nat | x < hi :: was[x].id == now[x].id
  {
    assert Alike(part, was[..hi], now[..hi]);
    forall x: nat | x < hi ensures was[x].id == now[x].id {
      assert was[..hi][x].id == now[..hi][x].id;
    }
  }

  lemma SliceIds(
    was: seq<Entry>, now: seq<Entry>, before: seq<string>, ids: seq<string>, lo: nat, hi: nat, lo': nat, hi': nat)
    requires lo <= lo' <= hi <= hi' <= |now| && hi <= |was| && forall x: nat | x < hi :: was[x].id == now[x].id
    requires before == Ids(was[lo..hi]) && ids == Ids(now[lo'..hi'])
    ensures ids[..hi - lo'] == before[lo' - lo..]
  {
    forall i | 0 <= i < hi - lo' ensures ids[i] == before[lo' - lo + i] {
      assert ids[i] == now[lo'..hi'][i].id == now[lo' + i].id;
      assert before[lo' - lo + i] == was[lo..hi][lo' - lo + i].id == was[lo' + i].id;
    }
  }

  /** What `append_delta` asks once the anchor is found at `pos`. */
  lemma AppendAt(prev: Sig, sig: Sig, entries: seq<Entry>, pos: nat)
    requires |sig.ids| == |sig.digests| == |entries| && |prev.digests| == |prev.ids| && prev.ids != []
    requires pos == Position(sig.ids, prev.ids[|prev.ids| - 1])
    ensures AppendDelta(prev, sig, entries).Some? <==>
              && pos + 1 < |entries| && pos + 1 <= |prev.ids|
              && sig.ids[..pos + 1] == prev.ids[|prev.ids| - (pos + 1)..] && OverlapUnchanged(prev, sig, pos + 1)
  {
  }

  /** What `append_delta` found at `pos` puts the second window where the first one ends. */
  lemma FoundSlides<U>(
    part: Entry -> U, was: seq<Entry>, now: seq<Entry>, prev: Sig, sig: Sig, entries: seq<Entry>,
    lo: nat, hi: nat, lo': nat, hi': nat, pos: nat)
    requires Agree(part, was, now) && lo < hi <= |was|
    requires prev.ids == Ids(was[lo..hi]) && |prev.digests| == |prev.ids| && IsPage(sig, entries, now, lo', hi')
    requires pos == Position(sig.ids, was[hi - 1].id) && pos + 1 < |entries| && pos + 1 <= |prev.ids|
    ensures Slides(was, now, lo, hi, lo', hi') && pos + 1 == hi - lo'
  {
    AnchorStands(was, now, prev, sig, entries, lo, hi, lo', hi', pos);
    TailAfter(part, was, now, entries, lo, hi, lo', hi', pos);
  }

  lemma AppendSlides<U>(
    part: Entry -> U, was: seq<Entry>, now: seq<Entry>, prev: Sig, sig: Sig, entries: seq<Entry>,
    lo: nat, hi: nat, lo': nat, hi': nat)
    requires Agree(part, was, now) && lo < hi <= |was|
    requires prev.ids == Ids(was[lo..hi]) && |prev.digests| == |prev.ids| && IsPage(sig, entries, now, lo', hi')
    requires AppendDelta(prev, sig, entries).Some?
    ensures Slides(was, now, lo, hi, lo', hi') && OverlapUnchanged(prev, sig, hi - lo')
  {
    var pos := Position(sig.ids, was[hi - 1].id);
    AnchorStands(was, now, prev, sig, entries, lo, hi, lo', hi', pos);
    AppendAt(prev, sig, entries, pos);
    FoundSlides(part, was, now, prev, sig, entries, lo, hi, lo', hi', pos);
  }

  lemma SlideFinds<U>(
    part: Entry -> U, was: seq<Entry>, now: seq<Entry>, prev: Sig, sig: Sig, entries: seq<Entry>,
    lo: nat, hi: nat, lo': nat, hi': nat)
    requires Agree(part, was, now) && Agree(part, now, now) && lo < hi <= |was|
    requires prev.ids == Ids(was[lo..hi]) && IsPage(sig, entries, now, lo', hi') && Slides(was, now, lo, hi, lo', hi')
    ensures prev.ids != [] && Position(sig.ids, prev.ids[|prev.ids| - 1]) == hi - 1 - lo' < |entries| - 1
    ensures hi - lo' <= |prev.ids| && sig.ids[..hi - lo'] == prev.ids[|prev.ids| - (hi - lo')..]
  {
    var shared := hi - lo';
    assert |prev.ids| == hi - lo && |sig.ids| == |entries| == hi' - lo';
    assert Position(sig.ids, now[hi - 1].id) == shared - 1 by { AnchorAt(part, now, sig, entries, lo', hi', hi - 1); }
    assert prev.ids[|prev.ids| - 1] == now[hi - 1].id by {
      AnchorStands(was, now, prev, sig, entries, lo, hi, lo', hi', Position(sig.ids, was[hi - 1].id));
    }
    assert sig.ids[..shared] == prev.ids[lo' - lo..] by {
      SharedIds(part, was, now, prev, sig, entries, lo, hi, lo', hi');
    }
  }

  lemma SlideAppends<U>(
    part: Entry -> U, was: seq<Entry>, now: seq<Entry>, prev: Sig, sig: Sig, entries: seq<Entry>,
    lo: nat, hi: nat, lo': nat, hi': nat)
    requires Agree(part, was, now) && Agree(part, now, now) && lo < hi <= |was|
    requires prev.ids == Ids(was[lo..hi]) && |prev.digests| == |prev.ids| && IsPage(sig, entries, now, lo', hi')
    requires Slides(was, now, lo, hi, lo', hi') && OverlapUnchanged(prev, sig, hi - lo')
    ensures AppendDelta(prev, sig, entries).Some?
  {
    SlideFinds(part, was, now, prev, sig, entries, lo, hi, lo', hi');
    AppendAt(prev, sig, entries, hi - 1 - lo');
  }

  /** An append is found exactly when the window slid and nothing both pages show was edited; it ships the rest. */
  lemma AppendExactly<U>(
    part: Entry -> U, was: seq<Entry>, now: seq<Entry>, prev: Sig, sig: Sig, entries: seq<Entry>,
    lo: nat, hi: nat, lo': nat, hi': nat)
    requires Agree(part, was, now) && Agree(part, now, now) && lo <= hi <= |was|
    requires prev.ids == Ids(was[lo..hi]) && |prev.digests| == |prev.ids| && IsPage(sig, entries, now, lo', hi')
    ensures AppendDelta(prev, sig, entries)
         == if Slides(was, now, lo, hi, lo', hi') && OverlapUnchanged(prev, sig, hi - lo')
            then Some(now[hi..hi']) else None
  {
    if AppendDelta(prev, sig, entries).Some? {
      AppendSlides(part, was, now, prev, sig, entries, lo, hi, lo', hi');
      AppendIsTail(part, was, now, prev, sig, entries, lo, hi, lo', hi');
    } else if Slides(was, now, lo, hi, lo', hi') && OverlapUnchanged(prev, sig, hi - lo') {
      SlideAppends(part, was, now, prev, sig, entries, lo, hi, lo', hi');
    }
  }

  lemma NewIdsAreUnknown(transcript: seq<Entry>, list: seq<Entry>, start: nat, hi: nat, hi': nat)
    requires UniqueIds(transcript) && start <= hi <= hi' <= |transcript| && |list| == hi - start
    requires forall i :: 0 <= i < |list| ==> list[i].id == transcript[start + i].id
    ensures DropKnown(list, transcript[hi..hi']) == transcript[hi..hi']
  {
    var appended := transcript[hi..hi'];
    forall k | 0 <= k < |appended| ensures appended[k].id !in Ids(list) {
      forall i | 0 <= i < |list| ensures Ids(list)[i] != appended[k].id {
        assert Ids(list)[i] == transcript[start + i].id && appended[k] == transcript[hi + k];
      }
    }
    MergeIsAppend(list, appended);
  }

  /** A list like one run of a transcript, with the entries that follow it, is like the longer run. */
  lemma AppendHolds<U>(part: Entry -> U, transcript: seq<Entry>, list: seq<Entry>, start: nat, hi: nat, hi': nat)
    requires UniqueIds(transcript) && start <= hi <= hi' <= |transcript| && Alike(part, list, transcript[start..hi])
    ensures Alike(part, list + DropKnown(list, transcript[hi..hi']), transcript[start..hi'])
  {
    forall i | 0 <= i < |list| ensures list[i].id == transcript[start + i].id {
      assert transcript[start..hi][i] == transcript[start + i];
    }
    NewIdsAreUnknown(transcript, list, start, hi, hi');
    AlikeAppend(part, list, transcript[start..hi], transcript[hi..hi']);
    assert transcript[start..hi'] == transcript[start..hi] + transcript[hi..hi'];
  }

  lemma AlikeAppend<U>(part: Entry -> U, a: seq<Entry>, b: seq<Entry>, tail: seq<Entry>)
    requires Alike(part, a, b)
    ensures Alike(part, a + tail, b + tail)
  {
  }

  function PhoneAll(pushes: seq<Push>): seq<Entry> {
    if pushes == [] then [] else
      var n := |pushes| - 1;
      PhoneFold(PhoneAll(pushes[..n]), pushes[n])
  }

  /** The phone's list is like the run from `start` to the end of the page last sent, and reaches over that page. */
  ghost predicate Holds<U>(
    part: Entry -> U, transcript: seq<Entry>, window: (nat, nat), page: Page, sig: Sig, list: seq<Entry>, start: nat)
  {
    && IsWindow(page, transcript, window.0, window.1) && sig == SigOf(page)
    && start <= window.0 && Alike(part, list, transcript[start..window.1])
  }

  lemma AlikeAcross<U>(part: Entry -> U, list: seq<Entry>, was: seq<Entry>, now: seq<Entry>, start: nat, hi: nat)
    requires start <= hi <= |was| && hi <= |now|
    requires Alike(part, list, was[start..hi]) && Alike(part, was[..hi], now[..hi])
    ensures Alike(part, list, now[start..hi])
  {
    forall k | 0 <= k < |list| ensures list[k].id == now[start..hi][k].id && part(list[k]) == part(now[start..hi][k]) {
      assert was[start..hi][k] == was[..hi][start + k] && now[start..hi][k] == now[..hi][start + k];
    }
  }

  /** A decided page carries the phone from one transcript to the next. */
  lemma DecisionHolds<U>(
    part: Entry -> U, last: Option<LastRead>, generation: int, list: seq<Entry>,
    was: seq<Entry>, window: (nat, nat), page: Page, start: nat, now: seq<Entry>, window': (nat, nat), page': Page)
    returns (start': nat)
    requires IsWindow(page', now, window'.0, window'.1) && Agree(part, now, now)
    requires last.Some? && last.value.sig.resolved && last.value.generation == generation ==>
               && Holds(part, was, window, page, last.value.sig, list, start)
               && (page.sourceRevision == page'.sourceRevision ==> Agree(part, was, now))
    requires Decide(last, generation, SigOf(page'), page'.entries).Some?
    ensures var (entries, reset) := Decide(last, generation, SigOf(page'), page'.entries).value;
            && Holds(part, now, window', page', SigOf(page'),
                     PhoneFold(list, Push(generation, entries, reset, false, true)), start')
            && start' == if reset then window'.0 else start
  {
    DecideShape(last, generation, SigOf(page'), page'.entries);
    var (entries, reset) := Decide(last, generation, SigOf(page'), page'.entries).value;
    if reset {
      start' := window'.0;
    } else {
      start' := start;
      AppendIsTail(part, was, now, last.value.sig, SigOf(page'), page'.entries,
                   window.0, window.1, window'.0, window'.1);
      AlikeAcross(part, list, was, now, start, window.1);
      AppendHolds(part, now, list, start, window.1, window'.1);
    }
  }

  /** A decision ships the whole page as a reset, or the appended tail. */
  lemma DecideShape(last: Option<LastRead>, generation: int, sig: Sig, entries: seq<Entry>)
    requires |sig.ids| == |sig.digests| == |entries| && Decide(last, generation, sig, entries).Some?
    ensures var (shipped, reset) := Decide(last, generation, sig, entries).value;
            if reset then shipped == entries
            else
              && last.Some? && last.value.sig.resolved && last.value.generation == generation
              && last.value.sig.sourceRevision == sig.sourceRevision
              && AppendDelta(last.value.sig, sig, entries) == Some(shipped)
  {
  }

  /** The page continues what was last sent: same generation, source, availability and reason. */
  predicate ContinuesLast(last: Option<LastRead>, generation: int, sig: Sig) {
    && last.Some? && last.value.sig.resolved && last.value.generation == generation
    && last.value.sig.sourceRevision == sig.sourceRevision && last.value.sig.available == sig.available
    && last.value.sig.reasonCode == sig.reasonCode
  }

  /**
    A decision ships nothing exactly when the page is the one last sent; otherwise it appends exactly
    when the page continues it and an append is found, and else resets with the whole page.
   */
  lemma DecideExactly(last: Option<LastRead>, generation: int, sig: Sig, entries: seq<Entry>)
    requires |sig.ids| == |sig.digests| == |entries|
    ensures var decided := Decide(last, generation, sig, entries);
            if ContinuesLast(last, generation, sig) then
              var appended := AppendDelta(last.value.sig, sig, entries);
              decided == if last.value.sig == sig then None
                         else if appended.Some? then Some((appended.value, false)) else Some((entries, true))
            else decided == Some((entries, true))
  {
  }

  /** Native pages with one signature have the same entries; flat ones the same ids, and the same tool entries. */
  lemma EqualSigsMeanEqualPages(p: Page, q: Page)
    requires SigOf(p) == SigOf(q) && p.native == q.native
    ensures p.available == q.available && p.reasonCode == q.reasonCode && p.sourceRevision == q.sourceRevision
    ensures p.total == q.total && |p.entries| == |q.entries|
    ensures forall i :: 0 <= i < |p.entries| ==>
              && p.entries[i].id == q.entries[i].id
              && (p.native || p.entries[i].hasTools || q.entries[i].hasTools ==> p.entries[i] == q.entries[i])
  {
    assert Ids(p.entries) == Ids(q.entries) && Digests(p.native, p.entries) == Digests(q.native, q.entries);
    forall i | 0 <= i < |p.entries|
      ensures p.entries[i].id == q.entries[i].id
      ensures p.native || p.entries[i].hasTools || q.entries[i].hasTools ==> p.entries[i] == q.entries[i]
    {
      assert Ids(p.entries)[i] == Ids(q.entries)[i];
      assert Digests(p.native, p.entries)[i] == Digests(q.native, q.entries)[i];
    }
  }

  lemma PhoneMore(log: seq<Push>, pushes: seq<Push>)
    requires |pushes| <= 1
    ensures PhoneAll(log + pushes) == if pushes == [] then PhoneAll(log) else PhoneFold(PhoneAll(log), pushes[0])
  {
    if pushes == [] { assert log + pushes == log; } else { assert (log + pushes)[..|log|] == log; }
  }

  /** What a turn reads: a window of some transcript. */
  datatype Source = Source(transcript: seq<Entry>, window: (nat, nat))

  predicate Reads(turn: Turn) { turn.LiveTurn? && turn.answered }

  predicate ReadsWindow(disks: Timeline, browse: Browser, turn: Turn, source: Source)
    requires Reads(turn)
  {
    IsWindow(PageAt(disks, browse, turn), source.transcript, source.window.0, source.window.1)
  }

  /** Two reads of one source, under one generation. */
  predicate SameSource(disks: Timeline, browse: Browser, a: Turn, b: Turn) {
    && Reads(a) && Reads(b) && a.generation == b.generation
    && PageAt(disks, browse, a).sourceRevision == PageAt(disks, browse, b).sourceRevision
  }

  /** Every read of the run shows a window of its transcript; those of one source and generation agree. */
  ghost predicate ReadsTranscripts<U>(
    part: Entry -> U, disks: Timeline, browse: Browser, turns: seq<Turn>, sources: seq<Source>)
  {
    && |sources| == |turns|
    && (forall i :: 0 <= i < |turns| && Reads(turns[i]) ==> ReadsWindow(disks, browse, turns[i], sources[i]))
    && (forall i, j :: 0 <= i < |turns| && 0 <= j < |turns| && SameSource(disks, browse, turns[i], turns[j]) ==>
          Agree(part, sources[i].transcript, sources[j].transcript))
  }

  /**
    After a tombstone, or before anything was sent, the phone's list is empty; otherwise it is like one
    contiguous run of the transcript that turn k read, under its generation, and ends with its page.
   */
  ghost predicate PhoneHolds<U>(
    part: Entry -> U, disks: Timeline, browse: Browser, turns: seq<Turn>, sources: seq<Source>,
    last: Option<LastRead>, list: seq<Entry>, k: nat, start: nat)
    requires |sources| == |turns|
  {
    if last.None? || !last.value.sig.resolved then list == []
    else
      && k < |turns| && Reads(turns[k]) && turns[k].generation == last.value.generation
      && Holds(part, sources[k].transcript, sources[k].window,
               PageAt(disks, browse, turns[k]), last.value.sig, list, start)
  }

  /** The turn pushes the whole page of a live pane, and the client takes it. */
  predicate Resets(disks: Timeline, browse: Browser, last: Option<LastRead>, turn: Turn) {
    var pushes := Take(disks, browse, last, turn).1;
    turn.LiveTurn? && pushes != [] && pushes[0].accepted && pushes[0].reset
  }

  /** The last turn before n whose page the client took as a reset. */
  function LastReset(disks: Timeline, browse: Browser, turns: seq<Turn>, n: nat): (r: nat)
    requires n <= |turns|
    ensures r == 0 || r < n
  {
    if n == 0 then 0
    else if Resets(disks, browse, Run(disks, browse, turns[..n - 1]).0, turns[n - 1]) then n - 1
    else LastReset(disks, browse, turns, n - 1)
  }

  lemma TakeHolds<U>(
    part: Entry -> U, disks: Timeline, browse: Browser, turns: seq<Turn>, sources: seq<Source>,
    n: nat, last: Option<LastRead>, list: seq<Entry>, k: nat, start: nat)
    returns (k': nat, start': nat)
    requires ReadsTranscripts(part, disks, browse, turns, sources) && n < |turns|
    requires PhoneHolds(part, disks, browse, turns, sources, last, list, k, start)
    ensures var (next, pushes) := Take(disks, browse, last, turns[n]);
            && |pushes| <= 1
            && PhoneHolds(part, disks, browse, turns, sources, next,
                          if pushes == [] then list else PhoneFold(list, pushes[0]), k', start')
            && (Resets(disks, browse, last, turns[n]) ==> start' == sources[n].window.0)
            && (!Resets(disks, browse, last, turns[n]) && next.Some? && next.value.sig.resolved ==>
                  start' == start && last.Some? && last.value.sig.resolved)
  {
    k', start' := k, start;
    var (next, pushes) := Take(disks, browse, last, turns[n]);
    if turns[n].LiveTurn? && pushes != [] && pushes[0].accepted {
      k' := n;
      start' := PushHolds(part, disks, browse, turns, sources, n, last, list, k, start);
    }
  }

  lemma PushHolds<U>(
    part: Entry -> U, disks: Timeline, browse: Browser, turns: seq<Turn>, sources: seq<Source>,
    n: nat, last: Option<LastRead>, list: seq<Entry>, k: nat, start: nat)
    returns (start': nat)
    requires ReadsTranscripts(part, disks, browse, turns, sources) && n < |turns| && turns[n].LiveTurn?
    requires PhoneHolds(part, disks, browse, turns, sources, last, list, k, start)
    requires var pushes := Take(disks, browse, last, turns[n]).1; pushes != [] && pushes[0].accepted
    ensures var (next, pushes) := Take(disks, browse, last, turns[n]);
            && PhoneHolds(part, disks, browse, turns, sources, next, PhoneFold(list, pushes[0]), n, start')
            && start' == (if pushes[0].reset then sources[n].window.0 else start)
            && (!pushes[0].reset ==> last.Some? && last.value.sig.resolved)
  {
    var was := if k < |turns| && Reads(turns[k]) then k else n;
    assert SameSource(disks, browse, turns[n], turns[n]);
    var page := PageAt(disks, browse, turns[n]);
    DecideExactly(last, turns[n].generation, SigOf(page), page.entries);
    start' := DecisionHolds(
      part, last, turns[n].generation, list,
      sources[was].transcript, sources[was].window, PageAt(disks, browse, turns[was]), start,
      sources[n].transcript, sources[n].window, PageAt(disks, browse, turns[n]));
  }

  /**
    In every run, over any generations and conversations, the phone holds one contiguous run of the
    transcript last read, from the start of the page that last reset it to the end of the last page
    sent, and nothing after a tombstone. It does so as to every part of an entry that is not edited in
    place. `ResetsExactly` says when it is reset.
   */
  lemma {:induction false} PhoneHoldsContiguousRun<U>(
    part: Entry -> U, disks: Timeline, browse: Browser, turns: seq<Turn>, sources: seq<Source>, n: nat)
    returns (k: nat, start: nat)
    requires ReadsTranscripts(part, disks, browse, turns, sources) && n <= |turns|
    ensures var (last, log) := Run(disks, browse, turns[..n]);
            && PhoneHolds(part, disks, browse, turns, sources, last, PhoneAll(log), k, start)
            && (last.Some? && last.value.sig.resolved ==>
                  start == sources[LastReset(disks, browse, turns, n)].window.0)
  {
    if n == 0 {
      k, start := 0, 0;
    } else {
      var (last, log) := Run(disks, browse, turns[..n - 1]);
      assert turns[..n][..n - 1] == turns[..n - 1];
      k, start := PhoneHoldsContiguousRun(part, disks, browse, turns, sources, n - 1);
      k, start := TakeHolds(part, disks, browse, turns, sources, n - 1, last, PhoneAll(log), k, start);
      PhoneMore(log, Take(disks, browse, last, turns[n - 1]).1);
    }
  }

  /** The page of turn n continues that of turn k: it slid over one transcript, and what both show is unchanged. */
  predicate Follows(disks: Timeline, browse: Browser, a: Turn, b: Turn, was: Source, now: Source)
    requires Reads(a) && Reads(b)
  {
    var page, page' := PageAt(disks, browse, a), PageAt(disks, browse, b);
    && a.generation == b.generation && page.sourceRevision == page'.sourceRevision
    && page.available == page'.available && page.reasonCode == page'.reasonCode
    && Slides(was.transcript, now.transcript, was.window.0, was.window.1, now.window.0, now.window.1)
    && was.window.1 >= now.window.0
    && OverlapUnchanged(SigOf(page), SigOf(page'), was.window.1 - now.window.0)
  }

  /**
    A page the client takes resets it exactly when there is nothing to continue, after a tombstone or at
    first, or it does not follow the last page sent; otherwise only the entries past the old end are sent.
   */
  lemma ResetsExactly<U>(
    part: Entry -> U, disks: Timeline, browse: Browser, turns: seq<Turn>, sources: seq<Source>,
    n: nat, last: Option<LastRead>, list: seq<Entry>, k: nat, start: nat)
    requires ReadsTranscripts(part, disks, browse, turns, sources) && n < |turns| && turns[n].LiveTurn?
    requires PhoneHolds(part, disks, browse, turns, sources, last, list, k, start)
    requires var pushes := Take(disks, browse, last, turns[n]).1; pushes != [] && pushes[0].accepted
    ensures var push := Take(disks, browse, last, turns[n]).1[0];
            var continues := last.Some? && last.value.sig.resolved
                             && Follows(disks, browse, turns[k], turns[n], sources[k], sources[n]);
            && Reads(turns[n]) && push.reset == !continues
            && push.entries == if continues then sources[n].transcript[sources[k].window.1..sources[n].window.1]
                               else PageAt(disks, browse, turns[n]).entries
  {
    var page := PageAt(disks, browse, turns[n]);
    assert SameSource(disks, browse, turns[n], turns[n]);
    if last.Some? && last.value.sig.resolved {
      DecidesByFollowing(part, disks, browse, turns[k], turns[n], sources[k], sources[n], last);
    }
  }

  lemma DecidesByFollowing<U>(
    part: Entry -> U, disks: Timeline, browse: Browser, a: Turn, b: Turn, was: Source, now: Source,
    last: Option<LastRead>)
    requires Reads(a) && Reads(b) && ReadsWindow(disks, browse, a, was) && ReadsWindow(disks, browse, b, now)
    requires last.Some? && last.value.sig == SigOf(PageAt(disks, browse, a)) && last.value.generation == a.generation
    requires Agree(part, now.transcript, now.transcript)
    requires SameSource(disks, browse, a, b) ==> Agree(part, was.transcript, now.transcript)
    ensures var page := PageAt(disks, browse, b);
            var decided := Decide(last, b.generation, SigOf(page), page.entries);
            decided.Some? ==>
              decided.value == if Follows(disks, browse, a, b, was, now)
                               then (now.transcript[was.window.1..now.window.1], false) else (page.entries, true)
  {
    var page := PageAt(disks, browse, b);
    DecideExactly(last, b.generation, SigOf(page), page.entries);
    if SameSource(disks, browse, a, b) {
      AppendExactly(part, was.transcript, now.transcript, last.value.sig, SigOf(page), page.entries,
                    was.window.0, was.window.1, now.window.0, now.window.1);
    }
  }

  // ---- which turns push ----

  /**
    A live turn pushes exactly when it reads a page that is not the one last sent; it reads unless
    generation, tuple and the stamp of the source are those of the last page.
   */
  lemma LiveTurnPushesExactly(disks: Timeline, browse: Browser, last: Option<LastRead>, turn: Turn)
    requires turn.LiveTurn?
    ensures Take(disks, browse, last, turn).1 != [] <==>
              && turn.answered && turn.fenceHolds && !PageAt(disks, browse, turn).failed
              && (last.Some? && last.value.sig.resolved && last.value.generation == turn.generation ==>
                    && last.value.sig != SigOf(PageAt(disks, browse, turn))
                    && (|| last.value.tuple != Some(turn.tuple) || last.value.probePath == ""
                        || StampOf(disks(turn.statAt), last.value.probePath, last.value.walPath) != last.value.stamp))
  {
  }

  /** A pane that left is announced by one empty reset, unless a tombstone was the last frame taken. */
  lemma GoneTurnPushesExactly(disks: Timeline, browse: Browser, turns: seq<Turn>, turn: Turn)
    requires turn.GoneTurn?
    ensures var (last, log) := Run(disks, browse, turns);
            var frames := AcceptedOnly(log);
            Take(disks, browse, last, turn).1
              == if frames != [] && frames[|frames| - 1].tombstone then []
                 else [Push(turn.generation, [], true, true, turn.accepted)]
  {
    ResetComesFirst(disks, browse, turns);
    UnresolvedIsTombstone(disks, browse, turns);
  }

  lemma {:induction false} UnresolvedIsTombstone(disks: Timeline, browse: Browser, turns: seq<Turn>)
    ensures var last := Run(disks, browse, turns).0;
            last.Some? ==> (last.value.sig == TOMBSTONE <==> !last.value.sig.resolved)
    decreases |turns|
  {
    if turns != [] { UnresolvedIsTombstone(disks, browse, turns[..|turns| - 1]); }
  }

  /** With no edits in place the list is that run itself. */
  lemma PhoneHoldsTranscript(
    disks: Timeline, browse: Browser, turns: seq<Turn>, sources: seq<Source>, n: nat)
    returns (k: nat, start: nat)
    requires ReadsTranscripts((e: Entry) => e, disks, browse, turns, sources) && n <= |turns|
    requires var last := Run(disks, browse, turns[..n]).0; last.Some? && last.value.sig.resolved
    ensures k < |turns| && start <= sources[k].window.0 <= sources[k].window.1 <= |sources[k].transcript|
    ensures PhoneAll(Run(disks, browse, turns[..n]).1) == sources[k].transcript[start..sources[k].window.1]
  {
    k, start := PhoneHoldsContiguousRun((e: Entry) => e, disks, browse, turns, sources, n);
  }
}
