/**
  What the history of a pane is, over whole runs of snapshots.

  A transcript is a sequence of pairwise distinct normalized lines; a snapshot's
  body shows one window of it.
 */
module TranscriptRuns {
  import opened Text
  import opened SequenceMatcher
  import opened TranscriptHistory

  // ---- every merge step, for all inputs ----

  lemma NormConcat(norm: Normalizer, xs: seq<string>, ys: seq<string>)
    ensures NormLines(norm, xs + ys) == NormLines(norm, xs) + NormLines(norm, ys)
  {
  }

  lemma NormSlice(norm: Normalizer, xs: seq<string>, lo: nat, hi: nat)
    requires lo <= hi <= |xs|
    ensures NormLines(norm, xs[lo..hi]) == NormLines(norm, xs)[lo..hi]
  {
  }

  lemma NormThree(norm: Normalizer, xs: seq<string>, ys: seq<string>, zs: seq<string>)
    ensures NormLines(norm, xs + ys + zs) == NormLines(norm, xs) + NormLines(norm, ys) + NormLines(norm, zs)
  {
    NormConcat(norm, xs + ys, zs);
    NormConcat(norm, xs, ys);
  }

  lemma ThreeParts(h: seq<string>, x: nat, y: nat)
    requires x <= y <= |h|
    ensures h[..x] + h[x..y] + h[y..] == h
  {
  }

  lemma NormParts(norm: Normalizer, h: seq<string>, x: nat, y: nat)
    requires x <= y <= |h|
    ensures NormLines(norm, h[..x]) == NormLines(norm, h)[..x]
    ensures NormLines(norm, h[x..y]) == NormLines(norm, h)[x..y]
    ensures NormLines(norm, h[y..]) == NormLines(norm, h)[y..]
  {
    NormSlice(norm, h, 0, x);
    NormSlice(norm, h, x, y);
    NormSlice(norm, h, y, |h|);
  }

  lemma PatchedParts(norm: Normalizer, history: seq<string>, body: seq<string>, m: Match)
    requires Fits2(history, body, m)
    ensures NormLines(norm, Patched(history, body, m))
         == NormLines(norm, history)[..m.a] + NormLines(norm, body)[m.b..m.b + m.size]
            + NormLines(norm, history)[m.a + m.size..]
  {
    NormThree(norm, history[..m.a], body[m.b..m.b + m.size], history[m.a + m.size..]);
    NormParts(norm, history, m.a, m.a + m.size);
    NormSlice(norm, body, m.b, m.b + m.size);
  }

  lemma EqualPatch(h: seq<string>, b: seq<string>, m: Match)
    requires Common(h, b, Whole(h, b), m)
    ensures h[..m.a] + b[m.b..m.b + m.size] + h[m.a + m.size..] == h
  {
    ThreeParts(h, m.a, m.a + m.size);
  }

  lemma NormPatched(norm: Normalizer, history: seq<string>, body: seq<string>, m: Match)
    requires var (h, b) := (NormLines(norm, history), NormLines(norm, body)); Common(h, b, Whole(h, b), m)
    ensures NormLines(norm, Patched(history, body, m)) == NormLines(norm, history)
  {
    PatchedParts(norm, history, body, m);
    EqualPatch(NormLines(norm, history), NormLines(norm, body), m);
  }

  lemma NormRebased(norm: Normalizer, history: seq<string>, body: seq<string>, m: Match)
    requires Fits2(history, body, m)
    ensures NormLines(norm, Rebased(history, body, m)) == NormLines(norm, history)[..m.a] + NormLines(norm, body)[m.b..]
  {
    NormConcat(norm, history[..m.a], body[m.b..]);
    NormSlice(norm, history, 0, m.a);
    NormSlice(norm, body, m.b, |body|);
  }

  /** How a fold moves normalized history h with body b, largest tail overlap k and match m:
      the body continues the history from the overlap; or it is appended; or the
      history stays; or the body continues it from the matched block. A divergent
      tail of more than three lines is refused once. */
  ghost predicate FoldShape(h: seq<string>, b: seq<string>, stale: int, k: nat, m: Match, r: seq<string>, stale': int)
    requires k <= |h| && Fits2(h, b, m)
  {
    var tail := |h| - (m.a + m.size);
    if k > 0 then r == h[..|h| - k] + b && stale' == stale
    else if m == NO_MATCH then r == h + b && stale' == 0
    else if m.b + m.size == |b| then r == h && stale' == 0
    else if tail >= |b| then r == h + b && stale' == 0
    else if tail <= 3 || stale == 1 then r == h[..m.a] + b[m.b..] && stale' == 0
    else r == h && stale' == 1
  }

  /** Every fold, for every state and body, has one of the shapes; the refusal
      count never leaves {0, 1}. */
  lemma FoldShapes(norm: Normalizer, st: PaneState, body: seq<string>)
    requires st.staleRefusals in {0, 1}
    ensures var (h, b) := (NormLines(norm, st.history), NormLines(norm, body));
            var folded := Folded(norm, st, body);
            && Fits2(h, b, SequenceMatch(h, b))
            && FoldShape(h, b, st.staleRefusals, TailOverlap(h, b), SequenceMatch(h, b),
                         NormLines(norm, folded.history), folded.staleRefusals)
            && folded.staleRefusals in {0, 1}
  {
    var h, b := NormLines(norm, st.history), NormLines(norm, body);
    var k, m := TailOverlap(h, b), SequenceMatch(h, b);
    SequenceMatchIsCommon(h, b);
    if k > 0 {
      OverlapShape(norm, st.history, body, k);
    } else {
      BlockShape(norm, st, body, m);
    }
  }

  /** A match that is not at the body's end, behind a tail of more than three lines but shorter than the body. */
  ghost predicate Diverges(history: seq<string>, body: seq<string>, m: Match) {
    m.size >= 2 && Fits2(history, body, m) && m.b + m.size < |body| && 3 < |history| - (m.a + m.size) < |body|
  }

  lemma RefusalPatches(norm: Normalizer, st: PaneState, body: seq<string>, m: Match)
    requires st.staleRefusals == 0 && Folded(norm, st, body).staleRefusals == 1
    requires m == SequenceMatch(NormLines(norm, st.history), NormLines(norm, body))
    ensures TailOverlap(NormLines(norm, st.history), NormLines(norm, body)) == 0 && Diverges(st.history, body, m)
    ensures Folded(norm, st, body) == st.(history := Patched(st.history, body, m), staleRefusals := 1)
  {
    SequenceMatchFits(norm, st.history, body);
  }

  lemma RetryRebases(norm: Normalizer, st: PaneState, body: seq<string>, m: Match)
    requires st.staleRefusals == 1 && Diverges(st.history, body, m)
    requires m == SequenceMatch(NormLines(norm, st.history), NormLines(norm, body))
    requires TailOverlap(NormLines(norm, st.history), NormLines(norm, body)) == 0
    ensures Folded(norm, st, body) == st.(history := Rebased(st.history, body, m), staleRefusals := 0)
  {
  }

  /**
    A refused body is taken when it is shown again, although its hash is the last one: the first time the
    rows stand, the second time the body continues them from the matched block.
   */
  lemma RefusedBodyIsTaken(
    norm: Normalizer, hash: Hasher, st: PaneState, body: seq<string>, footer: seq<string>, m: Match,
    first: PaneState, again: PaneState)
    requires st.staleRefusals == 0 && |st.history| <= MAX_LINES
    requires first == MergeBody(norm, hash, st, body, footer) && again == MergeBody(norm, hash, first, body, footer)
    requires first.staleRefusals == 1 && m == SequenceMatch(NormLines(norm, st.history), NormLines(norm, body))
    ensures Diverges(st.history, body, m) && NormLines(norm, first.history) == NormLines(norm, st.history)
    ensures again.history == LastN(st.history[..m.a] + body[m.b..], MAX_LINES) && again.staleRefusals == 0
  {
    var seen := st.(lastHash := hash(body), footer := footer);
    RefusalPatches(norm, seen, body, m);
    assert first == seen.(history := Patched(st.history, body, m), staleRefusals := 1);
    SequenceMatchIsCommon(NormLines(norm, st.history), NormLines(norm, body));
    NormPatched(norm, st.history, body, m);
    RetryRebases(norm, first, body, m);
    assert Rebased(first.history, body, m) == st.history[..m.a] + body[m.b..];
  }

  /** For every state and body: an overlap or a plain append leaves the history ending in the body, as it was shown. */
  lemma FoldEndsInBody(norm: Normalizer, st: PaneState, body: seq<string>)
    ensures var (h, b) := (NormLines(norm, st.history), NormLines(norm, body));
            var folded := Folded(norm, st, body).history;
            TailOverlap(h, b) > 0 || SequenceMatch(h, b) == NO_MATCH ==>
              && |folded| == |st.history| - TailOverlap(h, b) + |body|
              && folded[..|folded| - |body|] == st.history[..|st.history| - TailOverlap(h, b)]
              && folded[|folded| - |body|..] == body
  {
  }

  lemma OverlapShape(norm: Normalizer, history: seq<string>, body: seq<string>, k: nat)
    requires k <= |history|
    ensures NormLines(norm, history[..|history| - k] + body)
         == NormLines(norm, history)[..|history| - k] + NormLines(norm, body)
  {
    NormConcat(norm, history[..|history| - k], body);
    NormSlice(norm, history, 0, |history| - k);
  }

  lemma BlockShape(norm: Normalizer, st: PaneState, body: seq<string>, m: Match)
    requires st.staleRefusals in {0, 1}
    requires var (h, b) := (NormLines(norm, st.history), NormLines(norm, body));
             m == NO_MATCH || (m.size >= 2 && Common(h, b, Whole(h, b), m))
    ensures var (h, b) := (NormLines(norm, st.history), NormLines(norm, body));
            var folded := AfterBlock(st, body, m);
            && FoldShape(h, b, st.staleRefusals, 0, m, NormLines(norm, folded.history), folded.staleRefusals)
            && folded.staleRefusals in {0, 1}
  {
    NormConcat(norm, st.history, body);
    if m != NO_MATCH {
      NormPatched(norm, st.history, body, m);
      NormRebased(norm, st.history, body, m);
      NormConcat(norm, Patched(st.history, body, m), body);
    }
  }

  // ---- windows of a transcript ----

  ghost predicate Distinct(t: seq<string>) {
    forall i, j :: 0 <= i < j < |t| ==> t[i] != t[j]
  }

  /** History t[lo..hi], body t[s..e]. */
  datatype Views = Views(lo: nat, hi: nat, s: nat, e: nat) {
    ghost predicate Of(t: seq<string>) {
      lo <= hi <= |t| && s < e <= |t|
    }

    /** The lines both windows show are t[From()..To()], if From() < To(). */
    function From(): nat { Max(lo, s) }
    function To(): nat { Min(hi, e) }
  }

  /** With distinct lines an overlap can only start at the body's first line. */
  lemma OverlapIsPinned(t: seq<string>, v: Views, k: nat)
    requires Distinct(t) && v.Of(t) && k > 0 && OverlapAt(t[v.lo..v.hi], t[v.s..v.e], k)
    ensures v.lo <= v.s < v.hi <= v.e && k == v.hi - v.s
  {
    var h, b := t[v.lo..v.hi], t[v.s..v.e];
    assert h[|h| - k..][0] == b[..k][0];
    assert t[v.hi - k] == t[v.s];
  }

  lemma OverlapIsThere(t: seq<string>, v: Views)
    requires v.Of(t) && v.lo <= v.s < v.hi <= v.e
    ensures OverlapAt(t[v.lo..v.hi], t[v.s..v.e], v.hi - v.s)
  {
    SubSlice(t, v.lo, v.hi, v.s, v.hi);
    SubSlice(t, v.s, v.e, v.s, v.hi);
  }

  lemma OverlapOnTranscript(t: seq<string>, v: Views)
    requires Distinct(t) && v.Of(t)
    ensures TailOverlap(t[v.lo..v.hi], t[v.s..v.e]) == if v.lo <= v.s < v.hi <= v.e then v.hi - v.s else 0
  {
    var h, b := t[v.lo..v.hi], t[v.s..v.e];
    var k := TailOverlap(h, b);
    TailOverlapIsLargest(h, b);
    if k > 0 {
      OverlapIsPinned(t, v, k);
    } else if v.lo <= v.s < v.hi <= v.e {
      OverlapIsThere(t, v);
    }
  }

  /** A window of both sides without a common line does not show a shared line of the transcript. */
  lemma BareWindow(t: seq<string>, v: Views, w: Window, x: nat)
    requires v.Of(t) && Fits(t[v.lo..v.hi], t[v.s..v.e], w) && NoCommonLine(t[v.lo..v.hi], t[v.s..v.e], w)
    ensures v.From() <= x < v.To() ==> !(w.alo <= x - v.lo < w.ahi && w.blo <= x - v.s < w.bhi)
  {
    assert v.From() <= x < v.To() ==> t[v.lo..v.hi][x - v.lo] == t[v.s..v.e][x - v.s];
  }

  /** With distinct lines, equal runs of the two windows are the same lines. */
  lemma SameLines(t: seq<string>, v: Views, w: Window, m: Match)
    requires Distinct(t) && v.Of(t)
    requires Fits(t[v.lo..v.hi], t[v.s..v.e], w) && Common(t[v.lo..v.hi], t[v.s..v.e], w, m) && m.size > 0
    ensures v.lo + m.a == v.s + m.b
    ensures v.From() <= v.lo + m.a && v.lo + m.a + m.size <= v.To()
  {
    RunsStartEqual(t[v.lo..v.hi], t[v.s..v.e], w, m);
    OneLine(t, v.lo + m.a, v.s + m.b);
  }

  lemma RunsStartEqual(h: seq<string>, b: seq<string>, w: Window, m: Match)
    requires Fits(h, b, w) && Common(h, b, w, m) && m.size > 0
    ensures h[m.a] == b[m.b]
  {
    assert h[m.a] == h[m.a..m.a + m.size][0];
    assert b[m.b] == b[m.b..m.b + m.size][0];
  }

  lemma OneLine(t: seq<string>, x: nat, y: nat)
    requires Distinct(t) && x < |t| && y < |t| && t[x] == t[y]
    ensures x == y
  {
  }

  /** The blocks of two windows are the shared lines, in one piece. */
  lemma BlocksOnTranscript(t: seq<string>, v: Views, bs: seq<Match>)
    requires Distinct(t) && v.Of(t)
    requires Tiles(t[v.lo..v.hi], t[v.s..v.e], Whole(t[v.lo..v.hi], t[v.s..v.e]), bs) && NeverTouching(bs)
    ensures bs == if v.From() < v.To() then [Match(v.From() - v.lo, v.From() - v.s, v.To() - v.From())] else []
  {
    var w := Whole(t[v.lo..v.hi], t[v.s..v.e]);
    if bs == [] {
      BareWindow(t, v, w, v.From());
    } else {
      SameLines(t, v, w, bs[0]);
      BareWindow(t, v, Left(w, bs[0]), v.From());
      LaterBlocks(t, v, bs);
    }
  }

  /** No block can follow the first one: the next shared line would touch it. */
  lemma LaterBlocks(t: seq<string>, v: Views, bs: seq<Match>)
    requires Distinct(t) && v.Of(t)
    requires Tiles(t[v.lo..v.hi], t[v.s..v.e], Whole(t[v.lo..v.hi], t[v.s..v.e]), bs) && NeverTouching(bs)
    requires bs != [] && v.lo + bs[0].a == v.s + bs[0].b
    ensures |bs| == 1 && v.lo + bs[0].a + bs[0].size == v.To()
  {
    var whole := Whole(t[v.lo..v.hi], t[v.s..v.e]);
    var w := Right(whole, bs[0]);
    var y := v.lo + bs[0].a + bs[0].size;
    SameLines(t, v, whole, bs[0]);
    if |bs| == 1 {
      BareWindow(t, v, w, y);
    } else {
      var n := bs[1];
      assert n == bs[1..][0];
      SameLines(t, v, w, n);
      BareWindow(t, v, Left(w, n), y);
    }
  }

  /** The lines of the transcript that both windows show. */
  function Shared(t: seq<string>, v: Views): seq<string>
    requires v.lo <= v.hi <= |t| && v.s < v.e <= |t|
  {
    if v.From() < v.To() then t[v.From()..v.To()] else []
  }

  lemma {:induction false} NonBlankBound(lines: seq<string>)
    ensures NonBlank(lines) <= |lines|
  {
    if lines != [] { NonBlankBound(lines[1..]); }
  }

  lemma BestOfOne(history: seq<string>, m: Match, sentinel: Match)
    requires sentinel.size == 0
    ensures BestOf(history, [m, sentinel]) == if Qualifies(history, m) then m else NO_MATCH
    ensures BestOf(history, [sentinel]) == NO_MATCH
  {
    assert [m, sentinel][..1] == [m] && [m][..0] == [] && [sentinel][..0] == [];
    assert BestOf(history, [m]) == Prefer(history, NO_MATCH, m);
  }

  lemma SubSlice(t: seq<string>, lo: nat, hi: nat, x: nat, y: nat)
    requires lo <= x <= y <= hi <= |t|
    ensures t[lo..hi][x - lo..y - lo] == t[x..y]
  {
    var l, r := t[lo..hi][x - lo..y - lo], t[x..y];
    assert |l| == |r|;
    forall i | 0 <= i < |l| ensures l[i] == r[i] {
    }
  }

  function SharedBlock(v: Views): Match
    requires v.From() < v.To()
  {
    Match(v.From() - v.lo, v.From() - v.s, v.To() - v.From())
  }

  lemma MatchingBlocksOnTranscript(t: seq<string>, v: Views)
    requires Distinct(t) && v.Of(t)
    ensures MatchingBlocks(t[v.lo..v.hi], t[v.s..v.e]) ==
      (if v.From() < v.To() then [SharedBlock(v)] else []) + [Match(v.hi - v.lo, v.e - v.s, 0)]
  {
    var h, b := t[v.lo..v.hi], t[v.s..v.e];
    var ms := MatchingBlocks(h, b);
    var n := |ms| - 1;
    MatchingBlocksAreMaximal(h, b);
    BlocksOnTranscript(t, v, ms[..n]);
    assert ms == ms[..n] + [ms[n]];
  }

  lemma SharedQualifies(t: seq<string>, v: Views)
    requires v.Of(t) && v.From() < v.To()
    ensures Qualifies(t[v.lo..v.hi], SharedBlock(v)) <==> NonBlank(Shared(t, v)) >= 2
  {
    SliceQualifies(t, v.lo, v.hi, v.From(), v.To(), SharedBlock(v));
  }

  lemma SliceQualifies(t: seq<string>, lo: nat, hi: nat, x: nat, y: nat, m: Match)
    requires lo <= x < y <= hi <= |t| && m.a == x - lo && m.size == y - x
    ensures Qualifies(t[lo..hi], m) <==> NonBlank(t[x..y]) >= 2
  {
    NonBlankBound(t[x..y]);
    SubSlice(t, lo, hi, x, y);
  }

  lemma PickOne(history: seq<string>, blocks: seq<Match>, m: Match, sentinel: Match)
    requires sentinel.size == 0 && (blocks == [m] || blocks == [])
    ensures BestOf(history, blocks + [sentinel]) == if blocks == [m] && Qualifies(history, m) then m else NO_MATCH
  {
    BestOfOne(history, m, sentinel);
    assert [m] + [sentinel] == [m, sentinel] && [] + [sentinel] == [sentinel];
  }

  lemma PickOnTranscript(t: seq<string>, v: Views, sentinel: Match)
    requires v.Of(t) && sentinel.size == 0
    ensures BestOf(t[v.lo..v.hi], (if v.From() < v.To() then [SharedBlock(v)] else []) + [sentinel]) ==
      if v.From() < v.To() && NonBlank(Shared(t, v)) >= 2 then SharedBlock(v) else NO_MATCH
  {
    if v.From() < v.To() {
      SharedQualifies(t, v);
      PickOne(t[v.lo..v.hi], [SharedBlock(v)], SharedBlock(v), sentinel);
    } else {
      PickOne(t[v.lo..v.hi], [], NO_MATCH, sentinel);
    }
  }

  lemma SequenceMatchOnTranscript(t: seq<string>, v: Views)
    requires Distinct(t) && v.Of(t)
    ensures SequenceMatch(t[v.lo..v.hi], t[v.s..v.e]) ==
      if v.From() < v.To() && NonBlank(Shared(t, v)) >= 2 then SharedBlock(v) else NO_MATCH
  {
    MatchingBlocksOnTranscript(t, v);
    PickOnTranscript(t, v, Match(v.hi - v.lo, v.e - v.s, 0));
  }

  /** The body continues the history without a gap, or shares two non-blank lines with it. */
  ghost predicate Connected(t: seq<string>, v: Views)
    requires v.Of(t)
  {
    v.lo <= v.s <= v.hi <= v.e || NonBlank(Shared(t, v)) >= 2
  }

  lemma Glue(t: seq<string>, a: nat, x: nat, y: nat)
    requires a <= x <= y <= |t|
    ensures t[a..x] + t[x..y] == t[a..y]
  {
  }

  lemma PrefixSlice(t: seq<string>, lo: nat, hi: nat, x: nat)
    requires lo <= x <= hi <= |t|
    ensures t[lo..hi][..x - lo] == t[lo..x]
  {
    SubSlice(t, lo, hi, lo, x);
  }

  lemma SuffixSlice(t: seq<string>, lo: nat, hi: nat, x: nat)
    requires lo <= x <= hi <= |t|
    ensures t[lo..hi][x - lo..] == t[x..hi]
  {
    SubSlice(t, lo, hi, x, hi);
  }

  lemma RebaseSlices(t: seq<string>, v: Views, f: nat)
    requires v.Of(t) && v.lo <= f <= v.hi && v.s <= f <= v.e
    ensures t[v.lo..v.hi][..f - v.lo] + t[v.s..v.e][f - v.s..] == t[v.lo..v.e]
  {
    PrefixSlice(t, v.lo, v.hi, f);
    SuffixSlice(t, v.s, v.e, f);
    Glue(t, v.lo, f, v.e);
  }

  lemma ShapeOnTranscript(t: seq<string>, v: Views, r: seq<string>, stale: int)
    requires Distinct(t) && v.Of(t)
    requires var k := if v.lo <= v.s < v.hi <= v.e then v.hi - v.s else 0;
             var m := if v.From() < v.To() && NonBlank(Shared(t, v)) >= 2 then SharedBlock(v) else NO_MATCH;
             FoldShape(t[v.lo..v.hi], t[v.s..v.e], 0, k, m, r, stale)
    ensures r == if Connected(t, v) then t[v.lo..Max(v.hi, v.e)] else t[v.lo..v.hi] + t[v.s..v.e]
    ensures stale == 0
  {
    if v.lo <= v.s < v.hi <= v.e {
      PrefixSlice(t, v.lo, v.hi, v.s);
      Glue(t, v.lo, v.s, v.e);
    } else if v.From() < v.To() && NonBlank(Shared(t, v)) >= 2 {
      RebaseSlices(t, v, v.From());
    } else if v.lo <= v.s == v.hi <= v.e {
      Glue(t, v.lo, v.s, v.e);
    }
  }

  /** One body of a transcript: the history grows to exactly the newest line seen
      if and only if the body is connected to it; otherwise the whole body is
      appended, whatever of it was already there. */
  lemma FoldOnTranscript(norm: Normalizer, t: seq<string>, st: PaneState, body: seq<string>, v: Views)
    requires Distinct(t) && v.Of(t) && st.staleRefusals == 0
    requires NormLines(norm, st.history) == t[v.lo..v.hi] && NormLines(norm, body) == t[v.s..v.e]
    ensures var folded := Folded(norm, st, body);
            var r := NormLines(norm, folded.history);
            && (r == t[v.lo..Max(v.hi, v.e)] <==> Connected(t, v))
            && (!Connected(t, v) ==> r == t[v.lo..v.hi] + t[v.s..v.e])
            && folded.staleRefusals == 0
  {
    FoldShapes(norm, st, body);
    OverlapOnTranscript(t, v);
    SequenceMatchOnTranscript(t, v);
    var folded := Folded(norm, st, body);
    ShapeOnTranscript(t, v, NormLines(norm, folded.history), folded.staleRefusals);
    assert |t[v.lo..v.hi] + t[v.s..v.e]| == v.hi - v.lo + v.e - v.s;
  }

  // ---- the lines as they were shown ----

  /** The rows of t[lo..hi] with those the body shows laid over, up to the newest line of either. */
  function Overlaid(rows: seq<string>, body: seq<string>, v: Views): (r: seq<string>)
    requires v.lo <= v.hi && v.s <= v.hi && |rows| == v.hi - v.lo && |body| == v.e - v.s && v.s <= v.e
    ensures |r| == Max(v.hi, v.e) - v.lo
  {
    seq(Max(v.hi, v.e) - v.lo, i requires 0 <= i < Max(v.hi, v.e) - v.lo =>
      if v.s <= v.lo + i < v.e then body[v.lo + i - v.s] else rows[i])
  }

  lemma ConnectedStarts(t: seq<string>, v: Views)
    requires v.Of(t) && Connected(t, v)
    ensures v.s <= v.hi
  {
  }

  lemma OverlapOverlays(rows: seq<string>, body: seq<string>, v: Views)
    requires v.lo <= v.s <= v.hi <= v.e && |rows| == v.hi - v.lo && |body| == v.e - v.s
    ensures rows[..v.s - v.lo] + body == Overlaid(rows, body, v)
  {
  }

  lemma PatchOverlays(rows: seq<string>, body: seq<string>, v: Views)
    requires v.lo <= v.hi && v.s < v.e <= v.hi && v.From() < v.To() && |rows| == v.hi - v.lo && |body| == v.e - v.s
    ensures Patched(rows, body, SharedBlock(v)) == Overlaid(rows, body, v)
  {
  }

  lemma RebaseOverlays(rows: seq<string>, body: seq<string>, v: Views)
    requires v.s <= v.lo < v.hi <= v.e && |rows| == v.hi - v.lo && |body| == v.e - v.s
    ensures Rebased(rows, body, SharedBlock(v)) == Overlaid(rows, body, v)
  {
  }

  lemma BlockOverlays(t: seq<string>, st: PaneState, body: seq<string>, v: Views)
    requires v.Of(t) && v.From() < v.To() && NonBlank(Shared(t, v)) >= 2 && !(v.lo <= v.s < v.hi <= v.e)
    requires |st.history| == v.hi - v.lo && |body| == v.e - v.s
    ensures AfterBlock(st, body, SharedBlock(v)).history == Overlaid(st.history, body, v)
  {
    NonBlankBound(Shared(t, v));
    if v.e <= v.hi {
      PatchOverlays(st.history, body, v);
    } else {
      RebaseOverlays(st.history, body, v);
    }
  }

  /** A connected body overwrites the rows it shows and leaves the others as they were, line by line. */
  lemma FoldOverlays(norm: Normalizer, t: seq<string>, st: PaneState, body: seq<string>, v: Views)
    requires Distinct(t) && v.Of(t) && Connected(t, v) && v.s <= v.hi
    requires NormLines(norm, st.history) == t[v.lo..v.hi] && NormLines(norm, body) == t[v.s..v.e]
    ensures |st.history| == v.hi - v.lo && |body| == v.e - v.s
    ensures Folded(norm, st, body).history == Overlaid(st.history, body, v)
  {
    OverlapOnTranscript(t, v);
    SequenceMatchOnTranscript(t, v);
    if v.lo <= v.s < v.hi <= v.e {
      OverlapOverlays(st.history, body, v);
    } else if v.From() < v.To() && NonBlank(Shared(t, v)) >= 2 {
      BlockOverlays(t, st, body, v);
    } else {
      OverlapOverlays(st.history, body, v);
      assert st.history[..v.s - v.lo] == st.history;
    }
  }

  // ---- runs ----

  /** A snapshot's body and footer, and the window t[s..e] its body shows. */
  datatype Snap = Snap(body: seq<string>, footer: seq<string>, s: nat, e: nat)

  /** The run's view of the history: it is t[lo..hi], shown as `rows`; the footer and the last snapshot. */
  datatype Track = Track(lo: nat, hi: nat, rows: seq<string>, footer: seq<string>, last: Option<Snap>)

  function StartAt(first: nat): Track { Track(first, first, [], [], None) }

  /** What a track and a snapshot must be for rows to be laid over each other. */
  predicate Shaped(k: Track, snap: Snap) {
    k.lo <= k.hi && |k.rows| == k.hi - k.lo && snap.s < snap.e && |snap.body| == snap.e - snap.s && snap.s <= k.hi
  }

  /** The footer changes with the body. */
  function Advance(k: Track, snap: Snap): Track {
    var hi := Max(k.hi, snap.e);
    Track(Max(k.lo, hi - MAX_LINES), hi,
          if Shaped(k, snap) then LastN(Overlaid(k.rows, snap.body, Views(k.lo, k.hi, snap.s, snap.e)), MAX_LINES)
          else k.rows,
          if k.last.Some? && k.last.value.body == snap.body then k.footer else snap.footer,
          Some(snap))
  }

  /** The snapshot shows t[s..e], connected to the history, and its body does not
      collide with the previous one under the body hash. */
  ghost predicate Legal(norm: Normalizer, hash: Hasher, t: seq<string>, k: Track, snap: Snap) {
    && k.lo <= k.hi <= |t| && snap.s < snap.e <= |t|
    && NormLines(norm, snap.body) == t[snap.s..snap.e]
    && Connected(t, Views(k.lo, k.hi, snap.s, snap.e))
    && hash(snap.body) != ""
    && (k.last.Some? && hash(snap.body) == hash(k.last.value.body) ==> snap.body == k.last.value.body)
  }

  ghost predicate LegalRun(norm: Normalizer, hash: Hasher, t: seq<string>, k: Track, snaps: seq<Snap>)
    decreases |snaps|
  {
    snaps == [] || (Legal(norm, hash, t, k, snaps[0]) && LegalRun(norm, hash, t, Advance(k, snaps[0]), snaps[1..]))
  }

  /** One snapshot merged into a pane's state. */
  type Merger = (PaneState, Snap) -> PaneState

  function MergerOf(norm: Normalizer, hash: Hasher): Merger {
    (st: PaneState, snap: Snap) => MergeBody(norm, hash, st, snap.body, snap.footer)
  }

  function MergeAll(merge: Merger, st: PaneState, snaps: seq<Snap>): PaneState
    decreases |snaps|
  {
    if snaps == [] then st else MergeAll(merge, merge(st, snaps[0]), snaps[1..])
  }

  function AdvanceAll(k: Track, snaps: seq<Snap>): Track
    decreases |snaps|
  {
    if snaps == [] then k else AdvanceAll(Advance(k, snaps[0]), snaps[1..])
  }

  ghost predicate Tracks(norm: Normalizer, hash: Hasher, t: seq<string>, st: PaneState, k: Track) {
    && k.lo <= k.hi <= |t| && k.hi - k.lo <= MAX_LINES
    && NormLines(norm, st.history) == t[k.lo..k.hi]
    && st.staleRefusals == 0
    && match k.last
       case None => st.lastHash == ""
       case Some(b) =>
         && st.lastHash == hash(b.body) && b.s < b.e <= k.hi
         && NormLines(norm, b.body) == t[b.s..b.e]
  }

  /** The rows are those of the body wherever it shows them. */
  ghost predicate ShowsBody(k: Track, b: Snap) {
    && |b.body| == b.e - b.s
    && forall i :: 0 <= i < |k.rows| && b.s <= k.lo + i < b.e ==> k.rows[i] == b.body[k.lo + i - b.s]
  }

  /** The state holds the rows as last shown, and the footer that came with them. */
  ghost predicate Holds(st: PaneState, k: Track) {
    && st.history == k.rows && st.footer == k.footer
    && (k.last.Some? ==> ShowsBody(k, k.last.value))
  }

  lemma SameWindow(t: seq<string>, s: nat, e: nat, s': nat, e': nat)
    requires Distinct(t) && s < e <= |t| && s' < e' <= |t| && t[s..e] == t[s'..e']
    ensures s == s' && e == e'
  {
    assert t[s..e][0] == t[s] && t[s'..e'][0] == t[s'];
    assert |t[s..e]| == |t[s'..e']|;
  }

  lemma CutHistory(norm: Normalizer, t: seq<string>, history: seq<string>, lo: nat, hi: nat)
    requires lo <= hi <= |t| && NormLines(norm, history) == t[lo..hi]
    ensures NormLines(norm, LastN(history, MAX_LINES)) == t[Max(lo, hi - MAX_LINES)..hi]
  {
    assert |history| == hi - lo;
    if |history| > MAX_LINES {
      NormSlice(norm, history, |history| - MAX_LINES, |history|);
      SubSlice(t, lo, hi, hi - MAX_LINES, hi);
    }
  }

  /** A body equal to the last one changes nothing, and shows nothing new. */
  lemma TrackSkip(norm: Normalizer, hash: Hasher, t: seq<string>, st: PaneState, k: Track, snap: Snap)
    requires Distinct(t) && Tracks(norm, hash, t, st, k) && Legal(norm, hash, t, k, snap)
    requires hash(snap.body) == st.lastHash
    ensures MergeBody(norm, hash, st, snap.body, snap.footer) == st && Tracks(norm, hash, t, st, Advance(k, snap))
  {
    SameWindow(t, snap.s, snap.e, k.last.value.s, k.last.value.e);
  }

  lemma TrackFold(norm: Normalizer, hash: Hasher, t: seq<string>, st: PaneState, k: Track, snap: Snap)
    requires Distinct(t) && Tracks(norm, hash, t, st, k) && Legal(norm, hash, t, k, snap)
    requires hash(snap.body) != st.lastHash
    ensures Tracks(norm, hash, t, MergeBody(norm, hash, st, snap.body, snap.footer), Advance(k, snap))
  {
    var body := snap.body;
    var st' := st.(lastHash := hash(body), footer := snap.footer);
    FoldOnTranscript(norm, t, st', body, Views(k.lo, k.hi, snap.s, snap.e));
    FoldKeepsRest(norm, st', body);
    CutTracks(norm, hash, t, k, snap, Folded(norm, st', body));
  }

  lemma CutTracks(norm: Normalizer, hash: Hasher, t: seq<string>, k: Track, snap: Snap, folded: PaneState)
    requires Legal(norm, hash, t, k, snap) && folded.lastHash == hash(snap.body) && folded.staleRefusals == 0
    requires NormLines(norm, folded.history) == t[k.lo..Max(k.hi, snap.e)]
    ensures Tracks(norm, hash, t, folded.(history := LastN(folded.history, MAX_LINES)), Advance(k, snap))
  {
    CutHistory(norm, t, folded.history, k.lo, Max(k.hi, snap.e));
  }

  lemma FoldKeepsRest(norm: Normalizer, st: PaneState, body: seq<string>)
    ensures Folded(norm, st, body).lastHash == st.lastHash && Folded(norm, st, body).footer == st.footer
  {
  }

  lemma TrackStep(norm: Normalizer, hash: Hasher, t: seq<string>, st: PaneState, k: Track, snap: Snap)
    requires Distinct(t) && Tracks(norm, hash, t, st, k) && Legal(norm, hash, t, k, snap)
    ensures Tracks(norm, hash, t, MergeBody(norm, hash, st, snap.body, snap.footer), Advance(k, snap))
  {
    if hash(snap.body) == st.lastHash {
      TrackSkip(norm, hash, t, st, k, snap);
    } else {
      TrackFold(norm, hash, t, st, k, snap);
    }
  }

  /** Laying the same body over its rows again changes nothing. */
  lemma SameRowsAgain(rows: seq<string>, body: seq<string>, v: Views)
    requires v.lo <= v.hi && v.s < v.e <= v.hi && |rows| == v.hi - v.lo && |body| == v.e - v.s
    requires forall i :: 0 <= i < |rows| && v.s <= v.lo + i < v.e ==> rows[i] == body[v.lo + i - v.s]
    ensures Overlaid(rows, body, v) == rows
  {
  }

  /** The same body in the same window again moves nothing. */
  lemma AdvanceAgain(k: Track, snap: Snap)
    requires k.last.Some? && k.last.value.body == snap.body && k.last.value.s == snap.s && k.last.value.e == snap.e
    requires ShowsBody(k, k.last.value) && |k.rows| == k.hi - k.lo <= MAX_LINES && snap.s < snap.e <= k.hi
    ensures Advance(k, snap) == k.(last := Some(snap))
  {
    SameRowsAgain(k.rows, snap.body, Views(k.lo, k.hi, snap.s, snap.e));
  }

  /** A body with the hash of the last one is that body, in the same window. */
  lemma SkippedIsLast(norm: Normalizer, hash: Hasher, t: seq<string>, st: PaneState, k: Track, snap: Snap)
    requires Distinct(t) && Tracks(norm, hash, t, st, k) && Legal(norm, hash, t, k, snap)
    requires hash(snap.body) == st.lastHash
    ensures k.last.Some? && k.last.value.body == snap.body && k.last.value.s == snap.s && k.last.value.e == snap.e
    ensures snap.s < snap.e <= k.hi && |st.history| == k.hi - k.lo <= MAX_LINES
  {
    SameWindow(t, snap.s, snap.e, k.last.value.s, k.last.value.e);
  }

  lemma HoldAgain(st: PaneState, k: Track, snap: Snap)
    requires k.last.Some? && k.last.value.body == snap.body && k.last.value.s == snap.s && k.last.value.e == snap.e
    requires Holds(st, k) && |st.history| == k.hi - k.lo <= MAX_LINES && snap.s < snap.e <= k.hi
    ensures Holds(st, Advance(k, snap))
  {
    AdvanceAgain(k, snap);
  }

  lemma HoldSkip(norm: Normalizer, hash: Hasher, t: seq<string>, st: PaneState, k: Track, snap: Snap)
    requires Distinct(t) && Tracks(norm, hash, t, st, k) && Holds(st, k) && Legal(norm, hash, t, k, snap)
    requires hash(snap.body) == st.lastHash
    ensures Holds(st, Advance(k, snap))
  {
    SkippedIsLast(norm, hash, t, st, k, snap);
    HoldAgain(st, k, snap);
  }

  /** What is left of rows just laid over, once cut to size, still shows the body. */
  lemma CutShows(k: Track, snap: Snap, rows: seq<string>)
    requires Shaped(k, snap) && rows == Overlaid(k.rows, snap.body, Views(k.lo, k.hi, snap.s, snap.e))
    ensures Advance(k, snap).rows == LastN(rows, MAX_LINES) && ShowsBody(Advance(k, snap), snap)
  {
    var k', cut := Advance(k, snap), LastN(rows, MAX_LINES);
    forall i | 0 <= i < |cut| && snap.s <= k'.lo + i < snap.e ensures cut[i] == snap.body[k'.lo + i - snap.s] {
      assert cut[i] == rows[k'.lo + i - k.lo];
    }
  }

  lemma HoldFold(norm: Normalizer, hash: Hasher, t: seq<string>, st: PaneState, k: Track, snap: Snap)
    requires Distinct(t) && Tracks(norm, hash, t, st, k) && Holds(st, k) && Legal(norm, hash, t, k, snap)
    requires hash(snap.body) != st.lastHash
    ensures Holds(MergeBody(norm, hash, st, snap.body, snap.footer), Advance(k, snap))
  {
    var v := Views(k.lo, k.hi, snap.s, snap.e);
    var st' := st.(lastHash := hash(snap.body), footer := snap.footer);
    ConnectedStarts(t, v);
    FoldOverlays(norm, t, st', snap.body, v);
    FoldKeepsRest(norm, st', snap.body);
    CutShows(k, snap, Folded(norm, st', snap.body).history);
  }

  lemma HoldStep(norm: Normalizer, hash: Hasher, t: seq<string>, st: PaneState, k: Track, snap: Snap)
    requires Distinct(t) && Tracks(norm, hash, t, st, k) && Holds(st, k) && Legal(norm, hash, t, k, snap)
    ensures Holds(MergeBody(norm, hash, st, snap.body, snap.footer), Advance(k, snap))
  {
    if hash(snap.body) == st.lastHash {
      TrackSkip(norm, hash, t, st, k, snap);
      HoldSkip(norm, hash, t, st, k, snap);
    } else {
      HoldFold(norm, hash, t, st, k, snap);
    }
  }

  /** What a run keeps of the state and the track. */
  type Invariant = (PaneState, Track) -> bool

  /** A legal snapshot moves the state along with the track. */
  ghost predicate StepTracked(
    norm: Normalizer, hash: Hasher, t: seq<string>, merge: Merger, inv: Invariant, st: PaneState, k: Track, snap: Snap)
  {
    inv(st, k) && Legal(norm, hash, t, k, snap) ==> inv(merge(st, snap), Advance(k, snap))
  }

  ghost predicate Tracked(norm: Normalizer, hash: Hasher, t: seq<string>, merge: Merger, inv: Invariant) {
    forall st: PaneState, k: Track, snap: Snap :: StepTracked(norm, hash, t, merge, inv, st, k, snap)
  }

  ghost function OnTrack(norm: Normalizer, hash: Hasher, t: seq<string>): Invariant {
    (st: PaneState, k: Track) => Tracks(norm, hash, t, st, k) && Holds(st, k)
  }

  lemma MergerIsTracked(norm: Normalizer, hash: Hasher, t: seq<string>)
    requires Distinct(t)
    ensures Tracked(norm, hash, t, MergerOf(norm, hash), OnTrack(norm, hash, t))
  {
    var merge, inv := MergerOf(norm, hash), OnTrack(norm, hash, t);
    forall st: PaneState, k: Track, snap: Snap ensures StepTracked(norm, hash, t, merge, inv, st, k, snap) {
      if Tracks(norm, hash, t, st, k) && Holds(st, k) && Legal(norm, hash, t, k, snap) {
        TrackStep(norm, hash, t, st, k, snap);
        HoldStep(norm, hash, t, st, k, snap);
      }
    }
  }

  lemma {:induction false} TrackRun(
    norm: Normalizer, hash: Hasher, t: seq<string>, merge: Merger, inv: Invariant,
    st: PaneState, k: Track, snaps: seq<Snap>)
    requires Tracked(norm, hash, t, merge, inv) && inv(st, k) && LegalRun(norm, hash, t, k, snaps)
    ensures inv(MergeAll(merge, st, snaps), AdvanceAll(k, snaps))
    decreases |snaps|
  {
    if snaps != [] {
      assert StepTracked(norm, hash, t, merge, inv, st, k, snaps[0]);
      TrackRun(norm, hash, t, merge, inv, merge(st, snaps[0]), Advance(k, snaps[0]), snaps[1..]);
    }
  }

  /** One past the newest transcript line any snapshot showed. */
  function NewestSeen(snaps: seq<Snap>, from: nat): nat
    decreases |snaps|
  {
    if snaps == [] then from else NewestSeen(snaps[1..], Max(from, snaps[0].e))
  }

  lemma {:induction false} AdvanceAllBounds(k: Track, snaps: seq<Snap>, start: nat)
    requires k.lo == Max(start, k.hi - MAX_LINES)
    ensures var n := NewestSeen(snaps, k.hi);
            AdvanceAll(k, snaps).hi == n && AdvanceAll(k, snaps).lo == Max(start, n - MAX_LINES)
    decreases |snaps|
  {
    if snaps != [] {
      AdvanceAllBounds(Advance(k, snaps[0]), snaps[1..], start);
    }
  }

  /** No loss and no duplication: after any run of connected snapshots, starting
      from an empty pane, the history is exactly one contiguous run of the
      transcript, from the first line shown to the newest line seen, cut to its
      last 10,000 lines. */
  lemma HistoryIsOneRun(
    norm: Normalizer, hash: Hasher, t: seq<string>, snaps: seq<Snap>, newest: nat, after: PaneState)
    requires Distinct(t) && snaps != []
    requires snaps[0].s <= |t| && LegalRun(norm, hash, t, StartAt(snaps[0].s), snaps)
    requires newest == NewestSeen(snaps, snaps[0].s) && after == MergeAll(MergerOf(norm, hash), EMPTY_STATE, snaps)
    ensures snaps[0].s < newest <= |t|
    ensures NormLines(norm, after.history) == t[Max(snaps[0].s, newest - MAX_LINES)..newest]
  {
    FirstIsSeen(norm, hash, t, snaps);
    var end := AdvanceAll(StartAt(snaps[0].s), snaps);
    EndOfRun(norm, hash, t, snaps, snaps[0].s, after, end);
    EndBounds(snaps, snaps[0].s, newest, end);
    TrackedHistory(norm, hash, t, after, end, Max(snaps[0].s, newest - MAX_LINES), newest);
  }

  lemma FirstIsSeen(norm: Normalizer, hash: Hasher, t: seq<string>, snaps: seq<Snap>)
    requires snaps != [] && LegalRun(norm, hash, t, StartAt(snaps[0].s), snaps)
    ensures snaps[0].s < NewestSeen(snaps, snaps[0].s)
  {
    NewestSeenGrows(snaps[1..], Max(snaps[0].s, snaps[0].e));
  }

  lemma EmptyTracks(norm: Normalizer, hash: Hasher, t: seq<string>, first: nat)
    requires first <= |t|
    ensures Tracks(norm, hash, t, EMPTY_STATE, StartAt(first))
  {
    assert NormLines(norm, []) == t[first..first];
  }

  /** After a run of legal snapshots, starting from an empty pane, state and track still agree. */
  lemma EndOfRun(
    norm: Normalizer, hash: Hasher, t: seq<string>, snaps: seq<Snap>, first: nat, after: PaneState, end: Track)
    requires Distinct(t) && first <= |t| && LegalRun(norm, hash, t, StartAt(first), snaps)
    requires after == MergeAll(MergerOf(norm, hash), EMPTY_STATE, snaps) && end == AdvanceAll(StartAt(first), snaps)
    ensures Tracks(norm, hash, t, after, end) && Holds(after, end)
  {
    EmptyTracks(norm, hash, t, first);
    MergerIsTracked(norm, hash, t);
    RunOnTrack(norm, hash, t, MergerOf(norm, hash), snaps, first, after, end);
  }

  lemma RunOnTrack(
    norm: Normalizer, hash: Hasher, t: seq<string>, merge: Merger, snaps: seq<Snap>, first: nat,
    after: PaneState, end: Track)
    requires Tracked(norm, hash, t, merge, OnTrack(norm, hash, t)) && LegalRun(norm, hash, t, StartAt(first), snaps)
    requires Tracks(norm, hash, t, EMPTY_STATE, StartAt(first))
    requires after == MergeAll(merge, EMPTY_STATE, snaps) && end == AdvanceAll(StartAt(first), snaps)
    ensures Tracks(norm, hash, t, after, end) && Holds(after, end)
  {
    TrackRun(norm, hash, t, merge, OnTrack(norm, hash, t), EMPTY_STATE, StartAt(first), snaps);
  }

  lemma TrackedHistory(norm: Normalizer, hash: Hasher, t: seq<string>, after: PaneState, end: Track, lo: int, hi: nat)
    requires Tracks(norm, hash, t, after, end) && end.lo == lo && end.hi == hi
    ensures 0 <= lo <= hi <= |t| && NormLines(norm, after.history) == t[lo..hi]
  {
  }

  lemma EndBounds(snaps: seq<Snap>, first: nat, newest: nat, end: Track)
    requires end == AdvanceAll(StartAt(first), snaps) && newest == NewestSeen(snaps, first)
    ensures end.hi == newest && end.lo == Max(first, newest - MAX_LINES)
  {
    AdvanceAllBounds(StartAt(first), snaps, first);
  }

  lemma {:induction false} NewestSeenGrows(snaps: seq<Snap>, from: nat)
    ensures NewestSeen(snaps, from) >= from
    decreases |snaps|
  {
    if snaps != [] { NewestSeenGrows(snaps[1..], Max(from, snaps[0].e)); }
  }

  // ---- which snapshot a line comes from ----

  predicate Shows(snap: Snap, x: nat) { snap.s <= x < snap.e }

  lemma LegalIsShaped(norm: Normalizer, hash: Hasher, t: seq<string>, k: Track, snap: Snap)
    requires Legal(norm, hash, t, k, snap) && |k.rows| == k.hi - k.lo
    ensures Shaped(k, snap)
  {
    ConnectedStarts(t, Views(k.lo, k.hi, snap.s, snap.e));
    assert |snap.body| == |t[snap.s..snap.e]|;
  }

  /** One step: the rows the snapshot shows are its own, the others stay. */
  lemma AdvanceRow(k: Track, snap: Snap, x: nat)
    requires Shaped(k, snap) && Advance(k, snap).lo <= x < Advance(k, snap).hi
    ensures var k' := Advance(k, snap);
            && |k'.rows| == k'.hi - k'.lo
            && (Shows(snap, x) ==> k'.rows[x - k'.lo] == snap.body[x - snap.s])
            && (!Shows(snap, x) ==> k.lo <= x < k.hi && k'.rows[x - k'.lo] == k.rows[x - k.lo])
  {
    var k', rows := Advance(k, snap), Overlaid(k.rows, snap.body, Views(k.lo, k.hi, snap.s, snap.e));
    assert k'.rows[x - k'.lo] == rows[x - k.lo];
  }

  lemma AdvanceSize(k: Track, snap: Snap)
    requires Shaped(k, snap)
    ensures var k' := Advance(k, snap); k'.lo <= k'.hi && |k'.rows| == k'.hi - k'.lo
  {
  }

  /** The last snapshot that shows line x of the transcript. */
  ghost predicate IsLastShown(snaps: seq<Snap>, x: nat, i: int) {
    0 <= i < |snaps| && Shows(snaps[i], x) && forall j :: i < j < |snaps| ==> !Shows(snaps[j], x)
  }

  /** Every snapshot of the run can be laid over the rows it finds. */
  predicate ShapedRun(k: Track, snaps: seq<Snap>)
    decreases |snaps|
  {
    snaps == [] || (Shaped(k, snaps[0]) && ShapedRun(Advance(k, snaps[0]), snaps[1..]))
  }

  lemma {:induction false} LegalRunIsShaped(norm: Normalizer, hash: Hasher, t: seq<string>, k: Track, snaps: seq<Snap>)
    requires LegalRun(norm, hash, t, k, snaps) && |k.rows| == k.hi - k.lo
    ensures ShapedRun(k, snaps)
    decreases |snaps|
  {
    if snaps != [] {
      LegalIsShaped(norm, hash, t, k, snaps[0]);
      AdvanceSize(k, snaps[0]);
      LegalRunIsShaped(norm, hash, t, Advance(k, snaps[0]), snaps[1..]);
    }
  }

  /** Line x of `end` comes from snapshot i, the last that showed it, or if i < 0 it was there before. */
  ghost predicate Origin(k: Track, snaps: seq<Snap>, x: nat, end: Track, i: int) {
    && |end.rows| == end.hi - end.lo && end.lo <= x < end.hi
    && (i >= 0 ==> IsLastShown(snaps, x, i) && x - snaps[i].s < |snaps[i].body|
                   && end.rows[x - end.lo] == snaps[i].body[x - snaps[i].s])
    && (i < 0 ==> (forall j :: 0 <= j < |snaps| ==> !Shows(snaps[j], x))
                  && |k.rows| == k.hi - k.lo && k.lo <= x < k.hi && end.rows[x - end.lo] == k.rows[x - k.lo])
  }

  lemma {:induction false} RowOrigin(k: Track, snaps: seq<Snap>, x: nat, end: Track) returns (i: int)
    requires ShapedRun(k, snaps) && k.lo <= k.hi && |k.rows| == k.hi - k.lo
    requires end == AdvanceAll(k, snaps) && end.lo <= x < end.hi
    ensures Origin(k, snaps, x, end, i)
    decreases |snaps|
  {
    if snaps == [] {
      i := -1;
    } else {
      AdvanceSize(k, snaps[0]);
      var later := RowOrigin(Advance(k, snaps[0]), snaps[1..], x, end);
      i := OriginBefore(k, snaps, x, end, later);
    }
  }

  lemma OriginBefore(k: Track, snaps: seq<Snap>, x: nat, end: Track, later: int) returns (i: int)
    requires snaps != [] && Shaped(k, snaps[0]) && Origin(Advance(k, snaps[0]), snaps[1..], x, end, later)
    ensures Origin(k, snaps, x, end, i)
  {
    i := LaterOrigin(snaps, x, later);
    if later < 0 { OriginHere(k, snaps, x, end, Advance(k, snaps[0]), i); }
  }

  /** No later snapshot shows line x: it stands as the first left it. */
  lemma OriginHere(k: Track, snaps: seq<Snap>, x: nat, end: Track, k': Track, i: int)
    requires snaps != [] && Shaped(k, snaps[0]) && k' == Advance(k, snaps[0])
    requires |end.rows| == end.hi - end.lo && end.lo <= x < end.hi && |k'.rows| == k'.hi - k'.lo && k'.lo <= x < k'.hi
    requires end.rows[x - end.lo] == k'.rows[x - k'.lo]
    requires if Shows(snaps[0], x) then i == 0 && IsLastShown(snaps, x, 0)
             else i < 0 && forall j :: 0 <= j < |snaps| ==> !Shows(snaps[j], x)
    ensures Origin(k, snaps, x, end, i)
  {
    AdvanceRow(k, snaps[0], x);
  }

  lemma LaterOrigin(snaps: seq<Snap>, x: nat, later: int) returns (i: int)
    requires snaps != []
    requires if later >= 0 then IsLastShown(snaps[1..], x, later)
             else forall j :: 0 <= j < |snaps[1..]| ==> !Shows(snaps[1..][j], x)
    ensures later >= 0 ==> i == later + 1 && IsLastShown(snaps, x, i) && snaps[i] == snaps[1..][later]
    ensures later < 0 && Shows(snaps[0], x) ==> i == 0 && IsLastShown(snaps, x, 0)
    ensures later < 0 && !Shows(snaps[0], x) ==> i < 0 && forall j :: 0 <= j < |snaps| ==> !Shows(snaps[j], x)
  {
    i := if later >= 0 then later + 1 else if Shows(snaps[0], x) then 0 else -1;
    assert forall j :: 0 < j < |snaps| ==> snaps[j] == snaps[1..][j - 1];
  }

  /** The last snapshot whose body differs from the one before; the first one always does. */
  ghost predicate IsLastChange(snaps: seq<Snap>, i: int) {
    && 0 <= i < |snaps| && (i > 0 ==> snaps[i].body != snaps[i - 1].body)
    && forall j :: i < j < |snaps| ==> snaps[j].body == snaps[j - 1].body
  }

  /** The footer is that of the last snapshot that changed the body. */
  lemma {:induction false} FooterOrigin(k: Track, snaps: seq<Snap>) returns (i: int)
    requires snaps != []
    ensures 0 <= i ==> IsLastChange(snaps, i) && AdvanceAll(k, snaps).footer == snaps[i].footer
    ensures i == 0 ==> k.last.None? || k.last.value.body != snaps[0].body
    ensures i < 0 ==> k.last.Some? && k.last.value.body == snaps[0].body && AdvanceAll(k, snaps).footer == k.footer
                      && forall j :: 0 < j < |snaps| ==> snaps[j].body == snaps[j - 1].body
    decreases |snaps|
  {
    var k' := Advance(k, snaps[0]);
    i := if k.last.Some? && k.last.value.body == snaps[0].body then -1 else 0;
    if |snaps| > 1 {
      var later := FooterOrigin(k', snaps[1..]);
      i := LaterChange(snaps, later, i);
    } else {
      assert snaps[1..] == [];
    }
  }

  lemma LaterChange(snaps: seq<Snap>, later: int, first: int) returns (i: int)
    requires |snaps| > 1 && first <= 0
    requires if later >= 0 then IsLastChange(snaps[1..], later) && (later == 0 ==> snaps[1].body != snaps[0].body)
             else snaps[1].body == snaps[0].body
                  && forall j :: 0 < j < |snaps[1..]| ==> snaps[1..][j].body == snaps[1..][j - 1].body
    ensures later >= 0 ==> i == later + 1 && IsLastChange(snaps, i) && snaps[i] == snaps[1..][later]
    ensures later < 0 ==> i == first && forall j :: 0 < j < |snaps| ==> snaps[j].body == snaps[j - 1].body
    ensures later < 0 && first == 0 ==> IsLastChange(snaps, 0)
  {
    i := if later >= 0 then later + 1 else first;
    var rest := snaps[1..];
    assert forall j :: 0 <= j < |rest| ==> rest[j] == snaps[j + 1];
    forall j | 1 < j < |snaps| && rest[j - 1].body == rest[j - 2].body ensures snaps[j].body == snaps[j - 1].body {
    }
  }

  /** The pane's state after a run of raw snapshots. */
  function MergeRaws(norm: Normalizer, st: PaneState, raws: seq<string>): PaneState
    decreases |raws|
  {
    if raws == [] then st else MergeRaws(norm, MergeStep(norm, st, raws[0]), raws[1..])
  }

  ghost predicate Parses(raws: seq<string>, snaps: seq<Snap>) {
    |raws| == |snaps| && forall i :: 0 <= i < |raws| ==> SplitSnapshot(raws[i]) == (snaps[i].body, snaps[i].footer)
  }

  lemma {:induction false} MergeRawsMergesBodies(norm: Normalizer, st: PaneState, raws: seq<string>, snaps: seq<Snap>)
    requires Parses(raws, snaps)
    ensures MergeRaws(norm, st, raws) == MergeAll(MergerOf(norm, HashLines), st, snaps)
    decreases |raws|
  {
    if raws != [] { MergeRawsMergesBodies(norm, MergeStep(norm, st, raws[0]), raws[1..], snaps[1..]); }
  }

  /** The same for the snapshots as they arrive, under the code's own hash. */
  lemma SnapshotsLeaveOneRun(
    norm: Normalizer, t: seq<string>, raws: seq<string>, snaps: seq<Snap>, newest: nat, after: PaneState)
    requires Distinct(t) && snaps != [] && Parses(raws, snaps)
    requires snaps[0].s <= |t| && LegalRun(norm, HashLines, t, StartAt(snaps[0].s), snaps)
    requires newest == NewestSeen(snaps, snaps[0].s) && after == MergeRaws(norm, EMPTY_STATE, raws)
    ensures snaps[0].s < newest <= |t|
    ensures NormLines(norm, after.history) == t[Max(snaps[0].s, newest - MAX_LINES)..newest]
  {
    MergeRawsMergesBodies(norm, EMPTY_STATE, raws, snaps);
    HistoryIsOneRun(norm, HashLines, t, snaps, newest, after);
  }

  /** The line as the last snapshot that showed it had it. */
  ghost predicate LatestLine(snaps: seq<Snap>, x: nat, line: string) {
    exists i :: IsLastShown(snaps, x, i) && x - snaps[i].s < |snaps[i].body| && line == snaps[i].body[x - snaps[i].s]
  }

  ghost predicate LatestFooter(snaps: seq<Snap>, footer: seq<string>) {
    exists i :: IsLastChange(snaps, i) && footer == snaps[i].footer
  }

  /** Every line of a track stands as the last snapshot that showed it had it. */
  lemma TrackShowsLatestLines(snaps: seq<Snap>, first: nat, end: Track, i: nat)
    requires ShapedRun(StartAt(first), snaps) && end == AdvanceAll(StartAt(first), snaps) && i < |end.rows|
    ensures |end.rows| == end.hi - end.lo && LatestLine(snaps, end.lo + i, end.rows[i])
  {
    var k, x, line := StartAt(first), end.lo + i, end.rows[i];
    assert |end.rows| == end.hi - end.lo by { RunSize(k, snaps); }
    assert LatestLine(snaps, x, line) by { EmptyTrackShowsLatest(k, snaps, end, x, line); }
  }

  lemma EmptyTrackShowsLatest(k: Track, snaps: seq<Snap>, end: Track, x: nat, line: string)
    requires ShapedRun(k, snaps) && k.lo == k.hi && k.rows == [] && end == AdvanceAll(k, snaps)
    requires |end.rows| == end.hi - end.lo && end.lo <= x < end.hi && line == end.rows[x - end.lo]
    ensures LatestLine(snaps, x, line)
  {
    var origin := RowOrigin(k, snaps, x, end);
    OriginIsLatest(k, snaps, x, end, origin, line);
  }

  lemma OriginIsLatest(k: Track, snaps: seq<Snap>, x: nat, end: Track, origin: int, line: string)
    requires Origin(k, snaps, x, end, origin) && k.lo == k.hi && line == end.rows[x - end.lo]
    ensures LatestLine(snaps, x, line)
  {
    assert IsLastShown(snaps, x, origin);
  }

  /** And its footer is that of the last snapshot that changed the body. */
  lemma TrackShowsLatestFooter(snaps: seq<Snap>, first: nat, end: Track)
    requires snaps != [] && end == AdvanceAll(StartAt(first), snaps)
    ensures LatestFooter(snaps, end.footer)
  {
    var i := FooterOrigin(StartAt(first), snaps);
    assert i >= 0 ==> IsLastChange(snaps, i);
  }

  lemma {:induction false} RunSize(k: Track, snaps: seq<Snap>)
    requires ShapedRun(k, snaps) && k.lo <= k.hi && |k.rows| == k.hi - k.lo
    ensures var end := AdvanceAll(k, snaps); end.lo <= end.hi && |end.rows| == end.hi - end.lo
    decreases |snaps|
  {
    if snaps != [] {
      AdvanceSize(k, snaps[0]);
      RunSize(Advance(k, snaps[0]), snaps[1..]);
    }
  }

  /**
    After every run of connected snapshots the pane holds exactly the rows and the footer of the track,
    as they were shown, and answers with the last `limit` lines of the two together.
   */
  lemma SnapshotsLeaveTrack(
    norm: Normalizer, t: seq<string>, raws: seq<string>, snaps: seq<Snap>, after: PaneState, end: Track, limit: nat)
    requires Distinct(t) && snaps != [] && Parses(raws, snaps)
    requires snaps[0].s <= |t| && LegalRun(norm, HashLines, t, StartAt(snaps[0].s), snaps)
    requires after == MergeRaws(norm, EMPTY_STATE, raws) && end == AdvanceAll(StartAt(snaps[0].s), snaps)
    ensures after.history == end.rows && after.footer == end.footer && ShapedRun(StartAt(snaps[0].s), snaps)
    ensures end.hi == NewestSeen(snaps, snaps[0].s) && end.lo == Max(snaps[0].s, end.hi - MAX_LINES)
    ensures JoinContent(after, limit).0
         == Join(if limit == 0 then end.rows + end.footer else LastN(end.rows + end.footer, limit), '\n')
  {
    MergeRawsMergesBodies(norm, EMPTY_STATE, raws, snaps);
    EndOfRun(norm, HashLines, t, snaps, snaps[0].s, after, end);
    LegalRunIsShaped(norm, HashLines, t, StartAt(snaps[0].s), snaps);
    EndBounds(snaps, snaps[0].s, NewestSeen(snaps, snaps[0].s), end);
  }

  // ---- the body hash ----

  lemma WindowMoves(t: seq<string>, k: Track, snap: Snap)
    requires Distinct(t) && k.lo <= k.hi <= |t| && k.hi - k.lo <= MAX_LINES && snap.s < snap.e <= |t|
    ensures var k' := Advance(k, snap);
            t[k.lo..k.hi] == t[k'.lo..k'.hi] <==> snap.e <= k.hi
  {
    var k' := Advance(k, snap);
    if k.hi < snap.e && t[k.lo..k.hi] == t[k'.lo..k'.hi] {
      SameWindow(t, k'.lo, k'.hi, k.lo, k.hi);
    }
  }

  /** A snapshot whose body hash equals the last one's is dropped; the history is
      then right exactly when the body shows nothing newer. */
  lemma EqualHashDropsSnapshot(norm: Normalizer, hash: Hasher, t: seq<string>, st: PaneState, k: Track, snap: Snap)
    requires Distinct(t) && Tracks(norm, hash, t, st, k) && hash(snap.body) == st.lastHash
    requires snap.s < snap.e <= |t| && NormLines(norm, snap.body) == t[snap.s..snap.e]
    ensures MergeBody(norm, hash, st, snap.body, snap.footer) == st
    ensures var k' := Advance(k, snap);
            NormLines(norm, st.history) == t[k'.lo..k'.hi] <==> snap.e <= k.hi
  {
    WindowMoves(t, k, snap);
  }

  lemma HashOfTwoChars(x: char, y: char)
    requires (x as nat) < 128 && (y as nat) < 128
    ensures HashFrom(0, [[x, y]]) == ((x as nat) * 31 + y as nat) * 31 + 10
  {
    assert [x, y][1..] == [y] && [y][1..] == "";
    assert [[x, y]][1..] == [];
    assert HashChars(0, [x, y]) == HashChars(x as nat, [y]) == HashChars((x as nat) * 31 + y as nat, "");
  }

  /** The hash does collide: with no normalization at all, "BB" after "Aa" is lost. */
  lemma HashCollides()
    ensures HashLines(["Aa"]) == HashLines(["BB"])
    ensures var first := MergeStep(s => s, EMPTY_STATE, "Aa");
            first.history == ["Aa"] && MergeStep(s => s, first, "BB") == first
  {
    HashOfTwoChars('A', 'a');
    HashOfTwoChars('B', 'B');
    SplitStep("Aa", '\n', "");
    SplitStep("BB", '\n', "");
    assert [] + ["Aa"] == ["Aa"];
  }
}
