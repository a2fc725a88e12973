/**
  Scroll harvest: the viewport is scrolled up step by step, and each snapshot
  adds to the collected rows only what it newly exposes. Rows are compared by
  their plain form, which is a parameter.
 */
module ScrollHarvest {
  import opened Text

  const MAX_STEPS: nat := 64

  type Plainer = string -> string

  function Plain(plain: Plainer, rows: seq<string>): (p: seq<string>)
    ensures |p| == |rows| && forall i :: 0 <= i < |rows| ==> p[i] == plain(rows[i])
  {
    seq(|rows|, i requires 0 <= i < |rows| => plain(rows[i]))
  }

  lemma PlainSlice(plain: Plainer, rows: seq<string>, lo: nat, hi: nat)
    requires lo <= hi <= |rows|
    ensures Plain(plain, rows[lo..hi]) == Plain(plain, rows)[lo..hi]
  {
    forall i | 0 <= i < hi - lo ensures Plain(plain, rows[lo..hi])[i] == Plain(plain, rows)[lo..hi][i] {
      assert rows[lo..hi][i] == rows[lo + i];
    }
  }

  lemma PlainAppend(plain: Plainer, xs: seq<string>, ys: seq<string>)
    ensures Plain(plain, xs + ys) == Plain(plain, xs) + Plain(plain, ys)
  {
  }

  // ---- searching rows ----

  /** Rows up to and including the third non-blank one, given how many were counted. */
  function Span(rows: seq<string>, counted: nat): (n: Option<nat>)
    ensures n.Some? ==> 1 <= n.value <= |rows|
    decreases |rows|
  {
    if rows == [] then None else
      var count := counted + if rows[0] != "" then 1 else 0;
      if count == 3 then Some(1) else
        match Span(rows[1..], count)
        case Some(n) => Some(n + 1)
        case None => None
  }

  /** The first window equal to the block, from an index on. */
  function FirstMatch(rows: seq<string>, block: seq<string>, start: nat): (at: Option<nat>)
    ensures at.Some? ==>
              start <= at.value && at.value + |block| <= |rows| && rows[at.value..at.value + |block|] == block
    decreases |rows| - start
  {
    if start + |block| > |rows| then None
    else if rows[start..start + |block|] == block then Some(start)
    else if start == |rows| then None
    else FirstMatch(rows, block, start + 1)
  }

  /** A search that finds nothing means there is no such window, and the first one found is the first. */
  lemma {:induction false} FirstMatchIsFirst(rows: seq<string>, block: seq<string>, start: nat, i: nat)
    requires start <= i && i + |block| <= |rows| && rows[i..i + |block|] == block
    ensures FirstMatch(rows, block, start).Some? && FirstMatch(rows, block, start).value <= i
    decreases |rows| - start
  {
    if rows[start..start + |block|] != block {
      FirstMatchIsFirst(rows, block, start + 1, i);
    }
  }

  // ---- merging one snapshot ----

  /** The rows collected and how many were added; nothing is known when the overlap is lost. */
  type Merged = (seq<string>, Option<nat>)

  /** The only window equal to the block, if there is exactly one. */
  function OnlyMatch(rows: seq<string>, block: seq<string>): (at: Option<nat>)
    ensures at.Some? ==> at.value + |block| <= |rows|
  {
    var at := FirstMatch(rows, block, 0);
    if at.Some? && FirstMatch(rows, block, at.value + 1).None? then at else None
  }

  /** A sticky prompt that expanded: an early run of three rows that now stands lower. */
  function ExpandedTo(
    plain: Plainer, history: seq<string>, before: seq<string>, after: seq<string>, start: nat)
    : (at: Option<nat>)
    requires 1 <= start < |before| / 2
    ensures at.Some? ==> start < at.value <= |after| && start <= |history|
  {
    var anchor := before[start..start + 3];
    if "" in anchor then None else
      var at := OnlyMatch(after, anchor);
      if at.Some? && at.value > start && before[..start] <= Plain(plain, history) then at else None
  }

  /** The first such run replaces what stood above it. */
  function ReplaceHeader(
    plain: Plainer, history: seq<string>, before: seq<string>, after: seq<string>, next: seq<string>,
    start: nat): Merged
    requires |after| == |next| && start >= 1
    decreases |before| - start
  {
    if start >= |before| / 2 then (history, None) else
      match ExpandedTo(plain, history, before, after, start)
      case Some(at) => (next[..at] + history[start..], Some(at - start))
      case None => ReplaceHeader(plain, history, before, after, next, start + 1)
  }

  /** Newly exposed rows go below the shared header, if the history has it on top. */
  function Insert(plain: Plainer, history: seq<string>, header: seq<string>, exposed: seq<string>): seq<string> {
    if header <= Plain(plain, history) then history[..|header|] + exposed + history[|header|..] else exposed + history
  }

  /** The rows from the header on, up to the third non-blank one. */
  function Anchor(before: seq<string>, header: nat): (anchor: seq<string>)
    requires header <= |before|
    ensures |anchor| + header <= |before|
    ensures anchor != [] ==> anchor[0] == before[header]
  {
    match Span(before[header..], 0)
    case Some(span) => before[header..header + span]
    case None => []
  }

  /** What the anchor below the header tells about the new snapshot. */
  function MergeFrom(plain: Plainer, history: seq<string>, before: seq<string>, after: seq<string>, next: seq<string>,
                     header: nat, anchor: seq<string>): Merged
    requires |after| == |next| && header <= |before| && header <= |after|
  {
    if anchor == [] then (history, None)
    else if FirstMatch(after[header..], anchor, 0).None? then ReplaceHeader(plain, history, before, after, next, 1)
    else
      match OnlyMatch(after[header..], anchor)
      case None => (history, None)
      case Some(added) =>
        if added == 0 then (history, None)
        else (Insert(plain, history, before[..header], next[header..header + added]), Some(added))
  }

  function MergeRows(
    plain: Plainer, history: seq<string>, before: seq<string>, after: seq<string>, next: seq<string>): Merged
    requires |after| == |next|
  {
    var header := CommonPrefix(before, after);
    MergeFrom(plain, history, before, after, next, header, Anchor(before, header))
  }

  function MergeUp(plain: Plainer, history: seq<string>, previous: seq<string>, next: seq<string>): Merged {
    var before, after := Plain(plain, previous), Plain(plain, next);
    if before == after then (history, Some(0)) else MergeRows(plain, history, before, after, next)
  }

  /**
    The three facts every caller relies on: `Some(k)` grew the history by k rows, `None` and
    `Some(0)` left it alone.
   */
  predicate Accounted(history: seq<string>, merged: Merged) {
    && (merged.1.Some? ==> |merged.0| == |history| + merged.1.value)
    && (merged.1 == None || merged.1 == Some(0) ==> merged.0 == history)
  }

  lemma {:induction false} ReplaceIsAccounted(
    plain: Plainer, history: seq<string>, before: seq<string>, after: seq<string>, next: seq<string>, start: nat)
    requires |after| == |next| && start >= 1
    ensures Accounted(history, ReplaceHeader(plain, history, before, after, next, start))
    decreases |before| - start
  {
    if start < |before| / 2 && ExpandedTo(plain, history, before, after, start).None? {
      ReplaceIsAccounted(plain, history, before, after, next, start + 1);
    }
  }

  /** Where a replaced header ended: the same three rows follow it before and after, and only the header goes. */
  predicate ReplacedAt(
    plain: Plainer, history: seq<string>, before: seq<string>, after: seq<string>, next: seq<string>,
    merged: Merged, start: nat)
  {
    && merged.1.Some? && 1 <= start < |before| / 2 && start + merged.1.value + 3 <= |after| == |next|
    && before[..start] <= Plain(plain, history)
    && after[start + merged.1.value..start + merged.1.value + 3] == before[start..start + 3]
    && start <= |history| && merged.0 == next[..start + merged.1.value] + history[start..]
  }

  /** A replaced header is the new snapshot's down to a run of three rows that stood higher in the old one. */
  lemma {:induction false} ReplaceKeepsRest(
    plain: Plainer, history: seq<string>, before: seq<string>, after: seq<string>, next: seq<string>, start: nat)
    returns (header: nat)
    requires |after| == |next| && start >= 1
    ensures var merged := ReplaceHeader(plain, history, before, after, next, start);
            if merged.1.None? then merged.0 == history
            else header >= start && ReplacedAt(plain, history, before, after, next, merged, header)
    decreases |before| - start
  {
    header := start;
    if start < |before| / 2 {
      if ExpandedTo(plain, history, before, after, start).None? {
        header := ReplaceKeepsRest(plain, history, before, after, next, start + 1);
      } else {
        OnlyMatchMatches(after, before[start..start + 3]);
      }
    }
  }

  lemma OnlyMatchMatches(rows: seq<string>, block: seq<string>)
    ensures var at := OnlyMatch(rows, block);
            at.Some? ==> at.value + |block| <= |rows| && rows[at.value..at.value + |block|] == block
  {
  }

  /**
    The new rows stand below the shared header of the history, or on top if the history does not start
    with it: the rows of the new snapshot above the anchor, which the old one has right below the header.
   */
  predicate InsertedAt(
    plain: Plainer, history: seq<string>, before: seq<string>, after: seq<string>, next: seq<string>,
    merged: Merged, header: nat, span: nat)
  {
    && merged.1.Some? && header <= |before| && span > 0 && header + span <= |before|
    && before[..header] == after[..Min(header, |after|)] && header + merged.1.value + span <= |after| == |next|
    && after[header + merged.1.value..header + merged.1.value + span] == before[header..header + span]
    && var at := if before[..header] <= Plain(plain, history) then header else 0;
       at <= |history| && merged.0 == history[..at] + next[header..header + merged.1.value] + history[at..]
  }

  /** Every merge is of one of three shapes: nothing, an insertion, or a replaced header. */
  lemma MergeShapes(plain: Plainer, history: seq<string>, previous: seq<string>, next: seq<string>, merged: Merged)
    returns (header: nat, span: nat)
    requires merged == MergeUp(plain, history, previous, next)
    ensures var before, after := Plain(plain, previous), Plain(plain, next);
            || (merged.0 == history && merged.1 in {None, Some(0)})
            || InsertedAt(plain, history, before, after, next, merged, header, span)
            || ReplacedAt(plain, history, before, after, next, merged, header)
  {
    var before, after := Plain(plain, previous), Plain(plain, next);
    header, span := 0, 0;
    if before != after { header, span := RowsShapes(plain, history, before, after, next, merged); }
  }

  lemma RowsShapes(
    plain: Plainer, history: seq<string>, before: seq<string>, after: seq<string>, next: seq<string>, merged: Merged)
    returns (header: nat, span: nat)
    requires |after| == |next| && merged == MergeRows(plain, history, before, after, next)
    ensures || merged == (history, None)
            || InsertedAt(plain, history, before, after, next, merged, header, span)
            || ReplacedAt(plain, history, before, after, next, merged, header)
  {
    header := CommonPrefix(before, after);
    var anchor := Anchor(before, header);
    span := |anchor|;
    if anchor != [] {
      if FirstMatch(after[header..], anchor, 0).None? {
        header := ReplaceKeepsRest(plain, history, before, after, next, 1);
      } else {
        CommonPrefixIsCommon(before, after);
        AnchorIsSlice(before, header);
        var only := OnlyMatch(after[header..], anchor);
        MergeFromIs(plain, history, before, after, next, header, anchor, only);
        MatchesBelow(plain, history, before, after, next, header, anchor, only, merged);
      }
    }
  }

  lemma MatchesBelow(
    plain: Plainer, history: seq<string>, before: seq<string>, after: seq<string>, next: seq<string>,
    header: nat, anchor: seq<string>, only: Option<nat>, merged: Merged)
    requires |after| == |next| && header <= |before| && header <= |after| && before[..header] == after[..header]
    requires anchor != [] && header + |anchor| <= |before| && anchor == before[header..header + |anchor|]
    requires only == OnlyMatch(after[header..], anchor)
    requires merged == if only.Some? && only.value > 0
                       then (Insert(plain, history, before[..header], next[header..header + only.value]), only)
                       else (history, None)
    ensures merged == (history, None) || InsertedAt(plain, history, before, after, next, merged, header, |anchor|)
  {
    if only.Some? { MatchBelow(after, header, anchor, only.value); }
    InsertsBelow(plain, history, before, after, next, header, anchor, only, merged);
  }

  lemma InsertShape(
    plain: Plainer, history: seq<string>, before: seq<string>, after: seq<string>, next: seq<string>,
    header: nat, anchor: seq<string>, added: nat, merged: Merged)
    requires |after| == |next| && header <= |before| && header <= |after| && before[..header] == after[..header]
    requires anchor != [] && header + |anchor| <= |before| && anchor == before[header..header + |anchor|]
    requires header + added + |anchor| <= |after| && after[header + added..header + added + |anchor|] == anchor
    requires merged == (Insert(plain, history, before[..header], next[header..header + added]), Some(added))
    ensures InsertedAt(plain, history, before, after, next, merged, header, |anchor|)
  {
    InsertIs(plain, history, before[..header], next[header..header + added]);
  }

  lemma MergeFromIs(
    plain: Plainer, history: seq<string>, before: seq<string>, after: seq<string>, next: seq<string>,
    header: nat, anchor: seq<string>, only: Option<nat>)
    requires |after| == |next| && header <= |before| && header <= |after| && anchor != []
    requires FirstMatch(after[header..], anchor, 0).Some? && only == OnlyMatch(after[header..], anchor)
    ensures MergeFrom(plain, history, before, after, next, header, anchor)
         == if only.Some? && only.value > 0
            then (Insert(plain, history, before[..header], next[header..header + only.value]), only)
            else (history, None)
  {
  }

  lemma InsertsBelow(
    plain: Plainer, history: seq<string>, before: seq<string>, after: seq<string>, next: seq<string>,
    header: nat, anchor: seq<string>, only: Option<nat>, merged: Merged)
    requires |after| == |next| && header <= |before| && header <= |after| && before[..header] == after[..header]
    requires anchor != [] && header + |anchor| <= |before| && anchor == before[header..header + |anchor|]
    requires only.Some? ==> header + only.value + |anchor| <= |after|
                            && after[header + only.value..header + only.value + |anchor|] == anchor
    requires merged == if only.Some? && only.value > 0
                       then (Insert(plain, history, before[..header], next[header..header + only.value]), only)
                       else (history, None)
    ensures merged == (history, None) || InsertedAt(plain, history, before, after, next, merged, header, |anchor|)
  {
    if only.Some? && only.value > 0 {
      InsertShape(plain, history, before, after, next, header, anchor, only.value, merged);
    }
  }

  lemma MatchBelow(after: seq<string>, header: nat, anchor: seq<string>, at: nat)
    requires header <= |after| && OnlyMatch(after[header..], anchor) == Some(at)
    ensures header + at + |anchor| <= |after| && after[header + at..header + at + |anchor|] == anchor
  {
    OnlyMatchMatches(after[header..], anchor);
    SliceBelow(after, header, at, |anchor|);
  }

  lemma SliceBelow(rows: seq<string>, header: nat, at: nat, span: nat)
    requires header + at + span <= |rows|
    ensures rows[header..][at..at + span] == rows[header + at..header + at + span]
  {
  }

  lemma InsertIs(plain: Plainer, history: seq<string>, header: seq<string>, exposed: seq<string>)
    ensures var at := if header <= Plain(plain, history) then |header| else 0;
            at <= |history| && Insert(plain, history, header, exposed) == history[..at] + exposed + history[at..]
  {
    assert history[..0] + exposed + history[0..] == exposed + history;
  }

  lemma AnchorIsSlice(before: seq<string>, header: nat)
    requires header <= |before|
    ensures var anchor := Anchor(before, header);
            header + |anchor| <= |before| && anchor == before[header..header + |anchor|]
  {
  }

  lemma InsertIsAccounted(plain: Plainer, history: seq<string>, header: seq<string>, exposed: seq<string>)
    ensures |Insert(plain, history, header, exposed)| == |history| + |exposed|
  {
  }

  lemma MergeFromIsAccounted(
    plain: Plainer, history: seq<string>, before: seq<string>, after: seq<string>, next: seq<string>,
    header: nat, anchor: seq<string>)
    requires |after| == |next| && header <= |before| && header <= |after|
    ensures Accounted(history, MergeFrom(plain, history, before, after, next, header, anchor))
  {
    ReplaceIsAccounted(plain, history, before, after, next, 1);
    if anchor != [] {
      var added := OnlyMatch(after[header..], anchor);
      if added.Some? { InsertIsAccounted(plain, history, before[..header], next[header..header + added.value]); }
    }
  }

  lemma MergeIsAccounted(plain: Plainer, history: seq<string>, previous: seq<string>, next: seq<string>)
    ensures Accounted(history, MergeUp(plain, history, previous, next))
  {
    var before, after := Plain(plain, previous), Plain(plain, next);
    var header := CommonPrefix(before, after);
    MergeFromIsAccounted(plain, history, before, after, next, header, Anchor(before, header));
  }

  lemma MatchAtStart(rows: seq<string>, block: seq<string>)
    requires block != []
    ensures FirstMatch(rows, block, 0) == Some(0) ==> rows != [] && rows[0] == block[0]
  {
    if FirstMatch(rows, block, 0) == Some(0) { assert rows[0..|block|][0] == block[0]; }
  }

  /** The anchor never matches right at the header: the `added == 0` guard is never the reason to give up. */
  lemma AddedIsNeverZero(before: seq<string>, after: seq<string>, header: nat, anchor: seq<string>)
    requires header == CommonPrefix(before, after) && anchor == Anchor(before, header) && anchor != []
    ensures FirstMatch(after[header..], anchor, 0) != Some(0)
  {
    MatchAtStart(after[header..], anchor);
  }

  // ---- the loops of `merge_up` ----

  method FindSpan(rows: seq<string>) returns (span: Option<nat>)
    ensures span == Span(rows, 0)
  {
    var nonblank := 0;
    ghost var goal := Span(rows, 0);
    for i := 0 to |rows|
      invariant goal == match Span(rows[i..], nonblank) { case Some(n) => Some(i + n) case None => None }
    {
      assert rows[i..][1..] == rows[i + 1..];
      if rows[i] != "" { nonblank := nonblank + 1; }
      if nonblank == 3 { return Some(i + 1); }
    }
    span := None;
  }

  method FindMatch(rows: seq<string>, block: seq<string>, start: nat) returns (at: Option<nat>)
    requires block != []
    ensures at == FirstMatch(rows, block, start)
  {
    var i := start;
    while i + |block| <= |rows|
      invariant start <= i && FirstMatch(rows, block, i) == FirstMatch(rows, block, start)
      decreases |rows| - i
    {
      if rows[i..i + |block|] == block { return Some(i); }
      i := i + 1;
    }
    at := None;
  }

  method FindOnlyMatch(rows: seq<string>, block: seq<string>) returns (first: Option<nat>, only: Option<nat>)
    requires block != []
    ensures first == FirstMatch(rows, block, 0) && only == OnlyMatch(rows, block)
  {
    first := FindMatch(rows, block, 0);
    only := None;
    if first.Some? {
      var again := FindMatch(rows, block, first.value + 1);
      if again.None? { only := first; }
    }
  }

  method FindExpansion(plain: Plainer, history: seq<string>, before: seq<string>, after: seq<string>, start: nat)
    returns (at: Option<nat>)
    requires 1 <= start < |before| / 2
    ensures at == ExpandedTo(plain, history, before, after, start)
  {
    var anchor := before[start..start + 3];
    if "" in anchor { return None; }
    var first, only := FindOnlyMatch(after, anchor);
    at := if only.Some? && only.value > start && before[..start] <= Plain(plain, history) then only else None;
  }

  /** The fallback loop over early anchors. */
  method FindExpandedHeader(
    plain: Plainer, history: seq<string>, before: seq<string>, after: seq<string>, next: seq<string>)
    returns (merged: Merged)
    requires |after| == |next|
    ensures merged == ReplaceHeader(plain, history, before, after, next, 1)
  {
    var start := 1;
    ghost var goal := ReplaceHeader(plain, history, before, after, next, 1);
    while start < |before| / 2
      invariant start >= 1 && ReplaceHeader(plain, history, before, after, next, start) == goal
    {
      var at := FindExpansion(plain, history, before, after, start);
      if at.Some? { return (next[..at.value] + history[start..], Some(at.value - start)); }
      start := start + 1;
    }
    merged := (history, None);
  }

  method FindAnchor(before: seq<string>, header: nat) returns (anchor: seq<string>)
    requires header <= |before|
    ensures anchor == Anchor(before, header)
  {
    var span := FindSpan(before[header..]);
    anchor := if span.Some? then before[header..header + span.value] else [];
  }

  /** `merge_up` */
  method ComputeMergeUp(plain: Plainer, history: seq<string>, previous: seq<string>, next: seq<string>)
    returns (merged: Merged)
    ensures merged == MergeUp(plain, history, previous, next)
    ensures Accounted(history, merged)
  {
    MergeIsAccounted(plain, history, previous, next);
    var before, after := Plain(plain, previous), Plain(plain, next);
    if before == after { return (history, Some(0)); }
    merged := ComputeMergeRows(plain, history, before, after, next);
  }

  method ComputeMergeRows(
    plain: Plainer, history: seq<string>, before: seq<string>, after: seq<string>, next: seq<string>)
    returns (merged: Merged)
    requires |after| == |next|
    ensures merged == MergeRows(plain, history, before, after, next)
  {
    var header := CountCommon(before, after);
    var anchor := FindAnchor(before, header);
    if anchor == [] { return (history, None); }
    var first, only := FindOnlyMatch(after[header..], anchor);
    if first.None? {
      merged := FindExpandedHeader(plain, history, before, after, next);
    } else if only.None? || only.value == 0 {
      merged := (history, None);
    } else {
      merged := (Insert(plain, history, before[..header], next[header..header + only.value]), only);
    }
  }

  // ---- the harvest loop ----

  /** One wheel step: a snapshot, or anything that ends the loop. */
  datatype Scroll = Shows(rows: seq<string>) | Ends

  /** The rows collected from the snapshots of successive wheel steps. */
  function Harvest(
    plain: Plainer, history: seq<string>, previous: seq<string>, scrolls: seq<Scroll>, lines: nat, steps: nat)
    : seq<string>
    decreases |scrolls|
  {
    if |history| >= lines || steps >= MAX_STEPS || scrolls == [] || scrolls[0].Ends? then history else
      var (merged, added) := MergeUp(plain, history, previous, scrolls[0].rows);
      if added == None || added == Some(0) then history
      else Harvest(plain, merged, scrolls[0].rows, scrolls[1..], lines, steps + 1)
  }

  method ComputeHarvest(plain: Plainer, initial: seq<string>, scrolls: seq<Scroll>, lines: nat)
    returns (history: seq<string>)
    ensures history == Harvest(plain, initial, initial, scrolls, lines, 0)
  {
    history := initial;
    var previous, steps: nat := initial, 0;
    ghost var goal := Harvest(plain, initial, initial, scrolls, lines, 0);
    while |history| < lines && steps < MAX_STEPS && steps < |scrolls|
      invariant steps <= |scrolls| && Harvest(plain, history, previous, scrolls[steps..], lines, steps) == goal
      decreases MAX_STEPS - steps
    {
      var scroll := scrolls[steps];
      if scroll.Ends? { break; }
      assert scrolls[steps..][1..] == scrolls[steps + 1..];
      steps := steps + 1;
      var merged := ComputeMergeUp(plain, history, previous, scroll.rows);
      if merged.1 == None || merged.1 == Some(0) { break; }
      history, previous := merged.0, scroll.rows;
    }
  }

  // ---- restoring the view ----

  /** `restored_view`: the same body, all but the last eight rows but at least three. */
  predicate RestoredView(initial: seq<string>, current: seq<string>) {
    var body := if |initial| > 11 then |initial| - 8 else 3;
    |initial| == |current| && body <= |initial| && initial[..body] <= current
  }

  /** A view confirms itself exactly when it has three rows; then the last eight may change. */
  lemma RestoredViewOfItself(initial: seq<string>, current: seq<string>)
    ensures RestoredView(initial, initial) <==> |initial| >= 3
    ensures RestoredView(initial, current) <==>
              && |initial| == |current| >= 3
              && forall i :: 0 <= i < |initial| && (i < 3 || i < |initial| - 8) ==> initial[i] == current[i]
  {
    if RestoredView(initial, current) {
      var body := if |initial| > 11 then |initial| - 8 else 3;
      assert forall i :: 0 <= i < body ==> initial[i] == initial[..body][i];
    }
  }
}
