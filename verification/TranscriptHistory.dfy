/**
  Per-pane transcript history: bounded snapshots of a pane are folded into one
  growing history.

  Line normalization (stripping terminal escapes and trailing blanks) is a
  parameter: everything below holds for every `Normalizer`.
 */
module TranscriptHistory {
  import opened Text
  import opened SequenceMatcher

  const MAX_LINES: nat := 10_000
  const FOOTER_LINES: nat := 6

  type Normalizer = string -> string
  type Hasher = seq<string> -> string

  datatype PaneState = PaneState(history: seq<string>, footer: seq<string>, staleRefusals: int, lastHash: string)

  const EMPTY_STATE := PaneState([], [], 0, "")

  function NormLines(norm: Normalizer, lines: seq<string>): (r: seq<string>)
    ensures |r| == |lines|
    ensures forall i :: 0 <= i < |lines| ==> r[i] == norm(lines[i])
  {
    seq(|lines|, i requires 0 <= i < |lines| => norm(lines[i]))
  }

  /** `split_snapshot`: the body and the trailing footer rows. */
  function SplitSnapshot(raw: string): (r: (seq<string>, seq<string>))
    ensures r.0 != []
    ensures Join(r.0 + r.1, '\n') == raw && forall line :: line in r.0 + r.1 ==> '\n' !in line
    ensures |r.1| == if |r.0 + r.1| > FOOTER_LINES then FOOTER_LINES else 0
  {
    var lines := Split(raw, '\n');
    JoinSplit(raw, '\n');
    NoSeparator(raw, '\n');
    if |lines| <= FOOTER_LINES then
      assert lines + [] == lines;
      (lines, [])
    else
      var n := |lines| - FOOTER_LINES;
      assert lines[..n] + lines[n..] == lines;
      (lines[..n], lines[n..])
  }

  // ---- body hash ----

  function HashChars(h: nat, s: string): nat
    decreases |s|
  {
    if s == "" then h else HashChars((h * 31 + s[0] as nat) % 0x1_0000_0000_0000_0000, s[1..])
  }

  function HashFrom(h: nat, lines: seq<string>): nat
    decreases |lines|
  {
    if lines == [] then h else
      HashFrom((HashChars(h, lines[0]) * 31 + '\n' as nat) % 0x1_0000_0000_0000_0000, lines[1..])
  }

  function Hex(h: nat, digits: nat): (r: string)
    ensures |r| == digits
  {
    if digits == 0 then "" else Hex(h / 16, digits - 1) + ["0123456789abcdef"[h % 16]]
  }

  /** `hash_lines` */
  function HashLines(lines: seq<string>): (r: string)
    ensures |r| == 16
  {
    Hex(HashFrom(0, lines), 16)
  }

  // ---- tail overlap ----

  ghost predicate OverlapAt(history: seq<string>, current: seq<string>, k: nat) {
    k <= |history| && k <= |current| && history[|history| - k..] == current[..k]
  }

  /** k is the largest number of lines by which the history ends as the body starts. */
  ghost predicate IsTailOverlap(history: seq<string>, current: seq<string>, k: nat) {
    OverlapAt(history, current, k) && forall n: nat :: OverlapAt(history, current, n) ==> n <= k
  }

  function OverlapUpTo(history: seq<string>, current: seq<string>, k: nat): (n: nat)
    requires k <= |history| && k <= |current|
    ensures n <= k
  {
    if k == 0 || history[|history| - k..] == current[..k] then k else OverlapUpTo(history, current, k - 1)
  }

  function TailOverlap(history: seq<string>, current: seq<string>): (k: nat)
    ensures k <= |history| && k <= |current|
  {
    OverlapUpTo(history, current, if |history| < |current| then |history| else |current|)
  }

  lemma {:induction false} OverlapUpToIsLargest(history: seq<string>, current: seq<string>, k: nat)
    requires k <= |history| && k <= |current|
    ensures OverlapAt(history, current, OverlapUpTo(history, current, k))
    ensures forall n: nat :: n <= k && OverlapAt(history, current, n) ==> n <= OverlapUpTo(history, current, k)
  {
    if k > 0 && history[|history| - k..] != current[..k] {
      OverlapUpToIsLargest(history, current, k - 1);
    }
  }

  lemma TailOverlapIsLargest(history: seq<string>, current: seq<string>)
    ensures IsTailOverlap(history, current, TailOverlap(history, current))
  {
    OverlapUpToIsLargest(history, current, if |history| < |current| then |history| else |current|);
  }

  /** `tail_overlap` */
  method ComputeTailOverlap(history: seq<string>, current: seq<string>) returns (k: nat)
    ensures k == TailOverlap(history, current)
    ensures IsTailOverlap(history, current, k)
  {
    k := if |history| < |current| then |history| else |current|;
    TailOverlapIsLargest(history, current);
    while k > 0
      invariant k <= |history| && k <= |current|
      invariant OverlapUpTo(history, current, k) == TailOverlap(history, current)
    {
      if history[|history| - k..] == current[..k] {
        return;
      }
      k := k - 1;
    }
  }

  // ---- the sequence match that rebases ----

  function NonBlank(lines: seq<string>): nat {
    if lines == [] then 0 else (if lines[0] != "" then 1 else 0) + NonBlank(lines[1..])
  }

  predicate Qualifies(history: seq<string>, m: Match) {
    m.size >= 2 && m.a + m.size <= |history| && NonBlank(history[m.a..m.a + m.size]) >= 2
  }

  const NO_MATCH := Match(0, 0, 0)

  function Prefer(history: seq<string>, best: Match, m: Match): Match {
    if Qualifies(history, m) && (m.size > best.size || (m.size == best.size && m.a > best.a)) then m else best
  }

  function BestOf(history: seq<string>, blocks: seq<Match>): Match {
    if blocks == [] then NO_MATCH else
      Prefer(history, BestOf(history, blocks[..|blocks| - 1]), blocks[|blocks| - 1])
  }

  function SequenceMatch(history: seq<string>, current: seq<string>): Match {
    if history == [] || current == [] then NO_MATCH else BestOf(history, MatchingBlocks(history, current))
  }

  /** The largest qualifying block, the latest in the history among the largest; none if none qualifies. */
  lemma {:induction false} BestOfIsLargest(history: seq<string>, blocks: seq<Match>)
    ensures var best := BestOf(history, blocks);
            && (best == NO_MATCH || (best in blocks && Qualifies(history, best)))
            && (forall i :: 0 <= i < |blocks| && Qualifies(history, blocks[i]) ==>
                  blocks[i].size < best.size || (blocks[i].size == best.size && blocks[i].a <= best.a))
    decreases |blocks|
  {
    if blocks != [] {
      BestOfIsLargest(history, blocks[..|blocks| - 1]);
    }
  }

  lemma MatchingBlocksFit(history: seq<string>, current: seq<string>)
    ensures forall i :: 0 <= i < |MatchingBlocks(history, current)| ==>
      MatchingBlocks(history, current)[i].a + MatchingBlocks(history, current)[i].size <= |history|
  {
    var ms := MatchingBlocks(history, current);
    SentinelIsLast(history, current);
    forall i | 0 <= i < |ms| ensures ms[i].a + ms[i].size <= |history| {
      if i < |ms| - 1 { BlockIsCommon(history, current, i); }
    }
  }

  /** `sequence_match` */
  method ComputeSequenceMatch(history: seq<string>, current: seq<string>) returns (best: Match)
    ensures best == SequenceMatch(history, current)
  {
    best := NO_MATCH;
    if history == [] || current == [] {
      return;
    }
    var blocks := ComputeMatchingBlocks(history, current);
    MatchingBlocksFit(history, current);
    best := PickBlock(history, blocks);
  }

  /** The selection loop of `sequence_match`. */
  method PickBlock(history: seq<string>, blocks: seq<Match>) returns (best: Match)
    requires forall i :: 0 <= i < |blocks| ==> blocks[i].a + blocks[i].size <= |history|
    ensures best == BestOf(history, blocks)
  {
    best := NO_MATCH;
    for i := 0 to |blocks|
      invariant best == BestOf(history, blocks[..i])
    {
      assert blocks[..i + 1][..i] == blocks[..i];
      var block := blocks[i];
      if block.size < 2 {
        continue;
      }
      var nonEmpty := CountNonBlank(history[block.a..block.a + block.size]);
      if nonEmpty < 2 {
        continue;
      }
      if block.size > best.size || (block.size == best.size && block.a > best.a) {
        best := block;
      }
    }
    assert blocks[..|blocks|] == blocks;
  }

  method CountNonBlank(lines: seq<string>) returns (n: nat)
    ensures n == NonBlank(lines)
  {
    n := 0;
    for i := 0 to |lines|
      invariant n + NonBlank(lines[i..]) == NonBlank(lines)
    {
      assert lines[i..][1..] == lines[i + 1..];
      if lines[i] != "" {
        n := n + 1;
      }
    }
  }

  // ---- one merge step ----

  ghost predicate Fits2(history: seq<string>, body: seq<string>, m: Match) {
    m.a + m.size <= |history| && m.b + m.size <= |body|
  }

  /** The matched rows, overwritten with the body's fresh copies. */
  function Patched(history: seq<string>, body: seq<string>, m: Match): seq<string>
    requires Fits2(history, body, m)
  {
    history[..m.a] + body[m.b..m.b + m.size] + history[m.a + m.size..]
  }

  /** The history up to the matched rows, continued by the body. */
  function Rebased(history: seq<string>, body: seq<string>, m: Match): seq<string>
    requires Fits2(history, body, m)
  {
    history[..m.a] + body[m.b..]
  }

  /** What a match does: nothing new, all new, a rebase, or a refusal. */
  function AfterMatch(st: PaneState, body: seq<string>, m: Match): PaneState
    requires Fits2(st.history, body, m)
  {
    var tail := |st.history| - (m.a + m.size);
    if m.b + m.size == |body| then
      st.(history := Patched(st.history, body, m), staleRefusals := 0)
    else if tail >= |body| then
      st.(history := Patched(st.history, body, m) + body, staleRefusals := 0)
    else if tail <= 3 || st.staleRefusals >= 1 then
      st.(history := Rebased(st.history, body, m), staleRefusals := 0)
    else
      st.(history := Patched(st.history, body, m), staleRefusals := st.staleRefusals + 1)
  }

  /** `apply_match` */
  method ApplyMatch(st: PaneState, body: seq<string>, m: Match) returns (r: PaneState)
    requires Fits2(st.history, body, m)
    ensures r == AfterMatch(st, body, m)
  {
    var history, staleRefusals := st.history, st.staleRefusals;
    var historyEnd := m.a + m.size;
    var currentEnd := m.b + m.size;
    history := history[..m.a] + body[m.b..m.b + m.size] + history[m.a + m.size..];
    var currentSuffix := body[currentEnd..];
    var historyTail := |history| - historyEnd;
    if currentSuffix == [] {
      staleRefusals := 0;
    } else if historyTail >= |body| {
      history := history + body;
      staleRefusals := 0;
    } else if historyTail <= 3 {
      history := history[..historyEnd];
      history := history + currentSuffix;
      staleRefusals := 0;
    } else {
      staleRefusals := staleRefusals + 1;
      if staleRefusals >= 2 {
        history := history[..historyEnd];
        history := history + currentSuffix;
        staleRefusals := 0;
      }
    }
    assert Patched(st.history, body, m)[..historyEnd] + body[currentEnd..] == Rebased(st.history, body, m);
    r := st.(history := history, staleRefusals := staleRefusals);
  }

  /** A sequence match is a common block of both sides, or none. */
  lemma SequenceMatchIsCommon(history: seq<string>, current: seq<string>)
    ensures var m := SequenceMatch(history, current);
            m == NO_MATCH || (Qualifies(history, m) && Common(history, current, Whole(history, current), m))
  {
    if history != [] && current != [] { BestIsCommon(history, current, MatchingBlocks(history, current)); }
  }

  /** Of all matching blocks with two non-blank lines it is the largest, and the latest in the history of those. */
  lemma SequenceMatchIsLargest(history: seq<string>, current: seq<string>, i: nat)
    requires i < |MatchingBlocks(history, current)| && Qualifies(history, MatchingBlocks(history, current)[i])
    ensures var block, m := MatchingBlocks(history, current)[i], SequenceMatch(history, current);
            block.size < m.size || (block.size == m.size && block.a <= m.a)
  {
    SentinelIsLast(history, current);
    if i < |MatchingBlocks(history, current)| - 1 { BlockIsCommon(history, current, i); }
    BestOfIsLargest(history, MatchingBlocks(history, current));
  }

  /**
    Without the list of blocks: if the longest common block of history and body has two non-blank
    lines, the match has its length, and no common block is longer.
   */
  lemma SequenceMatchIsLongest(history: seq<string>, current: seq<string>)
    requires Qualifies(history, Longest(history, current, Whole(history, current)))
    ensures var m := SequenceMatch(history, current);
            && Qualifies(history, m) && Common(history, current, Whole(history, current), m)
            && forall o: Match :: Common(history, current, Whole(history, current), o) ==> o.size <= m.size
  {
    LongestIsLongest(history, current, Whole(history, current));
    var i := LongestIsABlock(history, current);
    SequenceMatchIsLargest(history, current, i);
    SequenceMatchIsCommon(history, current);
  }

  lemma BestIsCommon(history: seq<string>, current: seq<string>, ms: seq<Match>)
    requires ms == MatchingBlocks(history, current)
    ensures var m := BestOf(history, ms);
            m == NO_MATCH || (Qualifies(history, m) && Common(history, current, Whole(history, current), m))
  {
    BestOfIsLargest(history, ms);
    SentinelIsLast(history, current);
    var m := BestOf(history, ms);
    if m != NO_MATCH {
      var i :| 0 <= i < |ms| && ms[i] == m;
      BlockIsCommon(history, current, i);
    }
  }

  /** The history continued from an overlap of k lines. */
  function AfterOverlap(st: PaneState, body: seq<string>, k: nat): PaneState
    requires k <= |st.history|
  {
    st.(history := st.history[..|st.history| - k] + body)
  }

  /** The history after a match, or the body appended when there is none. */
  function AfterBlock(st: PaneState, body: seq<string>, m: Match): PaneState
    requires Fits2(st.history, body, m)
  {
    if m.size >= 2 then AfterMatch(st, body, m) else st.(history := st.history + body, staleRefusals := 0)
  }

  lemma SequenceMatchFits(norm: Normalizer, history: seq<string>, body: seq<string>)
    ensures Fits2(history, body, SequenceMatch(NormLines(norm, history), NormLines(norm, body)))
  {
    SequenceMatchIsCommon(NormLines(norm, history), NormLines(norm, body));
  }

  /** The fold of one body into the history, before it is cut to size. */
  function Folded(norm: Normalizer, st: PaneState, body: seq<string>): PaneState {
    var k := TailOverlap(NormLines(norm, st.history), NormLines(norm, body));
    if k > 0 then AfterOverlap(st, body, k)
    else
      SequenceMatchFits(norm, st.history, body);
      AfterBlock(st, body, SequenceMatch(NormLines(norm, st.history), NormLines(norm, body)))
  }

  /** The effect of `merge_limited` on a pane's state, for a body and a footer. */
  function MergeBody(norm: Normalizer, hash: Hasher, st: PaneState, body: seq<string>, footer: seq<string>): PaneState {
    if hash(body) == st.lastHash && st.staleRefusals == 0 then st else
      var folded := Folded(norm, st.(lastHash := hash(body), footer := footer), body);
      folded.(history := LastN(folded.history, MAX_LINES))
  }

  function MergeStep(norm: Normalizer, st: PaneState, raw: string): PaneState {
    var (body, footer) := SplitSnapshot(raw);
    MergeBody(norm, HashLines, st, body, footer)
  }

  predicate Truncates(st: PaneState, limit: nat) {
    limit > 0 && |st.history| + |st.footer| > limit
  }

  /** The lines a limit leaves: the footer first, then what history still fits. */
  function ShownLines(st: PaneState, limit: nat): (r: (seq<string>, seq<string>))
    ensures r.0 + r.1 == if limit == 0 then st.history + st.footer else LastN(st.history + st.footer, limit)
  {
    if !Truncates(st, limit) then (st.history, st.footer)
    else if |st.footer| >= limit then ([], st.footer[|st.footer| - limit..])
    else (st.history[|st.history| - (limit - |st.footer|)..], st.footer)
  }

  /** `join_content`: the last `limit` lines of history and footer (0 is no limit). */
  function JoinContent(st: PaneState, limit: nat): (r: (string, bool))
    ensures r.1 <==> limit > 0 && |st.history| + |st.footer| > limit
    ensures r.0 == Join(if limit == 0 then st.history + st.footer else LastN(st.history + st.footer, limit), '\n')
  {
    var (historyLines, footerLines) := ShownLines(st, limit);
    JoinTwo(historyLines, footerLines);
    var parts := (if historyLines != [] then [Join(historyLines, '\n')] else [])
                 + (if footerLines != [] then [Join(footerLines, '\n')] else []);
    (Join(parts, '\n'), Truncates(st, limit))
  }

  lemma JoinTwo(xs: seq<string>, ys: seq<string>)
    ensures Join((if xs != [] then [Join(xs, '\n')] else []) + (if ys != [] then [Join(ys, '\n')] else []), '\n')
         == Join(xs + ys, '\n')
  {
    if xs == [] {
      assert xs + ys == ys;
    } else if ys == [] {
      assert xs + ys == xs;
    } else {
      JoinAppend(xs, ys, '\n');
      JoinCons(Join(xs, '\n'), [Join(ys, '\n')], '\n');
    }
  }

  lemma JoinHalves(head: seq<string>, body: seq<string>, k: nat)
    requires k <= |body|
    ensures head + body[..k] + body[k..] == head + body
  {
    assert body[..k] + body[k..] == body;
  }

  /** The lines of the overlap overwritten, the rest appended. */
  method ContinueFrom(st: PaneState, body: seq<string>, overlap: nat) returns (r: PaneState)
    requires overlap <= |st.history| && overlap <= |body|
    ensures r == AfterOverlap(st, body, overlap)
  {
    var history := st.history[..|st.history| - overlap] + body[..overlap];
    JoinHalves(st.history[..|st.history| - overlap], body, overlap);
    r := st.(history := history + body[overlap..]);
  }

  /** The fold of `merge_limited`. */
  method FoldBody(norm: Normalizer, st: PaneState, body: seq<string>) returns (r: PaneState)
    ensures r == Folded(norm, st, body)
  {
    var normalized := NormLines(norm, body);
    var histNorm := NormLines(norm, st.history);
    var overlap := ComputeTailOverlap(histNorm, normalized);
    if overlap > 0 {
      r := ContinueFrom(st, body, overlap);
    } else {
      var m := ComputeSequenceMatch(histNorm, normalized);
      SequenceMatchFits(norm, st.history, body);
      if m.size >= 2 {
        r := ApplyMatch(st, body, m);
      } else {
        r := st.(history := st.history + body, staleRefusals := 0);
      }
    }
  }

  /** The body of `merge_limited`, once the snapshot is split. */
  method FoldSnapshot(norm: Normalizer, hash: Hasher, st: PaneState, body: seq<string>, footer: seq<string>)
    returns (state: PaneState)
    ensures state == MergeBody(norm, hash, st, body, footer)
  {
    state := st;
    var bodyHash := hash(body);
    if bodyHash != state.lastHash || state.staleRefusals != 0 {
      state := FoldBody(norm, state.(lastHash := bodyHash, footer := footer), body);
      if |state.history| > MAX_LINES {
        var drop := |state.history| - MAX_LINES;
        state := state.(history := state.history[drop..]);
      }
    }
  }

  /** The shared per-pane ledger, without its persistence. */
  class Manager {
    const norm: Normalizer
    var states: map<string, PaneState>

    constructor (norm: Normalizer)
      ensures states == map[] && this.norm == norm
    {
      this.norm := norm;
      states := map[];
    }

    function StateOf(pane: string): PaneState
      reads this
    {
      if pane in states then states[pane] else EMPTY_STATE
    }

    /** `merge_limited`: fold one snapshot in, answer the latest `limit` lines. */
    method MergeLimited(pane: string, raw: string, limit: nat) returns (content: string, truncated: bool)
      modifies this
      ensures states == old(states)[pane := MergeStep(norm, old(StateOf(pane)), raw)]
      ensures (content, truncated) == JoinContent(StateOf(pane), limit)
    {
      var (body, footer) := SplitSnapshot(raw);
      var state := FoldSnapshot(norm, HashLines, StateOf(pane), body, footer);
      states := states[pane := state];
      var r := JoinContent(state, limit);
      content, truncated := r.0, r.1;
    }
  }
}
