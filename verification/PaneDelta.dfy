/**
  The pane delta codec: a frame is sent as copies of line runs of the previous
  frame and literal text. Content is text in bytes, one `char` a byte.
 */
module PaneDelta {
  import opened Text

  const MINIMUM_COPY_LINES: nat := 3
  const MAX_CANDIDATES: nat := 64
  const SEGMENT_OVERHEAD_BYTES: nat := 64

  /** A copy of `copyLines` lines when that is positive, otherwise literal text. */
  datatype Segment = Segment(copyStart: int, copyLines: int, text: string)

  function CopyOf(start: nat, lines: nat): Segment { Segment(start, lines, "") }
  function Literal(text: string): Segment { Segment(0, 0, text) }

  // ---- lines that keep their newline ----

  /** `split_after`: a final newline leaves a trailing empty line, empty text is one empty line. */
  function SplitAfter(s: string): (lines: seq<string>)
    ensures |lines| >= 1
    decreases |s|
  {
    var i := FirstIndex(s, '\n');
    if i == |s| then [s] else [s[..i + 1]] + SplitAfter(s[i + 1..])
  }

  function Concat(lines: seq<string>): string {
    if lines == [] then "" else lines[0] + Concat(lines[1..])
  }

  lemma {:induction false} ConcatAppend(xs: seq<string>, ys: seq<string>)
    ensures Concat(xs + ys) == Concat(xs) + Concat(ys)
    decreases |xs|
  {
    if xs == [] {
      assert xs + ys == ys;
    } else {
      assert (xs + ys)[1..] == xs[1..] + ys;
      ConcatAppend(xs[1..], ys);
    }
  }

  lemma {:induction false} ConcatSplitAfter(s: string)
    ensures Concat(SplitAfter(s)) == s
    decreases |s|
  {
    var i := FirstIndex(s, '\n');
    if i == |s| {
      assert [s][1..] == [];
    } else {
      var rest := SplitAfter(s[i + 1..]);
      ConcatSplitAfter(s[i + 1..]);
      assert ([s[..i + 1]] + rest)[1..] == rest;
      assert s == s[..i + 1] + s[i + 1..];
    }
  }

  /** Only the last line can be empty. */
  lemma {:induction false} InnerLinesAreNotEmpty(s: string, n: nat)
    requires n < |SplitAfter(s)| - 1
    ensures SplitAfter(s)[n] != ""
    decreases |s|
  {
    var i := FirstIndex(s, '\n');
    if n > 0 {
      InnerLinesAreNotEmpty(s[i + 1..], n - 1);
    }
  }

  lemma {:induction false} CountToFirst(s: string)
    ensures var i := FirstIndex(s, '\n');
            if i == |s| then CountNewlines(s) == 0 else CountNewlines(s) == 1 + CountNewlines(s[i + 1..])
    decreases |s|
  {
    if s != "" && s[0] != '\n' {
      CountToFirst(s[1..]);
      var i := FirstIndex(s[1..], '\n');
      assert i < |s[1..]| ==> s[1..][i + 1..] == s[i + 2..];
    }
  }

  lemma {:induction false} LineCount(s: string)
    ensures |SplitAfter(s)| == CountNewlines(s) + 1
    decreases |s|
  {
    CountToFirst(s);
    var i := FirstIndex(s, '\n');
    if i < |s| { LineCount(s[i + 1..]); }
  }

  // ---- apply ----

  /** A copy stays inside the previous frame. */
  predicate InRange(lines: seq<string>, segment: Segment) {
    segment.copyLines > 0 ==> 0 <= segment.copyStart && segment.copyStart + segment.copyLines <= |lines|
  }

  predicate AllInRange(lines: seq<string>, segments: seq<Segment>) {
    forall i :: 0 <= i < |segments| ==> InRange(lines, segments[i])
  }

  function TextOf(lines: seq<string>, segment: Segment): string
    requires InRange(lines, segment)
  {
    if segment.copyLines > 0 then Concat(lines[segment.copyStart..segment.copyStart + segment.copyLines])
    else segment.text
  }

  function Output(lines: seq<string>, segments: seq<Segment>): string
    requires AllInRange(lines, segments)
  {
    if segments == [] then "" else
      var n := |segments| - 1;
      Output(lines, segments[..n]) + TextOf(lines, segments[n])
  }

  /** `apply`: the spliced frame, or none when a copy leaves the previous one. */
  function Apply(previous: string, segments: seq<Segment>): Option<string> {
    var lines := SplitAfter(previous);
    if AllInRange(lines, segments) then Some(Output(lines, segments)) else None
  }

  lemma OutputSnoc(lines: seq<string>, segments: seq<Segment>, segment: Segment)
    requires AllInRange(lines, segments) && InRange(lines, segment)
    ensures AllInRange(lines, segments + [segment])
    ensures Output(lines, segments + [segment]) == Output(lines, segments) + TextOf(lines, segment)
  {
    assert (segments + [segment])[..|segments|] == segments;
  }

  /** The loop of `apply`. */
  method ComputeApply(previous: string, segments: seq<Segment>) returns (output: Option<string>)
    ensures output == Apply(previous, segments)
  {
    var lines := SplitAfter(previous);
    var text := "";
    for i := 0 to |segments|
      invariant AllInRange(lines, segments[..i]) && text == Output(lines, segments[..i])
    {
      var segment := segments[i];
      if segment.copyLines > 0 {
        var end := segment.copyStart + segment.copyLines;
        if segment.copyStart < 0 || end > |lines| {
          assert !InRange(lines, segments[i]);
          return None;
        }
      }
      OutputSnoc(lines, segments[..i], segment);
      assert segments[..i] + [segment] == segments[..i + 1];
      text := text + TextOf(lines, segment);
    }
    assert segments[..|segments|] == segments;
    output := Some(text);
  }

  // ---- build ----

  function MatchingLines(previous: seq<string>, current: seq<string>, p: nat, c: nat): (n: nat)
    decreases |previous| - p
  {
    if p >= |previous| || c >= |current| || previous[p] != current[c] then 0 else
      1 + MatchingLines(previous, current, p + 1, c + 1)
  }

  /** The run is equal on both sides and cannot be extended. */
  lemma {:induction false} MatchingLinesIsLongest(previous: seq<string>, current: seq<string>, p: nat, c: nat)
    requires p <= |previous| && c <= |current|
    ensures var n := MatchingLines(previous, current, p, c);
            && p + n <= |previous| && c + n <= |current| && previous[p..p + n] == current[c..c + n]
            && (p + n < |previous| && c + n < |current| ==> previous[p + n] != current[c + n])
    decreases |previous| - p
  {
    if p < |previous| && c < |current| && previous[p] == current[c] {
      MatchingLinesIsLongest(previous, current, p + 1, c + 1);
      var n := MatchingLines(previous, current, p + 1, c + 1);
      assert previous[p..p + 1 + n] == [previous[p]] + previous[p + 1..p + 1 + n];
      assert current[c..c + 1 + n] == [current[c]] + current[c + 1..c + 1 + n];
    }
  }

  function KeyAt(lines: seq<string>, i: nat): seq<string>
    requires i + 3 <= |lines|
  {
    lines[i..i + 3]
  }

  /** The first 64 positions below n where the three lines of `key` start. */
  function Anchors(previous: seq<string>, key: seq<string>, n: nat): (cs: seq<nat>)
    requires n <= AnchorCount(previous)
  {
    if n == 0 then [] else
      var cs := Anchors(previous, key, n - 1);
      if KeyAt(previous, n - 1) == key && |cs| < MAX_CANDIDATES then cs + [n - 1] else cs
  }

  lemma {:induction false} AnchorsStartTheKey(previous: seq<string>, key: seq<string>, n: nat)
    requires n <= AnchorCount(previous)
    ensures forall i :: 0 <= i < |Anchors(previous, key, n)| ==>
      Anchors(previous, key, n)[i] < n && KeyAt(previous, Anchors(previous, key, n)[i]) == key
  {
    if n > 0 { AnchorsStartTheKey(previous, key, n - 1); }
  }

  /** How many three-line windows the previous frame has. */
  function AnchorCount(previous: seq<string>): nat {
    if |previous| < 2 then 0 else |previous| - 2
  }

  /** The longest match among the candidates, the first among the longest. */
  function BestMatch(previous: seq<string>, current: seq<string>, c: nat, cs: seq<nat>): (best: (nat, nat)) {
    if cs == [] then (0, 0) else
      var n := |cs| - 1;
      var best := BestMatch(previous, current, c, cs[..n]);
      var matched := MatchingLines(previous, current, cs[n], c);
      if matched > best.1 then (cs[n], matched) else best
  }

  lemma {:induction false} BestMatchIsLongest(previous: seq<string>, current: seq<string>, c: nat, cs: seq<nat>)
    ensures var best := BestMatch(previous, current, c, cs);
            && (best.1 > 0 ==> exists i :: 0 <= i < |cs| && cs[i] == best.0)
            && (best.1 > 0 ==> best.1 == MatchingLines(previous, current, best.0, c))
            && (forall i :: 0 <= i < |cs| ==> MatchingLines(previous, current, cs[i], c) <= best.1)
    decreases |cs|
  {
    if cs != [] {
      var n := |cs| - 1;
      BestMatchIsLongest(previous, current, c, cs[..n]);
      var inner := BestMatch(previous, current, c, cs[..n]);
      assert inner.1 > 0 ==> exists i :: 0 <= i < |cs[..n]| && cs[..n][i] == inner.0;
      assert forall i :: 0 <= i < n ==> cs[i] == cs[..n][i];
    }
  }

  /** `flush_literal` */
  function Flush(current: seq<string>, lo: nat, hi: nat, done: seq<Segment>): seq<Segment>
    requires hi <= |current|
  {
    if hi <= lo then done else done + [Literal(Concat(current[lo..hi]))]
  }

  /** The copy chosen at line c of the current frame: (start, lines), lines 0 if none. */
  function Choice(previous: seq<string>, current: seq<string>, c: nat): (best: (nat, nat))
    requires c + 3 <= |current|
  {
    BestMatch(previous, current, c, Anchors(previous, KeyAt(current, c), AnchorCount(previous)))
  }

  lemma {:induction false} BestIsEqualRun(previous: seq<string>, current: seq<string>, c: nat, cs: seq<nat>)
    requires c <= |current| && forall i :: 0 <= i < |cs| ==> cs[i] <= |previous|
    ensures EqualRun(previous, current, c, BestMatch(previous, current, c, cs))
    decreases |cs|
  {
    if cs != [] {
      var n := |cs| - 1;
      BestIsEqualRun(previous, current, c, cs[..n]);
      MatchingLinesIsLongest(previous, current, cs[n], c);
    }
  }

  /** A chosen copy is an equal run of both frames. */
  lemma ChoiceIsEqualRun(previous: seq<string>, current: seq<string>, c: nat)
    requires c + 3 <= |current|
    ensures EqualRun(previous, current, c, Choice(previous, current, c))
  {
    var key := KeyAt(current, c);
    AnchorsStartTheKey(previous, key, AnchorCount(previous));
    BestIsEqualRun(previous, current, c, Anchors(previous, key, AnchorCount(previous)));
  }

  ghost predicate EqualRun(previous: seq<string>, current: seq<string>, c: nat, copy: (nat, nat)) {
    copy.1 > 0 ==>
      && copy.0 + copy.1 <= |previous| && c + copy.1 <= |current|
      && previous[copy.0..copy.0 + copy.1] == current[c..c + copy.1]
  }

  /** The choices at the first n lines of the current frame. */
  function Choices(previous: seq<string>, current: seq<string>, n: nat): (cs: seq<(nat, nat)>)
    requires n <= AnchorCount(current)
    ensures |cs| == n
  {
    if n == 0 then [] else Choices(previous, current, n - 1) + [Choice(previous, current, n - 1)]
  }

  lemma {:induction false} ChoiceAt(previous: seq<string>, current: seq<string>, n: nat, c: nat)
    requires c < n <= AnchorCount(current)
    ensures Choices(previous, current, n)[c] == Choice(previous, current, c)
  {
    if c < n - 1 { ChoiceAt(previous, current, n - 1, c); }
  }

  /** The choice at every line that starts a three-line window. */
  function AllChoices(previous: seq<string>, current: seq<string>): (cs: seq<(nat, nat)>)
    ensures ChoicesFit(cs, current)
  {
    var cs := Choices(previous, current, AnchorCount(current));
    assert ChoicesFit(cs, current) by {
      forall c | 0 <= c < |cs| ensures c + cs[c].1 <= |current| {
        ChoiceAt(previous, current, AnchorCount(current), c);
        ChoiceIsEqualRun(previous, current, c);
      }
    }
    cs
  }

  ghost predicate ChoicesFit(choices: seq<(nat, nat)>, current: seq<string>) {
    |choices| == AnchorCount(current) && forall c :: 0 <= c < |choices| ==> c + choices[c].1 <= |current|
  }

  /** The greedy scan from line c with the pending literal starting at `lit`, after the segments already `done`. */
  function Greedy(choices: seq<(nat, nat)>, current: seq<string>, c: nat, lit: nat, done: seq<Segment>): seq<Segment>
    requires ChoicesFit(choices, current) && lit <= c <= |current|
    decreases |current| - c
  {
    if c + 3 > |current| then Flush(current, lit, |current|, done) else
      var (start, lines) := choices[c];
      if lines < 3 then Greedy(choices, current, c + 1, lit, done)
      else Greedy(choices, current, c + lines, c + lines, Flush(current, lit, c, done) + [CopyOf(start, lines)])
  }

  function Build(previous: string, current: string): seq<Segment> {
    var current := SplitAfter(current);
    Greedy(AllChoices(SplitAfter(previous), current), current, 0, 0, [])
  }

  /** The segments rebuild exactly the text of the first n lines. */
  ghost predicate Rebuilds(previous: seq<string>, current: seq<string>, n: nat, segments: seq<Segment>)
    requires n <= |current|
  {
    AllInRange(previous, segments) && Output(previous, segments) == Concat(current[..n])
  }

  lemma ConcatPrefix(current: seq<string>, lo: nat, hi: nat)
    requires lo <= hi <= |current|
    ensures Concat(current[..hi]) == Concat(current[..lo]) + Concat(current[lo..hi])
  {
    ConcatAppend(current[..lo], current[lo..hi]);
    assert current[..hi] == current[..lo] + current[lo..hi];
  }

  lemma FlushRebuilds(previous: seq<string>, current: seq<string>, lo: nat, hi: nat, done: seq<Segment>)
    requires lo <= hi <= |current| && Rebuilds(previous, current, lo, done)
    ensures Rebuilds(previous, current, hi, Flush(current, lo, hi, done))
  {
    if lo < hi {
      OutputSnoc(previous, done, Literal(Concat(current[lo..hi])));
      ConcatPrefix(current, lo, hi);
    }
  }

  lemma CopyRebuilds(previous: seq<string>, current: seq<string>, c: nat, copy: (nat, nat), done: seq<Segment>)
    requires c <= |current| && Rebuilds(previous, current, c, done)
    requires copy.1 > 0 && EqualRun(previous, current, c, copy)
    ensures Rebuilds(previous, current, c + copy.1, done + [CopyOf(copy.0, copy.1)])
  {
    OutputSnoc(previous, done, CopyOf(copy.0, copy.1));
    ConcatPrefix(current, c, c + copy.1);
  }

  ghost predicate FlushKeeps(current: seq<string>, kept: (nat, seq<Segment>) -> bool) {
    forall lo: nat, hi: nat, ss ::
      lo <= hi <= |current| && kept(lo, ss) ==> kept(hi, Flush(current, lo, hi, ss))
  }

  ghost predicate CopyKeeps(choices: seq<(nat, nat)>, kept: (nat, seq<Segment>) -> bool) {
    forall i: nat, ss {:trigger kept(i, ss), CopyOf(choices[i].0, choices[i].1)} ::
      i < |choices| && choices[i].1 >= 3 && kept(i, ss) ==>
        kept(i + choices[i].1, ss + [CopyOf(choices[i].0, choices[i].1)])
  }

  /** Whatever flushing and copying keep, the whole scan keeps. */
  lemma {:induction false} GreedyKeeps(
    choices: seq<(nat, nat)>, current: seq<string>, c: nat, lit: nat, done: seq<Segment>,
    kept: (nat, seq<Segment>) -> bool)
    requires ChoicesFit(choices, current) && lit <= c <= |current|
    requires FlushKeeps(current, kept) && CopyKeeps(choices, kept) && kept(lit, done)
    ensures kept(|current|, Greedy(choices, current, c, lit, done))
    decreases |current| - c
  {
    if c + 3 <= |current| {
      var (start, lines) := choices[c];
      if lines < 3 {
        GreedyKeeps(choices, current, c + 1, lit, done, kept);
      } else {
        var flushed := Flush(current, lit, c, done);
        assert kept(c, flushed);
        assert CopyOf(start, lines) == CopyOf(choices[c].0, choices[c].1);
        GreedyKeeps(choices, current, c + lines, c + lines, flushed + [CopyOf(start, lines)], kept);
      }
    }
  }

  /** Every frame is rebuilt exactly from its predecessor and its delta. */
  lemma ApplyBuild(previous: string, current: string)
    ensures Apply(previous, Build(previous, current)) == Some(current)
  {
    var p, c := SplitAfter(previous), SplitAfter(current);
    ChoicesAreEqualRuns(p, c);
    GreedyRebuilds(p, c, AllChoices(p, c));
    ConcatSplitAfter(current);
    assert c[..|c|] == c;
  }

  lemma ChoicesAreEqualRuns(p: seq<string>, c: seq<string>)
    ensures forall i: nat :: i < |AllChoices(p, c)| ==> EqualRun(p, c, i, AllChoices(p, c)[i])
  {
    forall i: nat | i < |AllChoices(p, c)| ensures EqualRun(p, c, i, AllChoices(p, c)[i]) {
      ChoiceAt(p, c, AnchorCount(c), i);
      ChoiceIsEqualRun(p, c, i);
    }
  }

  ghost function Rebuilding(p: seq<string>, c: seq<string>): (nat, seq<Segment>) -> bool {
    (n: nat, ss) => n <= |c| && Rebuilds(p, c, n, ss)
  }

  lemma FlushKeepsRebuilding(p: seq<string>, c: seq<string>)
    ensures FlushKeeps(c, Rebuilding(p, c))
  {
    forall lo: nat, hi: nat, ss | lo <= hi <= |c| && Rebuilding(p, c)(lo, ss)
      ensures Rebuilding(p, c)(hi, Flush(c, lo, hi, ss))
    {
      FlushRebuilds(p, c, lo, hi, ss);
    }
  }

  lemma CopyKeepsRebuilding(p: seq<string>, c: seq<string>, choices: seq<(nat, nat)>)
    requires ChoicesFit(choices, c)
    requires forall i: nat :: i < |choices| ==> EqualRun(p, c, i, choices[i])
    ensures CopyKeeps(choices, Rebuilding(p, c))
  {
    forall i: nat, ss | i < |choices| && choices[i].1 >= 3 && Rebuilding(p, c)(i, ss)
      ensures Rebuilding(p, c)(i + choices[i].1, ss + [CopyOf(choices[i].0, choices[i].1)])
    {
      CopyRebuilds(p, c, i, choices[i], ss);
    }
  }

  lemma GreedyRebuilds(p: seq<string>, c: seq<string>, choices: seq<(nat, nat)>)
    requires ChoicesFit(choices, c)
    requires forall i: nat :: i < |choices| ==> EqualRun(p, c, i, choices[i])
    ensures Rebuilding(p, c)(|c|, Greedy(choices, c, 0, 0, []))
  {
    FlushKeepsRebuilding(p, c);
    CopyKeepsRebuilding(p, c, choices);
    assert Rebuilding(p, c)(0, []);
    GreedyKeeps(choices, c, 0, 0, [], Rebuilding(p, c));
  }

  lemma OutputOne(lines: seq<string>, segment: Segment)
    requires InRange(lines, segment)
    ensures AllInRange(lines, [segment]) && Output(lines, [segment]) == TextOf(lines, segment)
  {
    assert [segment][..0] == [];
    assert "" + TextOf(lines, segment) == TextOf(lines, segment);
  }

  /** The copy-everything delta of a metadata-only frame. */
  lemma CopyEverything(content: string)
    ensures Apply(content, [CopyOf(0, CountNewlines(content) + 1)]) == Some(content)
  {
    var lines := SplitAfter(content);
    LineCount(content);
    ConcatSplitAfter(content);
    OutputOne(lines, CopyOf(0, |lines|));
    assert lines[0..|lines|] == lines;
  }

  // ---- build, with its anchor index ----

  /** The index maps each three-line window below n to its first 64 positions. */
  ghost predicate IsAnchorIndex(previous: seq<string>, n: nat, index: map<seq<string>, seq<nat>>)
    requires n <= AnchorCount(previous)
  {
    && (forall key :: key in index ==> index[key] == Anchors(previous, key, n))
    && (forall p :: 0 <= p < n ==> KeyAt(previous, p) in index)
  }

  lemma {:induction false} NoAnchors(previous: seq<string>, key: seq<string>, n: nat)
    requires n <= AnchorCount(previous) && forall p :: 0 <= p < n ==> KeyAt(previous, p) != key
    ensures Anchors(previous, key, n) == []
  {
    if n > 0 { NoAnchors(previous, key, n - 1); }
  }

  lemma IndexOneAnchor(previous: seq<string>, n: nat, index: map<seq<string>, seq<nat>>, key: seq<string>, cs: seq<nat>)
    requires n < AnchorCount(previous) && IsAnchorIndex(previous, n, index) && key == KeyAt(previous, n)
    requires cs == if key in index then index[key] else []
    ensures IsAnchorIndex(previous, n + 1, index[key := if |cs| < MAX_CANDIDATES then cs + [n] else cs])
  {
    if key !in index { NoAnchors(previous, key, n); }
  }

  method IndexAnchors(previous: seq<string>) returns (index: map<seq<string>, seq<nat>>)
    ensures IsAnchorIndex(previous, AnchorCount(previous), index)
  {
    index := map[];
    for n := 0 to AnchorCount(previous)
      invariant IsAnchorIndex(previous, n, index)
    {
      var key := KeyAt(previous, n);
      var candidates := if key in index then index[key] else [];
      IndexOneAnchor(previous, n, index, key, candidates);
      if |candidates| < MAX_CANDIDATES {
        candidates := candidates + [n];
      }
      index := index[key := candidates];
    }
  }

  /** The inner loop of `matching_lines`. */
  method CountMatchingLines(previous: seq<string>, current: seq<string>, p: nat, c: nat) returns (matched: nat)
    ensures matched == MatchingLines(previous, current, p, c)
  {
    matched := 0;
    while p + matched < |previous| && c + matched < |current| && previous[p + matched] == current[c + matched]
      invariant matched + MatchingLines(previous, current, p + matched, c + matched)
             == MatchingLines(previous, current, p, c)
    {
      matched := matched + 1;
    }
  }

  method FindBest(previous: seq<string>, current: seq<string>, c: nat, candidates: seq<nat>)
    returns (bestStart: nat, bestLines: nat)
    ensures (bestStart, bestLines) == BestMatch(previous, current, c, candidates)
  {
    bestStart, bestLines := 0, 0;
    for i := 0 to |candidates|
      invariant (bestStart, bestLines) == BestMatch(previous, current, c, candidates[..i])
    {
      assert candidates[..i + 1][..i] == candidates[..i];
      var matched := CountMatchingLines(previous, current, candidates[i], c);
      if matched > bestLines {
        bestStart, bestLines := candidates[i], matched;
      }
    }
    assert candidates[..|candidates|] == candidates;
  }

  method ChooseCopy(previous: seq<string>, current: seq<string>, c: nat, index: map<seq<string>, seq<nat>>)
    returns (bestStart: nat, bestLines: nat)
    requires c + 3 <= |current| && IsAnchorIndex(previous, AnchorCount(previous), index)
    ensures (bestStart, bestLines) == AllChoices(previous, current)[c]
  {
    var key := KeyAt(current, c);
    bestStart, bestLines := FindBest(previous, current, c, if key in index then index[key] else []);
    ChoiceFromIndex(previous, current, c, index);
    ChoiceAt(previous, current, AnchorCount(current), c);
  }

  /** The greedy scan of `build`, over an anchor index. */
  method ScanGreedily(previous: seq<string>, current: seq<string>, index: map<seq<string>, seq<nat>>)
    returns (segments: seq<Segment>)
    requires IsAnchorIndex(previous, AnchorCount(previous), index)
    ensures segments == Greedy(AllChoices(previous, current), current, 0, 0, [])
  {
    segments := [];
    var literalStart: nat, c: nat := 0, 0;
    ghost var choices := AllChoices(previous, current);
    ghost var goal := Greedy(choices, current, 0, 0, []);
    while c + MINIMUM_COPY_LINES <= |current|
      invariant literalStart <= c <= |current|
      invariant Greedy(choices, current, c, literalStart, segments) == goal
      decreases |current| - c
    {
      var bestStart, bestLines := ChooseCopy(previous, current, c, index);
      if bestLines < MINIMUM_COPY_LINES {
        c := c + 1;
      } else {
        segments := Flush(current, literalStart, c, segments);
        segments := segments + [CopyOf(bestStart, bestLines)];
        c := c + bestLines;
        literalStart := c;
      }
    }
    segments := Flush(current, literalStart, |current|, segments);
  }

  /** `build` */
  method ComputeBuild(previous: string, current: string) returns (segments: seq<Segment>)
    ensures segments == Build(previous, current)
    ensures Apply(previous, segments) == Some(current)
  {
    ApplyBuild(previous, current);
    var previousLines, currentLines := SplitAfter(previous), SplitAfter(current);
    var index := IndexAnchors(previousLines);
    segments := ScanGreedily(previousLines, currentLines, index);
  }

  lemma ChoiceFromIndex(previous: seq<string>, current: seq<string>, c: nat, index: map<seq<string>, seq<nat>>)
    requires c + 3 <= |current| && IsAnchorIndex(previous, AnchorCount(previous), index)
    ensures var key := KeyAt(current, c);
            Choice(previous, current, c) == BestMatch(previous, current, c, if key in index then index[key] else [])
  {
    var key := KeyAt(current, c);
    if key !in index { NoAnchors(previous, key, AnchorCount(previous)); }
  }

  /** `efficient`: literal bytes and a flat cost per segment against three quarters of the frame. */
  function Efficient(segments: seq<Segment>, current: string): bool {
    LiteralBytes(segments) + |segments| * SEGMENT_OVERHEAD_BYTES < |current| * 3 / 4
  }

  function LiteralBytes(segments: seq<Segment>): nat {
    if segments == [] then 0 else
      var n := |segments| - 1;
      LiteralBytes(segments[..n]) + |segments[n].text|
  }

  lemma {:induction false} LiteralsOnly(lines: seq<string>, segments: seq<Segment>)
    requires AllInRange(lines, segments) && forall i :: 0 <= i < |segments| ==> segments[i].copyLines <= 0
    ensures |Output(lines, segments)| == LiteralBytes(segments)
    decreases |segments|
  {
    if segments != [] { LiteralsOnly(lines, segments[..|segments| - 1]); }
  }

  ghost predicate LongCopies(segments: seq<Segment>) {
    forall i :: 0 <= i < |segments| && segments[i].copyLines > 0 ==> segments[i].copyLines >= MINIMUM_COPY_LINES
  }

  lemma BuildCopiesAreLong(previous: string, current: string)
    ensures LongCopies(Build(previous, current))
  {
    var p, c := SplitAfter(previous), SplitAfter(current);
    var kept := (n: nat, ss) => LongCopies(ss);
    assert FlushKeeps(c, kept);
    assert CopyKeeps(AllChoices(p, c), kept);
    GreedyKeeps(AllChoices(p, c), c, 0, 0, [], kept);
  }

  /** A delta is worth sending only if it copies something, and then at least three lines at once. */
  lemma EfficientCopies(previous: string, current: string)
    requires Efficient(Build(previous, current), current)
    ensures exists i ::
              0 <= i < |Build(previous, current)| && Build(previous, current)[i].copyLines >= MINIMUM_COPY_LINES
  {
    var segments := Build(previous, current);
    ApplyBuild(previous, current);
    BuildCopiesAreLong(previous, current);
    if forall i :: 0 <= i < |segments| ==> segments[i].copyLines <= 0 {
      LiteralsOnly(SplitAfter(previous), segments);
    }
  }

  // ---- a delta misses no copy ----

  /** Some three lines of the previous frame are these. */
  ghost predicate Occurs(previous: seq<string>, key: seq<string>) {
    exists p :: 0 <= p < AnchorCount(previous) && KeyAt(previous, p) == key
  }

  lemma {:induction false} OccurringIsIndexed(previous: seq<string>, key: seq<string>, n: nat, p: nat)
    requires p < n <= AnchorCount(previous) && KeyAt(previous, p) == key
    ensures Anchors(previous, key, n) != []
    decreases n
  {
    if p < n - 1 { OccurringIsIndexed(previous, key, n - 1, p); }
  }

  lemma ThreeMatch(previous: seq<string>, current: seq<string>, p: nat, c: nat)
    requires p + 3 <= |previous| && c + 3 <= |current| && KeyAt(previous, p) == KeyAt(current, c)
    ensures MatchingLines(previous, current, p, c) >= 3
  {
    assert forall i :: 0 <= i < 3 ==> previous[p + i] == KeyAt(previous, p)[i];
    assert forall i :: 0 <= i < 3 ==> current[c + i] == KeyAt(current, c)[i];
    assert MatchingLines(previous, current, p + 2, c + 2) >= 1;
    assert MatchingLines(previous, current, p + 1, c + 1) >= 2;
  }

  /** A copy is chosen at a line exactly when the three lines from there on occur in the previous frame. */
  lemma ChoiceExactly(previous: seq<string>, current: seq<string>, c: nat)
    requires c + 3 <= |current|
    ensures Choice(previous, current, c).1 >= 3 <==> Occurs(previous, KeyAt(current, c))
  {
    var key := KeyAt(current, c);
    var cs := Anchors(previous, key, AnchorCount(previous));
    BestMatchIsLongest(previous, current, c, cs);
    AnchorsStartTheKey(previous, key, AnchorCount(previous));
    if Occurs(previous, key) {
      var p :| 0 <= p < AnchorCount(previous) && KeyAt(previous, p) == key;
      OccurringIsIndexed(previous, key, AnchorCount(previous), p);
      ThreeMatch(previous, current, cs[0], c);
    } else {
      NoAnchors(previous, key, AnchorCount(previous));
    }
  }

  /** No line from lo on, up to hi, starts a copy. */
  ghost predicate Bare(choices: seq<(nat, nat)>, lo: nat, hi: nat) {
    forall x :: lo <= x < hi && x < |choices| ==> choices[x].1 < 3
  }

  /** A literal is a stretch of lines none of which starts a copy. */
  ghost predicate IsBareLiteral(choices: seq<(nat, nat)>, current: seq<string>, segment: Segment, lo: nat, hi: nat) {
    lo < hi <= |current| && segment == Literal(Concat(current[lo..hi])) && Bare(choices, lo, hi)
  }

  /** Every segment is such a literal, or the copy chosen at some line. */
  ghost predicate Needed(choices: seq<(nat, nat)>, current: seq<string>, segment: Segment) {
    || (exists lo, hi :: IsBareLiteral(choices, current, segment, lo, hi))
    || (exists x :: 0 <= x < |choices| && choices[x].1 >= 3 && segment == CopyOf(choices[x].0, choices[x].1))
  }

  ghost predicate AllNeeded(choices: seq<(nat, nat)>, current: seq<string>, segments: seq<Segment>) {
    forall i :: 0 <= i < |segments| ==> Needed(choices, current, segments[i])
  }

  lemma FlushIsNeeded(choices: seq<(nat, nat)>, current: seq<string>, lo: nat, hi: nat, done: seq<Segment>)
    requires hi <= |current| && Bare(choices, lo, hi) && AllNeeded(choices, current, done)
    ensures AllNeeded(choices, current, Flush(current, lo, hi, done))
  {
    if lo < hi { assert IsBareLiteral(choices, current, Literal(Concat(current[lo..hi])), lo, hi); }
  }

  lemma NeededMore(choices: seq<(nat, nat)>, current: seq<string>, done: seq<Segment>, segment: Segment)
    requires AllNeeded(choices, current, done)
    requires exists x :: 0 <= x < |choices| && choices[x].1 >= 3 && segment == CopyOf(choices[x].0, choices[x].1)
    ensures AllNeeded(choices, current, done + [segment])
  {
    assert Needed(choices, current, segment);
  }

  lemma {:induction false} GreedyIsNeeded(
    choices: seq<(nat, nat)>, current: seq<string>, c: nat, lit: nat, done: seq<Segment>)
    requires ChoicesFit(choices, current) && lit <= c <= |current|
    requires Bare(choices, lit, c) && AllNeeded(choices, current, done)
    ensures AllNeeded(choices, current, Greedy(choices, current, c, lit, done))
    decreases |current| - c
  {
    if c + 3 > |current| {
      FlushIsNeeded(choices, current, lit, |current|, done);
    } else if choices[c].1 < 3 {
      GreedyIsNeeded(choices, current, c + 1, lit, done);
    } else {
      FlushIsNeeded(choices, current, lit, c, done);
      var copy := CopyOf(choices[c].0, choices[c].1);
      NeededMore(choices, current, Flush(current, lit, c, done), copy);
      GreedyIsNeeded(choices, current, c + choices[c].1, c + choices[c].1, Flush(current, lit, c, done) + [copy]);
    }
  }

  /**
    A delta sends no line as text that starts a copy: each literal is a stretch of lines from none of
    which three lines of the previous frame go on, and each copy is the longest run found at its line.
   */
  lemma BuildMissesNoCopy(previous: string, current: string, i: nat)
    requires i < |Build(previous, current)|
    ensures var p, c := SplitAfter(previous), SplitAfter(current);
            Needed(AllChoices(p, c), c, Build(previous, current)[i])
  {
    var choices, c := AllChoices(SplitAfter(previous), SplitAfter(current)), SplitAfter(current);
    GreedyIsNeeded(choices, c, 0, 0, []);
  }

  /** The choices are those of the frames: a line starts a copy exactly when its three lines occur before. */
  lemma ChoicesExactly(previous: seq<string>, current: seq<string>, x: nat)
    requires x < |AllChoices(previous, current)|
    ensures x + 3 <= |current|
    ensures AllChoices(previous, current)[x].1 >= 3 <==> Occurs(previous, KeyAt(current, x))
  {
    ChoiceAt(previous, current, AnchorCount(current), x);
    ChoiceExactly(previous, current, x);
  }
}
