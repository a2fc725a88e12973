/**
  The phone's strict reading of a delta: it indexes the previous frame by a
  table of line boundaries and refuses segments the relay's own `apply` takes.
 */
module ClientDelta {
  import opened Text
  import opened PaneDelta

  /** A JSON value, as far as a segment's fields are told apart. */
  datatype Value = Integer(n: int) | Characters(s: string) | OtherValue

  datatype Wire =
    | Object(copyStart: Option<Value>, copyLines: Option<Value>, text: Option<Value>)
    | NotAnObject

  function WireInteger(n: int): Option<Value> { if n == 0 then None else Some(Integer(n)) }

  /** The relay leaves zero numbers and empty text out of the object. */
  function Encode(segment: Segment): Wire {
    Object(WireInteger(segment.copyStart), WireInteger(segment.copyLines),
           if segment.text == "" then None else Some(Characters(segment.text)))
  }

  function EncodeAll(segments: seq<Segment>): (wires: seq<Wire>)
    ensures |wires| == |segments| && forall i :: 0 <= i < |wires| ==> wires[i] == Encode(segments[i])
  {
    if segments == [] then [] else
      var n := |segments| - 1;
      EncodeAll(segments[..n]) + [Encode(segments[n])]
  }

  // ---- the boundary table ----

  /** Where each line starts, and where the text ends. */
  function Offsets(lines: seq<string>, at: nat): (b: seq<nat>)
    ensures |b| == |lines| + 1
  {
    if lines == [] then [at] else [at] + Offsets(lines[1..], at + |lines[0]|)
  }

  lemma {:induction false} OffsetIsLength(lines: seq<string>, at: nat, k: nat)
    requires k <= |lines|
    ensures Offsets(lines, at)[k] == at + |Concat(lines[..k])|
    decreases k
  {
    if k == 0 {
      assert lines[..0] == [];
    } else {
      OffsetIsLength(lines[1..], at + |lines[0]|, k - 1);
      assert lines[..k][1..] == lines[1..][..k - 1];
    }
  }

  /** The text between two boundaries is those lines. */
  lemma BoundarySlice(lines: seq<string>, lo: nat, hi: nat)
    requires lo <= hi <= |lines|
    ensures var b, s := Offsets(lines, 0), Concat(lines);
            b[lo] <= b[hi] <= |s| && s[b[lo]..b[hi]] == Concat(lines[lo..hi])
  {
    OffsetIsLength(lines, 0, lo);
    OffsetIsLength(lines, 0, hi);
    ConcatPrefix(lines, lo, hi);
    ConcatPrefix(lines, hi, |lines|);
    assert lines[..|lines|] == lines;
  }

  lemma OffsetsCons(line: string, rest: seq<string>, at: nat)
    ensures Offsets([line] + rest, at) == [at] + Offsets(rest, at + |line|)
  {
    assert ([line] + rest)[1..] == rest;
  }

  /** The table of the remaining text: one line more, or the end. */
  lemma NextBoundary(t: string, start: nat, i: nat)
    requires i == FirstIndex(t, '\n')
    ensures i < |t| ==> Offsets(SplitAfter(t), start) == [start] + Offsets(SplitAfter(t[i + 1..]), start + (i + 1))
    ensures i == |t| ==> Offsets(SplitAfter(t), start) == [start] + [start + |t|]
  {
    if i == |t| {
      OffsetsCons(t, [], start);
      assert [t] + [] == [t];
    } else {
      OffsetsCons(t[..i + 1], SplitAfter(t[i + 1..]), start);
    }
  }

  lemma Regroup(done: seq<nat>, x: nat, rest: seq<nat>)
    ensures done + ([x] + rest) == (done + [x]) + rest
  {
  }

  /** The table so far, and the boundaries still to come in the text that is left. */
  function Scan(left: string, start: nat, table: seq<nat>): seq<nat>
    decreases |left|
  {
    var i := FirstIndex(left, '\n');
    if i == |left| then table + [start + |left|]
    else Scan(left[i + 1..], start + (i + 1), table + [start + (i + 1)])
  }

  lemma ScanGoesOn(left: string, start: nat, table: seq<nat>, i: nat)
    requires i == FirstIndex(left, '\n') < |left|
    ensures Scan(left, start, table) == Scan(left[i + 1..], start + (i + 1), table + [start + (i + 1)])
  {
  }

  lemma OffsetsGoOn(left: string, start: nat, done: seq<nat>, i: nat)
    requires i == FirstIndex(left, '\n') < |left|
    ensures done + Offsets(SplitAfter(left), start)
         == (done + [start]) + Offsets(SplitAfter(left[i + 1..]), start + (i + 1))
  {
    NextBoundary(left, start, i);
    Regroup(done, start, Offsets(SplitAfter(left[i + 1..]), start + (i + 1)));
  }

  lemma ScanEnds(left: string, start: nat, done: seq<nat>)
    requires FirstIndex(left, '\n') == |left|
    ensures Scan(left, start, done + [start]) == done + Offsets(SplitAfter(left), start)
  {
    NextBoundary(left, start, |left|);
    Regroup(done, start, [start + |left|]);
  }

  lemma {:induction false} ScanFindsOffsets(left: string, start: nat, done: seq<nat>)
    ensures Scan(left, start, done + [start]) == done + Offsets(SplitAfter(left), start)
    decreases |left|
  {
    var i := FirstIndex(left, '\n');
    if i == |left| {
      ScanEnds(left, start, done);
    } else {
      var rest, next, table := left[i + 1..], start + (i + 1), done + [start];
      calc {
        Scan(left, start, table);
        { ScanGoesOn(left, start, done + [start], i); }
        Scan(rest, next, table + [next]);
        { ScanFindsOffsets(rest, next, table); }
        table + Offsets(SplitAfter(rest), next);
        { OffsetsGoOn(left, start, done, i); }
        done + Offsets(SplitAfter(left), start);
      }
    }
  }

  /** The loop that fills the boundary table. */
  method FindBoundaries(previous: string) returns (boundaries: seq<nat>)
    ensures boundaries == Offsets(SplitAfter(previous), 0)
  {
    boundaries := [0];
    ghost var goal := Scan(previous, 0, [0]);
    var start, left := 0, previous;
    var index := FirstIndex(left, '\n');
    while index < |left|
      invariant start + |left| == |previous| && index == FirstIndex(left, '\n')
      invariant Scan(left, start, boundaries) == goal
      decreases |left|
    {
      start, left := start + (index + 1), left[index + 1..];
      boundaries := boundaries + [start];
      index := FirstIndex(left, '\n');
    }
    boundaries := boundaries + [|previous|];
    ScanFindsOffsets(previous, 0, []);
    assert [] + [0] == [0];
  }

  // ---- strict apply ----

  predicate Readable(lines: nat, wire: Wire) {
    match wire
    case NotAnObject => false
    case Object(_, None, text) => text.Some? && text.value.Characters?
    case Object(start, Some(count), _) =>
      && count.Integer? && count.n > 0
      && (start.None? || (start.value.Integer? && start.value.n >= 0))
      && StartOf(start) + count.n <= lines
  }

  function StartOf(start: Option<Value>): int {
    if start.Some? && start.value.Integer? then start.value.n else 0
  }

  function ReadText(previous: string, boundaries: seq<nat>, wire: Wire): string
    requires |boundaries| > 0 && Readable(|boundaries| - 1, wire)
  {
    if wire.copyLines.None? then wire.text.value.s
    else Substring(previous, boundaries[StartOf(wire.copyStart)],
                   boundaries[StartOf(wire.copyStart) + wire.copyLines.value.n])
  }

  /** `substring`; two entries of the boundary table are always in range, by `BoundarySlice`. */
  function Substring(s: string, lo: nat, hi: nat): string {
    if lo <= hi <= |s| then s[lo..hi] else ""
  }

  predicate AllReadable(lines: nat, wires: seq<Wire>) {
    forall i :: 0 <= i < |wires| ==> Readable(lines, wires[i])
  }

  function StrictOutput(previous: string, boundaries: seq<nat>, wires: seq<Wire>): string
    requires |boundaries| > 0 && AllReadable(|boundaries| - 1, wires)
  {
    if wires == [] then "" else
      var n := |wires| - 1;
      StrictOutput(previous, boundaries, wires[..n]) + ReadText(previous, boundaries, wires[n])
  }

  /** `applyStrict` */
  function ApplyStrict(previous: string, wires: seq<Wire>): Option<string> {
    var boundaries := Offsets(SplitAfter(previous), 0);
    if AllReadable(|boundaries| - 1, wires) then Some(StrictOutput(previous, boundaries, wires)) else None
  }

  lemma StrictOutputSnoc(previous: string, boundaries: seq<nat>, wires: seq<Wire>, wire: Wire)
    requires |boundaries| > 0
    requires AllReadable(|boundaries| - 1, wires) && Readable(|boundaries| - 1, wire)
    ensures AllReadable(|boundaries| - 1, wires + [wire])
    ensures StrictOutput(previous, boundaries, wires + [wire])
         == StrictOutput(previous, boundaries, wires) + ReadText(previous, boundaries, wire)
  {
    assert (wires + [wire])[..|wires|] == wires;
  }

  /** The loop of `applyStrict`, over the boundary table. */
  method ComputeApplyStrict(previous: string, wires: seq<Wire>) returns (output: Option<string>)
    ensures output == ApplyStrict(previous, wires)
  {
    var boundaries := FindBoundaries(previous);
    output := ReadAll(previous, boundaries, wires);
  }

  method ReadAll(previous: string, boundaries: seq<nat>, wires: seq<Wire>) returns (output: Option<string>)
    requires |boundaries| > 0
    ensures AllReadable(|boundaries| - 1, wires) ==> output == Some(StrictOutput(previous, boundaries, wires))
    ensures !AllReadable(|boundaries| - 1, wires) ==> output == None
  {
    var text := "";
    var i: nat := 0;
    ghost var read: seq<Wire> := [];
    while i < |wires|
      invariant i <= |wires| && read == wires[..i] && AllReadable(|boundaries| - 1, read)
      invariant text == StrictOutput(previous, boundaries, read)
    {
      var wire := wires[i];
      if !Readable(|boundaries| - 1, wire) {
        return None;
      }
      StrictOutputSnoc(previous, boundaries, read, wire);
      text := text + ReadText(previous, boundaries, wire);
      read := read + [wire];
      i := i + 1;
    }
    assert read == wires;
    output := Some(text);
  }

  // ---- the strict reading against the relay's own ----

  /** The segments the strict reading takes: a copy, or literal text that is not empty. */
  predicate Accepted(segment: Segment) {
    segment.copyLines > 0 || (segment.copyLines == 0 && segment.text != "")
  }

  predicate AllAccepted(segments: seq<Segment>) {
    forall i :: 0 <= i < |segments| ==> Accepted(segments[i])
  }

  lemma ReadEncoded(previous: string, segment: Segment)
    ensures var lines, b := SplitAfter(previous), Offsets(SplitAfter(previous), 0);
            && (Readable(|b| - 1, Encode(segment)) <==> Accepted(segment) && InRange(lines, segment))
            && (Readable(|b| - 1, Encode(segment)) ==>
                  ReadText(previous, b, Encode(segment)) == TextOf(lines, segment))
  {
    ConcatSplitAfter(previous);
    if segment.copyLines > 0 && InRange(SplitAfter(previous), segment) {
      BoundarySlice(SplitAfter(previous), segment.copyStart, segment.copyStart + segment.copyLines);
    }
  }

  lemma {:induction false} StrictOutputIsOutput(previous: string, segments: seq<Segment>)
    requires AllAccepted(segments) && AllInRange(SplitAfter(previous), segments)
    ensures var b := Offsets(SplitAfter(previous), 0);
            && AllReadable(|b| - 1, EncodeAll(segments))
            && StrictOutput(previous, b, EncodeAll(segments)) == Output(SplitAfter(previous), segments)
    decreases |segments|
  {
    forall i | 0 <= i < |segments| ensures Readable(|SplitAfter(previous)|, Encode(segments[i])) {
      ReadEncoded(previous, segments[i]);
    }
    if segments != [] {
      var n := |segments| - 1;
      StrictOutputIsOutput(previous, segments[..n]);
      ReadEncoded(previous, segments[n]);
      assert EncodeAll(segments)[..n] == EncodeAll(segments[..n]);
    }
  }

  /** On every delta the strict reading agrees with `apply`, except that it refuses what it does not accept. */
  lemma StrictAgreesWithApply(previous: string, segments: seq<Segment>)
    ensures ApplyStrict(previous, EncodeAll(segments))
         == if AllAccepted(segments) then Apply(previous, segments) else None
  {
    var n := |Offsets(SplitAfter(previous), 0)| - 1;
    if AllAccepted(segments) && AllInRange(SplitAfter(previous), segments) {
      StrictOutputIsOutput(previous, segments);
    } else {
      var i :| 0 <= i < |segments| && !(Accepted(segments[i]) && InRange(SplitAfter(previous), segments[i]));
      ReadEncoded(previous, segments[i]);
      assert !Readable(n, EncodeAll(segments)[i]);
    }
  }

  // ---- which deltas of `build` the strict reading refuses ----

  /** Where the last literal of the greedy scan starts. */
  function LastLiteral(choices: seq<(nat, nat)>, current: seq<string>, c: nat, lit: nat): (start: nat)
    requires ChoicesFit(choices, current) && lit <= c <= |current|
    ensures lit <= start <= |current|
    decreases |current| - c
  {
    if c + 3 > |current| then lit
    else if choices[c].1 < 3 then LastLiteral(choices, current, c + 1, lit)
    else LastLiteral(choices, current, c + choices[c].1, c + choices[c].1)
  }

  lemma ConcatNotEmpty(lines: seq<string>)
    requires lines != [] && lines[0] != ""
    ensures Concat(lines) != ""
  {
  }

  lemma FlushAccepted(current: seq<string>, lo: nat, hi: nat, done: seq<Segment>)
    requires lo <= hi <= |current| && AllAccepted(done)
    requires forall i :: 0 <= i < |current| - 1 ==> current[i] != ""
    ensures AllAccepted(Flush(current, lo, hi, done))
       <==> !(lo + 1 == hi == |current| && current[|current| - 1] == "")
  {
    if lo < hi {
      var literal := Literal(Concat(current[lo..hi]));
      assert (done + [literal])[|done|] == literal;
      if current[lo] != "" {
        ConcatNotEmpty(current[lo..hi]);
      } else {
        assert current[lo..hi] == [""];
        assert [""][1..] == [];
      }
    }
  }

  lemma {:induction false} GreedyAccepted(
    choices: seq<(nat, nat)>, current: seq<string>, c: nat, lit: nat, done: seq<Segment>)
    requires ChoicesFit(choices, current) && lit <= c <= |current| && AllAccepted(done) && |current| > 0
    requires forall i :: 0 <= i < |current| - 1 ==> current[i] != ""
    ensures AllAccepted(Greedy(choices, current, c, lit, done))
       <==> !(LastLiteral(choices, current, c, lit) == |current| - 1 && current[|current| - 1] == "")
    decreases |current| - c
  {
    if c + 3 > |current| {
      FlushAccepted(current, lit, |current|, done);
    } else if choices[c].1 < 3 {
      GreedyAccepted(choices, current, c + 1, lit, done);
    } else {
      FlushAccepted(current, lit, c, done);
      GreedyAccepted(choices, current, c + choices[c].1, c + choices[c].1,
                     Flush(current, lit, c, done) + [CopyOf(choices[c].0, choices[c].1)]);
    }
  }

  /** The copies of `build` reach just up to the empty line after a final newline. */
  predicate EndsInEmptyLiteral(previous: string, current: string) {
    var p, c := SplitAfter(previous), SplitAfter(current);
    LastLiteral(AllChoices(p, c), c, 0, 0) == |c| - 1 && c[|c| - 1] == ""
  }

  /**
    The phone rebuilds the frame from the relay's delta exactly when no empty literal closes
    it; otherwise it refuses.
   */
  lemma StrictAppliesBuild(previous: string, current: string)
    ensures ApplyStrict(previous, EncodeAll(Build(previous, current)))
         == if EndsInEmptyLiteral(previous, current) then None else Some(current)
  {
    var built := Build(previous, current);
    BuildAccepted(previous, current);
    ApplyBuild(previous, current);
    StrictAgreesWithApply(previous, built);
  }

  lemma BuildAccepted(previous: string, current: string)
    ensures AllAccepted(Build(previous, current)) <==> !EndsInEmptyLiteral(previous, current)
  {
    var p, c := SplitAfter(previous), SplitAfter(current);
    forall i | 0 <= i < |c| - 1 ensures c[i] != "" {
      InnerLinesAreNotEmpty(current, i);
    }
    GreedyAccepted(AllChoices(p, c), c, 0, 0, []);
  }

  lemma StrictReadsAccepted(previous: string, segments: seq<Segment>, current: string)
    requires AllAccepted(segments) && Apply(previous, segments) == Some(current)
    ensures ApplyStrict(previous, EncodeAll(segments)) == Some(current)
  {
    StrictAgreesWithApply(previous, segments);
  }

  /** The copy-everything delta is always read. */
  lemma StrictCopiesEverything(content: string, lines: nat)
    requires lines == CountNewlines(content) + 1
    ensures ApplyStrict(content, EncodeAll([CopyOf(0, lines)])) == Some(content)
  {
    CopyEverything(content);
    StrictReadsAccepted(content, [CopyOf(0, lines)], content);
  }

  predicate IsLine(s: string) { s != "" && s[|s| - 1] == '\n' && '\n' !in s[..|s| - 1] }

  lemma SplitLine(line: string, rest: string)
    requires IsLine(line)
    ensures SplitAfter(line + rest) == [line] + SplitAfter(rest)
  {
    FirstIndexOf(line[..|line| - 1], '\n', rest);
    assert line + rest == line[..|line| - 1] + ['\n'] + rest;
    assert (line + rest)[..|line|] == line && (line + rest)[|line|..] == rest;
  }

  lemma ChoiceOfDroppedLine(x: string, y: string, z: string, w: string)
    requires IsLine(x) && IsLine(y) && IsLine(z) && IsLine(w) && w != z
    ensures Choice([x, y, z, w, ""], [x, y, z, ""], 0) == (0, 3)
  {
    var p, c := [x, y, z, w, ""], [x, y, z, ""];
    var key := KeyAt(c, 0);
    assert key == [x, y, z] && KeyAt(p, 0) == [x, y, z];
    assert KeyAt(p, 1)[2] == w && KeyAt(p, 2)[2] == "";
    assert Anchors(p, key, 0) == [];
    assert Anchors(p, key, 1) == [0];
    assert Anchors(p, key, 2) == [0];
    assert Anchors(p, key, 3) == [0];
    assert MatchingLines(p, c, 3, 3) == 0;
    assert MatchingLines(p, c, 2, 2) == 1;
    assert MatchingLines(p, c, 1, 1) == 2;
    assert MatchingLines(p, c, 0, 0) == 3;
    var cs: seq<nat> := [0];
    assert cs[..0] == [] && BestMatch(p, c, 0, cs[..0]) == (0, 0);
    assert BestMatch(p, c, 0, cs) == (0, 3);
  }

  lemma SplitThree(x: string, y: string, z: string, rest: string)
    requires IsLine(x) && IsLine(y) && IsLine(z)
    ensures SplitAfter(x + (y + (z + rest))) == [x, y, z] + SplitAfter(rest)
  {
    SplitLine(z, rest);
    SplitLine(y, z + rest);
    SplitLine(x, y + (z + rest));
    assert [x] + ([y] + ([z] + SplitAfter(rest))) == [x, y, z] + SplitAfter(rest);
  }

  /** A whole family of refused deltas: the previous frame lost its last line. */
  lemma DroppedLineIsRefused(x: string, y: string, z: string, w: string)
    requires IsLine(x) && IsLine(y) && IsLine(z) && IsLine(w) && w != z
    ensures var previous, current := x + (y + (z + (w + ""))), x + (y + (z + ""));
            && Build(previous, current) == [CopyOf(0, 3), Literal("")]
            && (Efficient(Build(previous, current), current) <==> 128 < |current| * 3 / 4)
            && ApplyStrict(previous, EncodeAll(Build(previous, current))) == None
  {
    var previous, current := x + (y + (z + (w + ""))), x + (y + (z + ""));
    SplitThree(x, y, z, w + "");
    SplitThree(x, y, z, "");
    SplitLine(w, "");
    var p, c := [x, y, z, w, ""], [x, y, z, ""];
    assert SplitAfter(previous) == p && SplitAfter(current) == c;
    ChoiceOfDroppedLine(x, y, z, w);
    BuildOfDroppedLine(p, c);
    RefusedAndCheap(previous, current);
  }

  lemma RefusedAndCheap(previous: string, current: string)
    ensures var built := [CopyOf(0, 3), Literal("")];
            && (Efficient(built, current) <==> 128 < |current| * 3 / 4)
            && ApplyStrict(previous, EncodeAll(built)) == None
  {
    var built := [CopyOf(0, 3), Literal("")];
    assert built[..1] == [CopyOf(0, 3)] && LiteralBytes(built[..1]) == 0;
    assert !Accepted(built[1]);
    StrictAgreesWithApply(previous, built);
  }

  lemma BuildOfDroppedLine(p: seq<string>, c: seq<string>)
    requires |c| == 4 && c[3] == "" && Choice(p, c, 0) == (0, 3)
    ensures Greedy(AllChoices(p, c), c, 0, 0, []) == [CopyOf(0, 3), Literal("")]
  {
    ChoiceAt(p, c, AnchorCount(c), 0);
    var done := [CopyOf(0, 3)];
    assert c[3..4] == [""] && Concat(c[3..4]) == "";
    assert Flush(c, 0, 0, []) + [CopyOf(0, 3)] == done;
    assert Greedy(AllChoices(p, c), c, 3, 3, done) == done + [Literal("")];
  }
}
