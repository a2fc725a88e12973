/**
  Lexical path algebra for releases: cleaning, relative paths, and the two
  checks built on them. Paths are slash-separated text.
 */
module ReleasePaths {
  import opened Text

  const SLASH: char := '/'
  const UP := ".."

  // ---- cleaning ----

  /** One component onto the stack of components kept so far. */
  function Put(out: seq<string>, part: string, rooted: bool): seq<string> {
    if part == "" || part == "." then out
    else if part == UP then
      if out != [] && out[|out| - 1] != UP then out[..|out| - 1]
      else if out == [] && rooted then out
      else out + [UP]
    else out + [part]
  }

  function PutAll(out: seq<string>, parts: seq<string>, rooted: bool): seq<string> {
    if parts == [] then out else
      var n := |parts| - 1;
      Put(PutAll(out, parts[..n], rooted), parts[n], rooted)
  }

  predicate IsRooted(path: string) { path != "" && path[0] == SLASH }

  function Elements(path: string): seq<string> { PutAll([], Split(path, SLASH), IsRooted(path)) }

  function Show(rooted: bool, elements: seq<string>): string {
    if rooted then [SLASH] + Join(elements, SLASH) else if elements == [] then "." else Join(elements, SLASH)
  }

  /** `clean_path` */
  function CleanPath(path: string): string { Show(IsRooted(path), Elements(path)) }

  /** `clean_slash` reads every path as relative. */
  function CleanSlash(name: string): string { Show(false, PutAll([], Split(name, SLASH), false)) }

  predicate IsName(part: string) { part != "" && part != "." && part != UP && SLASH !in part }

  /** Steps up come first, and only in relative paths; everything else is a name. */
  predicate IsClean(elements: seq<string>, rooted: bool) {
    && (forall i :: 0 <= i < |elements| ==> elements[i] == UP || IsName(elements[i]))
    && (forall i :: 0 <= i < |elements| && elements[i] == UP ==> !rooted && (i > 0 ==> elements[i - 1] == UP))
  }

  lemma PutIsClean(out: seq<string>, part: string, rooted: bool)
    requires IsClean(out, rooted) && SLASH !in part
    ensures IsClean(Put(out, part, rooted), rooted)
  {
  }

  lemma {:induction false} PutAllIsClean(out: seq<string>, parts: seq<string>, rooted: bool)
    requires IsClean(out, rooted) && forall i :: 0 <= i < |parts| ==> SLASH !in parts[i]
    ensures IsClean(PutAll(out, parts, rooted), rooted)
    decreases |parts|
  {
    if parts != [] {
      var n := |parts| - 1;
      PutAllIsClean(out, parts[..n], rooted);
      PutIsClean(PutAll(out, parts[..n], rooted), parts[n], rooted);
    }
  }

  lemma SplitIsClean(path: string, rooted: bool)
    ensures IsClean(PutAll([], Split(path, SLASH), rooted), rooted)
  {
    var parts := Split(path, SLASH);
    forall i | 0 <= i < |parts| ensures SLASH !in parts[i] { SplitParts(path, SLASH, i); }
    PutAllIsClean([], parts, rooted);
  }

  lemma {:induction false} PutAllAppend(out: seq<string>, xs: seq<string>, ys: seq<string>, rooted: bool)
    ensures PutAll(out, xs + ys, rooted) == PutAll(PutAll(out, xs, rooted), ys, rooted)
    decreases |ys|
  {
    if ys == [] {
      assert xs + ys == xs;
    } else {
      var n := |ys| - 1;
      assert (xs + ys)[..|xs| + n] == xs + ys[..n];
      PutAllAppend(out, xs, ys[..n], rooted);
    }
  }

  // ---- the laws of cleaning: with `CleanStays` they fix the elements of every path ----

  /** Empty and "." components never count. */
  lemma BlankVanishes(xs: seq<string>, blank: string, ys: seq<string>, rooted: bool)
    requires blank == "" || blank == "."
    ensures PutAll([], xs + [blank] + ys, rooted) == PutAll([], xs + ys, rooted)
  {
    PutAllAppend([], xs + [blank], ys, rooted);
    PutAllAppend([], xs, [blank], rooted);
    PutAllAppend([], xs, ys, rooted);
    assert [blank][..0] == [];
  }

  /** A name and the step up after it cancel. */
  lemma UpCancels(xs: seq<string>, name: string, ys: seq<string>, rooted: bool)
    requires IsName(name)
    ensures PutAll([], xs + [name, UP] + ys, rooted) == PutAll([], xs + ys, rooted)
  {
    var out := PutAll([], xs, rooted);
    PutAllAppend([], xs + [name, UP], ys, rooted);
    PutAllAppend([], xs, [name, UP], rooted);
    PutAllAppend([], xs, ys, rooted);
    assert [name, UP][..1] == [name] && [name][..0] == [];
    assert PutAll(out, [name], rooted) == out + [name];
    assert (out + [name])[..|out|] == out;
  }

  /** A step up at the root goes nowhere. */
  lemma UpStopsAtRoot(ys: seq<string>)
    ensures PutAll([], [UP] + ys, true) == PutAll([], ys, true)
  {
    PutAllAppend([], [UP], ys, true);
    assert [UP][..0] == [];
  }

  /** Putting clean elements in order just collects them. */
  lemma {:induction false} CleanStays(elements: seq<string>, rooted: bool, n: nat)
    requires IsClean(elements, rooted) && n <= |elements|
    ensures PutAll([], elements[..n], rooted) == elements[..n]
  {
    if n > 0 {
      CleanStays(elements, rooted, n - 1);
      assert elements[..n][..n - 1] == elements[..n - 1];
      assert elements[..n] == elements[..n - 1] + [elements[n - 1]];
    }
  }

  lemma NoSlashInClean(elements: seq<string>, rooted: bool)
    requires IsClean(elements, rooted)
    ensures forall p :: p in elements ==> SLASH !in p
  {
  }

  /** Reading a shown path gives its elements back. */
  lemma ShowReads(elements: seq<string>)
    requires IsClean(elements, false)
    ensures PutAll([], Split(Show(false, elements), SLASH), false) == elements
  {
    CleanStays(elements, false, |elements|);
    assert elements[..|elements|] == elements;
    if elements == [] {
      SplitStep(".", SLASH, "");
      assert ["."][..0] == [];
    } else {
      NoSlashInClean(elements, false);
      SplitJoin(elements, SLASH);
    }
  }

  /** `clean_slash` is idempotent. */
  lemma CleanSlashTwice(name: string)
    ensures CleanSlash(CleanSlash(name)) == CleanSlash(name)
  {
    SplitIsClean(name, false);
    ShowReads(PutAll([], Split(name, SLASH), false));
  }

  lemma RootedReads(elements: seq<string>)
    requires IsClean(elements, true)
    ensures Elements(Show(true, elements)) == elements
  {
    var shown := Show(true, elements);
    var rest := Join(elements, SLASH);
    SplitStep("", SLASH, rest);
    assert "" + [SLASH] + rest == shown;
    PutAllAppend([], [""], Split(rest, SLASH), true);
    assert [""][..0] == [];
    CleanStays(elements, true, |elements|);
    assert elements[..|elements|] == elements;
    if elements == [] {
      SplitStep("", SLASH, "");
    } else {
      NoSlashInClean(elements, true);
      SplitJoin(elements, SLASH);
    }
  }

  lemma ShowIsRelative(elements: seq<string>)
    requires IsClean(elements, false)
    ensures !IsRooted(Show(false, elements))
  {
    if elements != [] { JoinStartsWith(elements); }
  }

  lemma JoinStartsWith(elements: seq<string>)
    requires elements != [] && elements[0] != ""
    ensures Join(elements, SLASH) != "" && Join(elements, SLASH)[0] == elements[0][0]
  {
  }

  /** A cleaned path has the elements of the path, and cleaning it again changes nothing. */
  lemma CleanPathTwice(path: string)
    ensures IsRooted(CleanPath(path)) == IsRooted(path) && Elements(CleanPath(path)) == Elements(path)
    ensures CleanPath(CleanPath(path)) == CleanPath(path)
  {
    SplitIsClean(path, IsRooted(path));
    if IsRooted(path) {
      RootedReads(Elements(path));
    } else {
      ShowIsRelative(Elements(path));
      ShowReads(Elements(path));
    }
  }

  // ---- relative paths ----

  function Ups(n: nat): (ups: seq<string>)
    ensures |ups| == n && forall i :: 0 <= i < n ==> ups[i] == UP
  {
    if n == 0 then [] else Ups(n - 1) + [UP]
  }

  /** The steps from one clean path to another. */
  function Steps(b: seq<string>, t: seq<string>): seq<string> {
    var shared := CommonPrefix(b, t);
    Ups(|b| - shared) + t[shared..]
  }

  /** `rel_path` */
  function RelPath(base: string, targ: string): Option<string> {
    var b, t := Elements(base), Elements(targ);
    var shared := CommonPrefix(b, t);
    if CleanPath(base) == CleanPath(targ) then Some(".")
    else if IsRooted(base) != IsRooted(targ) then None
    else if shared < |b| && b[shared] == UP then None
    else Some(Show(false, Steps(b, t)))
  }

  /** `Path::join` with a relative path. */
  function JoinPath(base: string, relative: string): string {
    if base == "" then relative else base + [SLASH] + relative
  }

  lemma PutAllSnoc(out: seq<string>, parts: seq<string>, part: string, rooted: bool)
    ensures PutAll(out, parts + [part], rooted) == Put(PutAll(out, parts, rooted), part, rooted)
  {
    assert (parts + [part])[..|parts|] == parts;
  }

  lemma PopLast(b: seq<string>, m: nat, rooted: bool)
    requires 1 <= m <= |b| && b[m - 1] != UP
    ensures Put(b[..m], UP, rooted) == b[..m - 1]
  {
    assert b[..m][..m - 1] == b[..m - 1];
  }

  lemma {:induction false} UpsPop(b: seq<string>, k: nat, rooted: bool)
    requires k <= |b| && forall i :: |b| - k <= i < |b| ==> b[i] != UP
    ensures PutAll(b, Ups(k), rooted) == b[..|b| - k]
    decreases k
  {
    if k == 0 {
      assert b[..|b|] == b;
    } else {
      UpsPop(b, k - 1, rooted);
      PutAllSnoc(b, Ups(k - 1), UP, rooted);
      PopLast(b, |b| - k + 1, rooted);
    }
  }

  /** Past the shared part of a clean path that does not step up there, nothing steps up. */
  lemma {:induction false} NoUpsAfter(b: seq<string>, rooted: bool, shared: nat, i: nat)
    requires IsClean(b, rooted) && shared <= i < |b| && b[shared] != UP
    ensures b[i] != UP
    decreases i
  {
    if i > shared { NoUpsAfter(b, rooted, shared, i - 1); }
  }

  lemma SuffixPuts(t: seq<string>, n: nat, rooted: bool)
    requires IsClean(t, rooted) && n <= |t|
    ensures PutAll(t[..n], t[n..], rooted) == t
  {
    CleanStays(t, rooted, n);
    CleanStays(t, rooted, |t|);
    PutAllAppend([], t[..n], t[n..], rooted);
    assert t[..n] + t[n..] == t && t[..|t|] == t;
  }

  /** Following the steps from b leads to t. */
  lemma StepsLead(b: seq<string>, t: seq<string>, rooted: bool, n: nat)
    requires IsClean(b, rooted) && IsClean(t, rooted) && n == CommonPrefix(b, t)
    requires n < |b| ==> b[n] != UP
    ensures PutAll(b, Ups(|b| - n) + t[n..], rooted) == t
  {
    CommonPrefixIsCommon(b, t);
    forall i | n <= i < |b| ensures b[i] != UP { NoUpsAfter(b, rooted, n, i); }
    UpsPop(b, |b| - n, rooted);
    PutAllAppend(b, Ups(|b| - n), t[n..], rooted);
    SuffixPuts(t, n, rooted);
  }

  lemma StepsHaveNoSlash(b: seq<string>, t: seq<string>, rooted: bool)
    requires IsClean(t, rooted)
    ensures forall p :: p in Steps(b, t) ==> SLASH !in p && p != "" && p != "."
  {
    forall p | p in Steps(b, t) ensures SLASH !in p && p != "" && p != "." {
      if p in Ups(|b| - CommonPrefix(b, t)) { assert p == UP; } else { assert p in t; }
    }
  }

  /** Reading shown steps on top of a stack is following them. */
  lemma StepsRead(out: seq<string>, steps: seq<string>, rooted: bool)
    requires forall p :: p in steps ==> SLASH !in p
    ensures PutAll(out, Split(Show(false, steps), SLASH), rooted) == PutAll(out, steps, rooted)
  {
    if steps == [] {
      SplitStep(".", SLASH, "");
      assert ["."][..0] == [];
    } else {
      SplitJoin(steps, SLASH);
    }
  }

  lemma JoinedElements(base: string, relative: string)
    requires !IsRooted(relative)
    ensures IsRooted(JoinPath(base, relative)) == IsRooted(base)
    ensures Elements(JoinPath(base, relative)) == PutAll(Elements(base), Split(relative, SLASH), IsRooted(base))
  {
    if base == "" {
      assert Split("", SLASH) == [""] && [""][..0] == [];
    } else {
      SplitAcross(base, relative, SLASH);
      PutAllAppend([], Split(base, SLASH), Split(relative, SLASH), IsRooted(base));
    }
  }

  lemma ShownStepsAreRelative(steps: seq<string>)
    requires forall p :: p in steps ==> SLASH !in p && p != ""
    ensures !IsRooted(Show(false, steps))
  {
    if steps != [] {
      assert steps[0] in steps;
      JoinStartsWith(steps);
      assert steps[0][0] in steps[0];
    }
  }

  /** The relative path, joined to the base and cleaned, is the cleaned target. */
  lemma RelPathLeads(base: string, targ: string)
    ensures RelPath(base, targ).Some? ==>
              var relative := RelPath(base, targ).value;
              !IsRooted(relative) && CleanPath(JoinPath(base, relative)) == CleanPath(targ)
  {
    var b, t := Elements(base), Elements(targ);
    SplitIsClean(base, IsRooted(base));
    SplitIsClean(targ, IsRooted(targ));
    if CleanPath(base) == CleanPath(targ) {
      JoinedElements(base, ".");
      StepsRead(b, [], IsRooted(base));
    } else if RelPath(base, targ).Some? {
      StepsHaveNoSlash(b, t, IsRooted(targ));
      ShownStepsAreRelative(Steps(b, t));
      JoinedElements(base, Show(false, Steps(b, t)));
      StepsRead(b, Steps(b, t), IsRooted(base));
      StepsLead(b, t, IsRooted(base), CommonPrefix(b, t));
    }
  }

  // ---- when there is no relative path ----

  predicate LeadsUp(out: seq<string>, k: nat) { k <= |out| && forall i :: 0 <= i < k ==> out[i] == UP }

  /** Leading steps up of a relative path are never taken back. */
  lemma {:induction false} LeadingUpsStay(out: seq<string>, parts: seq<string>, k: nat)
    requires LeadsUp(out, k)
    ensures LeadsUp(PutAll(out, parts, false), k)
    decreases |parts|
  {
    if parts != [] { LeadingUpsStay(out, parts[..|parts| - 1], k); }
  }

  lemma {:induction false} UpsComeFirst(b: seq<string>, rooted: bool, n: nat)
    requires IsClean(b, rooted) && n < |b| && b[n] == UP
    ensures !rooted && LeadsUp(b, n + 1)
  {
    if n > 0 { UpsComeFirst(b, rooted, n - 1); }
  }

  lemma SharedUps(b: seq<string>, t: seq<string>)
    ensures CommonPrefix(b, t) < |b| && LeadsUp(b, CommonPrefix(b, t) + 1) ==> !LeadsUp(t, CommonPrefix(b, t) + 1)
  {
  }

  /** `rel_path` refuses only where no relative path, joined to the base, leads to the target. */
  lemma NoRelPathMeansNone(base: string, targ: string, relative: string)
    requires RelPath(base, targ).None? && !IsRooted(relative)
    ensures CleanPath(JoinPath(base, relative)) != CleanPath(targ)
  {
    var b, t := Elements(base), Elements(targ);
    var shared := CommonPrefix(b, t);
    JoinedElements(base, relative);
    CleanPathTwice(JoinPath(base, relative));
    CleanPathTwice(targ);
    if IsRooted(base) == IsRooted(targ) {
      SplitIsClean(base, IsRooted(base));
      UpsComeFirst(b, IsRooted(base), shared);
      LeadingUpsStay(b, Split(relative, SLASH), shared + 1);
      SharedUps(b, t);
    }
  }

  // ---- the activation check ----

  /** `activate` accepts the directory: a relative path exists and its first step is not up. */
  predicate Activates(base: string, targ: string) {
    var relative := RelPath(base, targ);
    relative.Some? && Split(relative.value, SLASH)[0] != UP
  }

  /** At the base or below it, element by element. */
  predicate AtOrBelow(b: seq<string>, t: seq<string>) { b <= t && (|t| > |b| ==> t[|b|] != UP) }

  lemma {:induction false} SharedPrefix(b: seq<string>, t: seq<string>)
    ensures CommonPrefix(b, t) == |b| <==> b <= t
    decreases |b|
  {
    CommonPrefixIsCommon(b, t);
    if b <= t && b != [] {
      assert b[1..] <= t[1..] && b[0] == t[0];
      SharedPrefix(b[1..], t[1..]);
    }
    if CommonPrefix(b, t) == |b| { assert b[..|b|] == b; }
  }

  lemma FirstStep(b: seq<string>, t: seq<string>, rooted: bool)
    requires IsClean(t, rooted) && b != t
    ensures Split(Show(false, Steps(b, t)), SLASH)[0] == UP <==> !AtOrBelow(b, t)
  {
    StepsHaveNoSlash(b, t, rooted);
    SharedPrefix(b, t);
    CommonPrefixIsCommon(b, t);
    var steps := Steps(b, t);
    if CommonPrefix(b, t) == |b| {
      assert steps == t[|b|..];
      assert |t| > |b|;
      assert steps[0] == t[|b|];
    } else {
      assert steps[0] == UP;
    }
    SplitJoin(steps, SLASH);
  }

  lemma CleanPathsEqual(base: string, targ: string)
    ensures CleanPath(base) == CleanPath(targ) <==> IsRooted(base) == IsRooted(targ) && Elements(base) == Elements(targ)
  {
    CleanPathTwice(base);
    CleanPathTwice(targ);
  }

  lemma SelfStep()
    ensures Split(".", SLASH) == ["."]
  {
    SplitStep(".", SLASH, "");
  }

  /** The check passes exactly when the target is the base or below it, lexically. */
  lemma ActivatesExactlyBelow(base: string, targ: string)
    ensures Activates(base, targ) <==> IsRooted(base) == IsRooted(targ) && AtOrBelow(Elements(base), Elements(targ))
  {
    var b, t := Elements(base), Elements(targ);
    CleanPathsEqual(base, targ);
    SplitIsClean(targ, IsRooted(targ));
    SelfStep();
    if IsRooted(base) == IsRooted(targ) && b != t {
      FirstStep(b, t, IsRooted(targ));
      SharedPrefix(b, t);
    }
  }

  /** For absolute paths: exactly when the base's elements begin the target's. */
  lemma AbsoluteActivation(base: string, targ: string)
    requires IsRooted(base) && IsRooted(targ)
    ensures Activates(base, targ) <==> Elements(base) <= Elements(targ)
  {
    ActivatesExactlyBelow(base, targ);
    SplitIsClean(targ, true);
  }

  // ---- the manifest check ----

  /** `clean_relative` */
  function CleanRelative(name: string): Option<string> {
    if name == "" || '\\' in name || name[0] == SLASH then None else
      var clean := CleanSlash(name);
      if clean == "." || clean == UP || (|clean| >= 3 && clean[..3] == "../") then None else Some(clean)
  }

  predicate IsCanonical(name: string) { CleanRelative(name) == Some(name) }

  /** Every component is a proper name. */
  predicate OnlyNames(name: string) {
    var parts := Split(name, SLASH);
    forall i :: 0 <= i < |parts| ==> parts[i] != "" && parts[i] != "." && parts[i] != UP
  }

  lemma NamesStay(name: string)
    requires OnlyNames(name)
    ensures CleanSlash(name) == name
  {
    var parts := Split(name, SLASH);
    forall i | 0 <= i < |parts| ensures SLASH !in parts[i] { SplitParts(name, SLASH, i); }
    assert IsClean(parts, false);
    CleanStays(parts, false, |parts|);
    assert parts[..|parts|] == parts;
    JoinSplit(name, SLASH);
  }

  /** A path that climbs shows it at its start. */
  lemma ClimbingShows(elements: seq<string>)
    requires elements != [] && elements[0] == UP
    ensures var shown := Join(elements, SLASH); shown == UP || (|shown| >= 3 && shown[..3] == "../")
  {
  }

  lemma {:induction false} NoClimbNoUps(elements: seq<string>, i: nat)
    requires IsClean(elements, false) && i < |elements| && elements[0] != UP
    ensures elements[i] != UP
    decreases i
  {
    if i > 0 { NoClimbNoUps(elements, i - 1); }
  }

  lemma CanonicalHasOnlyNames(name: string)
    requires IsCanonical(name)
    ensures OnlyNames(name)
  {
    var elements := PutAll([], Split(name, SLASH), false);
    SplitIsClean(name, false);
    NoSlashInClean(elements, false);
    SplitJoin(elements, SLASH);
    if elements[0] == UP { ClimbingShows(elements); }
    forall i | 0 <= i < |elements| ensures elements[i] != UP { NoClimbNoUps(elements, i); }
  }

  lemma NamesDoNotClimb(name: string)
    requires OnlyNames(name)
    ensures name != "" && name[0] != SLASH && name != "." && name != UP && !(|name| >= 3 && name[..3] == "../")
  {
    var first := Split(name, SLASH)[0];
    var i := FirstIndex(name, SLASH);
    assert first == name[..i];
    SelfStep();
    SplitStep(UP, SLASH, "");
    if |name| >= 3 && name[..3] == "../" { ClimbSplits(name); }
  }

  lemma ClimbSplits(name: string)
    requires |name| >= 3 && name[..3] == "../"
    ensures Split(name, SLASH)[0] == UP
  {
    assert name[0] == name[..3][0] && name[1] == name[..3][1] && name[2] == name[..3][2];
    SplitStep(UP, SLASH, name[3..]);
    assert UP + [SLASH] + name[3..] == name;
  }

  /** A manifest name passes exactly when it has no backslash and no empty, `.` or `..` component. */
  lemma CanonicalExactly(name: string)
    ensures IsCanonical(name) <==> '\\' !in name && OnlyNames(name)
  {
    if IsCanonical(name) { CanonicalHasOnlyNames(name); }
    if OnlyNames(name) {
      NamesStay(name);
      NamesDoNotClimb(name);
    }
  }

  // ---- the loops ----

  /** The stack of `clean_slash` and `clean_path`. */
  method CleanParts(parts: seq<string>, rooted: bool) returns (out: seq<string>)
    ensures out == PutAll([], parts, rooted)
  {
    out := [];
    for i := 0 to |parts|
      invariant out == PutAll([], parts[..i], rooted)
    {
      assert parts[..i + 1][..i] == parts[..i];
      var part := parts[i];
      if part == "" || part == "." {
      } else if part == UP {
        if out != [] && out[|out| - 1] != UP {
          out := out[..|out| - 1];
        } else if out != [] || !rooted {
          out := out + [UP];
        }
      } else {
        out := out + [part];
      }
    }
    assert parts[..|parts|] == parts;
  }

  /** `rel_path`, and where it leads. */
  method ComputeRelPath(base: string, targ: string) returns (relative: Option<string>)
    ensures relative == RelPath(base, targ)
    ensures relative.Some? ==> CleanPath(JoinPath(base, relative.value)) == CleanPath(targ)
  {
    RelPathLeads(base, targ);
    var b := CleanParts(Split(base, SLASH), IsRooted(base));
    var t := CleanParts(Split(targ, SLASH), IsRooted(targ));
    if Show(IsRooted(base), b) == Show(IsRooted(targ), t) { return Some("."); }
    if IsRooted(base) != IsRooted(targ) { return None; }
    var shared := CountCommon(b, t);
    if shared < |b| && b[shared] == UP { return None; }
    var steps := [];
    for i := shared to |b|
      invariant steps == Ups(i - shared)
    {
      steps := steps + [UP];
    }
    relative := Some(Show(false, steps + t[shared..]));
  }
}
