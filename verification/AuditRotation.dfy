/**
  The audit log as a chain of files: the current one under index 0 and the
  rotations 1 to 3, each a list of lines, every operation on the disk succeeding.
 */
module AuditRotation {
  import opened Text

  const MAX_AUDIT_BYTES: nat := 5 * 1024 * 1024
  const MAX_ROTATIONS: nat := 3
  const MAX_RECORD_BYTES: nat := 128 * 1024

  /** Index 0 is the current file, 1 to 3 its rotations; `None` is a missing file. */
  type Files = f: seq<Option<seq<string>>> | |f| == 4 witness [None, None, None, None]

  const NO_FILES: Files := [None, None, None, None]

  function Bytes(lines: seq<string>): nat {
    if lines == [] then 0 else
      var n := |lines| - 1;
      Bytes(lines[..n]) + |lines[n]|
  }

  function Lines(file: Option<seq<string>>): seq<string> { if file.Some? then file.value else [] }

  /** A rename that tolerates a missing source. */
  function Renamed(files: Files, source: nat, target: nat): Files
    requires source < 4 && target < 4
  {
    if files[source].Some? then files[target := files[source]][source := None] else files
  }

  /** Every file one place further, the last one gone, the current one free. */
  function Rotated(files: Files): Files { [None, files[0], files[1], files[2]] }

  predicate MustRotate(files: Files, next: nat) { files[0].Some? && Bytes(files[0].value) + next > MAX_AUDIT_BYTES }

  function AfterRotation(files: Files, next: nat): Files { if MustRotate(files, next) then Rotated(files) else files }

  function Extended(files: Files, line: string): Files { files[0 := Some(Lines(files[0]) + [line])] }

  /** `append`: an over-long record is refused before anything moves. */
  function Appended(files: Files, line: string): Option<Files> {
    if |line| > MAX_RECORD_BYTES then None else Some(Extended(AfterRotation(files, |line|), line))
  }

  /** The directory, changed file by file. */
  class Logger {
    var files: Files

    constructor ()
      ensures files == NO_FILES
    {
      files := NO_FILES;
    }

    /** The rename loop, oldest first. */
    method RotateIfNeeded(next: nat)
      modifies this
      ensures files == AfterRotation(old(files), next)
    {
      if files[0].None? || Bytes(files[0].value) + next <= MAX_AUDIT_BYTES { return; }
      var index := MAX_ROTATIONS;
      while index >= 1
        invariant 0 <= index <= MAX_ROTATIONS
        invariant index == 3 ==> files == old(files)
        invariant index == 2 ==> files == [old(files)[0], old(files)[1], None, old(files)[2]]
        invariant index == 1 ==> files == [old(files)[0], None, old(files)[1], old(files)[2]]
        invariant index == 0 ==> files == [None, old(files)[0], old(files)[1], old(files)[2]]
      {
        if index == MAX_ROTATIONS { files := files[index := None]; }
        files := Renamed(files, index - 1, index);
        index := index - 1;
      }
    }

    method Append(line: string) returns (ok: bool)
      modifies this
      ensures ok == Appended(old(files), line).Some?
      ensures files == if ok then Appended(old(files), line).value else old(files)
    {
      if |line| > MAX_RECORD_BYTES { return false; }
      RotateIfNeeded(|line|);
      files := files[0 := Some(Lines(files[0]) + [line])];
      ok := true;
    }
  }

  // ---- every run ----

  /** The chain, oldest line first. */
  function Chain(files: Files): seq<string> {
    Lines(files[3]) + Lines(files[2]) + Lines(files[1]) + Lines(files[0])
  }

  /** The files after appending the lines one by one, and the lines that were accepted. */
  function Log(lines: seq<string>): (Files, seq<string>) {
    if lines == [] then (NO_FILES, []) else
      var n := |lines| - 1;
      var (files, kept) := Log(lines[..n]);
      match Appended(files, lines[n])
      case Some(next) => (next, kept + [lines[n]])
      case None => (files, kept)
  }

  predicate IsSuffix(tail: seq<string>, all: seq<string>) { |tail| <= |all| && all[|all| - |tail|..] == tail }

  const ROTATED_BOUND: nat := MAX_AUDIT_BYTES - MAX_RECORD_BYTES

  predicate Bounded(file: Option<seq<string>>) { file.Some? ==> Bytes(file.value) <= MAX_AUDIT_BYTES }

  predicate NearlyFull(file: Option<seq<string>>) {
    file.Some? ==> ROTATED_BOUND < Bytes(file.value) <= MAX_AUDIT_BYTES
  }

  /** Rotations are nearly full and lie without a gap. */
  predicate Rotations(files: Files) {
    && NearlyFull(files[1]) && NearlyFull(files[2]) && NearlyFull(files[3])
    && (files[3].Some? ==> files[2].Some?) && (files[2].Some? ==> files[1].Some?)
  }

  /** Lines only leave past three full rotations. */
  predicate Kept(files: Files, all: seq<string>) {
    && Bounded(files[0]) && Rotations(files) && (files[1].Some? ==> files[0].Some?)
    && IsSuffix(Chain(files), all) && (Chain(files) != all ==> files[3].Some?)
  }

  lemma BytesSnoc(lines: seq<string>, line: string)
    ensures Bytes(lines + [line]) == Bytes(lines) + |line|
  {
    assert (lines + [line])[..|lines|] == lines;
  }

  lemma SuffixSnoc(tail: seq<string>, all: seq<string>, line: string)
    requires IsSuffix(tail, all)
    ensures IsSuffix(tail + [line], all + [line])
  {
  }

  lemma SuffixDrop(head: seq<string>, tail: seq<string>, all: seq<string>)
    requires IsSuffix(head + tail, all)
    ensures IsSuffix(tail, all)
  {
    assert all[|all| - |tail|..] == all[|all| - |head + tail|..][|head|..];
  }

  lemma RotatedChain(files: Files)
    ensures Chain(files) == Lines(files[3]) + Chain(Rotated(files))
  {
    var a, b, c, d := Lines(files[3]), Lines(files[2]), Lines(files[1]), Lines(files[0]);
    assert a + b + c + d == a + (b + c + d + []);
  }

  lemma RotationKeeps(files: Files, all: seq<string>, next: nat)
    requires Kept(files, all) && next <= MAX_RECORD_BYTES && MustRotate(files, next)
    ensures var r := Rotated(files);
            Rotations(r) && IsSuffix(Chain(r), all) && (Chain(r) != all ==> r[3].Some?)
  {
    RotatedChain(files);
    SuffixDrop(Lines(files[3]), Chain(Rotated(files)), all);
    if files[3].None? { assert [] + Chain(Rotated(files)) == Chain(Rotated(files)); }
  }

  lemma ExtendedChain(files: Files, line: string)
    ensures Chain(Extended(files, line)) == Chain(files) + [line]
  {
    var older := Lines(files[3]) + Lines(files[2]) + Lines(files[1]);
    assert older + (Lines(files[0]) + [line]) == older + Lines(files[0]) + [line];
  }

  lemma AppendKeeps(files: Files, all: seq<string>, line: string)
    requires Kept(files, all) && |line| <= MAX_RECORD_BYTES
    ensures Kept(Appended(files, line).value, all + [line])
  {
    var rotated := AfterRotation(files, |line|);
    if MustRotate(files, |line|) { RotationKeeps(files, all, |line|); }
    BytesSnoc(Lines(rotated[0]), line);
    ExtendedChain(rotated, line);
    SuffixSnoc(Chain(rotated), all, line);
  }

  lemma {:induction false} LogKeeps(lines: seq<string>)
    ensures var (files, kept) := Log(lines); Kept(files, kept)
    decreases |lines|
  {
    if lines != [] {
      var n := |lines| - 1;
      LogKeeps(lines[..n]);
      var (files, kept) := Log(lines[..n]);
      if |lines[n]| <= MAX_RECORD_BYTES { AppendKeeps(files, kept, lines[n]); }
    }
  }

  lemma {:induction false} BytesAppend(xs: seq<string>, ys: seq<string>)
    ensures Bytes(xs + ys) == Bytes(xs) + Bytes(ys)
    decreases |ys|
  {
    if ys == [] {
      assert xs + ys == xs;
    } else {
      var n := |ys| - 1;
      assert xs + ys == xs + ys[..n] + [ys[n]];
      BytesSnoc(xs + ys[..n], ys[n]);
      BytesAppend(xs, ys[..n]);
    }
  }

  lemma ChainBytes(files: Files)
    ensures Bytes(Chain(files))
         == Bytes(Lines(files[3])) + Bytes(Lines(files[2])) + Bytes(Lines(files[1])) + Bytes(Lines(files[0]))
  {
    BytesAppend(Lines(files[3]) + Lines(files[2]) + Lines(files[1]), Lines(files[0]));
    BytesAppend(Lines(files[3]) + Lines(files[2]), Lines(files[1]));
    BytesAppend(Lines(files[3]), Lines(files[2]));
  }

  /**
    From an empty log, whatever is appended: the chain is a suffix of it, every
    file is bounded, every rotation nearly full, and once a line is gone more
    than three times that bound is still there.
   */
  lemma ChainIsSuffix(lines: seq<string>)
    ensures var (files, kept) := Log(lines);
            && IsSuffix(Chain(files), kept)
            && Bounded(files[0]) && NearlyFull(files[1]) && NearlyFull(files[2]) && NearlyFull(files[3])
            && (Chain(files) != kept ==> Bytes(Chain(files)) > 3 * (MAX_AUDIT_BYTES - MAX_RECORD_BYTES))
  {
    LogKeeps(lines);
    ChainBytes(Log(lines).0);
  }

  /** A record over the limit changes nothing; every other is the last line of the chain. */
  lemma LastLineIsKept(lines: seq<string>, line: string)
    ensures var (files, kept) := Log(lines);
            var (next, all) := Log(lines + [line]);
            if |line| > MAX_RECORD_BYTES then next == files && all == kept
            else all == kept + [line] && Chain(next) != [] && Chain(next)[|Chain(next)| - 1] == line
  {
    assert (lines + [line])[..|lines|] == lines;
    ExtendedChain(AfterRotation(Log(lines).0, |line|), line);
  }
}
