/**
  Splitting text at a separator and joining it again.
 */
module Text {

  datatype Option<+T> = None | Some(value: T)

  function Max(x: int, y: int): int { if x > y then x else y }
  function Min(x: int, y: int): int { if x < y then x else y }

  /** The last n elements. */
  function LastN<T>(s: seq<T>, n: nat): (r: seq<T>) {
    if |s| <= n then s else s[|s| - n..]
  }

  /** Position of the first separator, or |s|. */
  function FirstIndex(s: string, sep: char): (i: nat)
    ensures i <= |s| && (i < |s| ==> s[i] == sep)
  {
    if s == [] || s[0] == sep then 0 else 1 + FirstIndex(s[1..], sep)
  }

  lemma {:induction false} FirstIndexIsFirst(s: string, sep: char)
    ensures sep !in s[..FirstIndex(s, sep)]
  {
    if s != [] && s[0] != sep {
      FirstIndexIsFirst(s[1..], sep);
      var i := FirstIndex(s[1..], sep);
      assert s[..i + 1] == [s[0]] + s[1..][..i];
    }
  }

  /** `str::split(sep)`: always at least one part. */
  function Split(s: string, sep: char): (parts: seq<string>)
    ensures |parts| >= 1
    decreases |s|
  {
    var i := FirstIndex(s, sep);
    if i == |s| then [s] else
      [s[..i]] + Split(s[i + 1..], sep)
  }

  function CountNewlines(s: string): nat {
    if s == "" then 0 else (if s[0] == '\n' then 1 else 0) + CountNewlines(s[1..])
  }

  /** `[..].join(sep)` */
  function Join(parts: seq<string>, sep: char): string {
    if parts == [] then ""
    else if |parts| == 1 then parts[0]
    else parts[0] + [sep] + Join(parts[1..], sep)
  }

  lemma JoinCons(p: string, rest: seq<string>, sep: char)
    requires rest != []
    ensures Join([p] + rest, sep) == p + [sep] + Join(rest, sep)
  {
    assert ([p] + rest)[1..] == rest;
  }

  lemma {:induction false} JoinSplit(s: string, sep: char)
    ensures Join(Split(s, sep), sep) == s
    decreases |s|
  {
    var i := FirstIndex(s, sep);
    if i < |s| {
      var head, rest := s[..i], s[i + 1..];
      assert s == head + [sep] + rest;
      assert Split(s, sep) == [head] + Split(rest, sep);
      JoinSplit(rest, sep);
      JoinCons(head, Split(rest, sep), sep);
    }
  }

  /** No part holds the separator. */
  lemma {:induction false} SplitParts(s: string, sep: char, n: nat)
    requires n < |Split(s, sep)|
    ensures sep !in Split(s, sep)[n]
    decreases |s|
  {
    var i := FirstIndex(s, sep);
    FirstIndexIsFirst(s, sep);
    assert s[..|s|] == s;
    if i < |s| && n > 0 {
      SplitParts(s[i + 1..], sep, n - 1);
    }
  }

  lemma NoSeparator(s: string, sep: char)
    ensures forall part :: part in Split(s, sep) ==> sep !in part
  {
    forall n: nat | n < |Split(s, sep)| ensures sep !in Split(s, sep)[n] { SplitParts(s, sep, n); }
  }

  lemma {:induction false} FirstIndexOf(p: string, sep: char, rest: string)
    requires sep !in p
    ensures FirstIndex(p, sep) == |p|
    ensures FirstIndex(p + [sep] + rest, sep) == |p|
    decreases |p|
  {
    if p != [] {
      FirstIndexOf(p[1..], sep, rest);
      assert (p + [sep] + rest)[1..] == p[1..] + [sep] + rest;
    }
  }

  lemma SplitStep(p: string, sep: char, rest: string)
    requires sep !in p
    ensures Split(p, sep) == [p]
    ensures Split(p + [sep] + rest, sep) == [p] + Split(rest, sep)
  {
    var s := p + [sep] + rest;
    FirstIndexOf(p, sep, rest);
    assert s[..|p|] == p && s[|p| + 1..] == rest;
  }

  lemma {:induction false} SplitJoin(parts: seq<string>, sep: char)
    requires parts != [] && forall p :: p in parts ==> sep !in p
    ensures Split(Join(parts, sep), sep) == parts
    decreases |parts|
  {
    if |parts| == 1 {
      SplitStep(parts[0], sep, "");
    } else {
      assert forall p :: p in parts[1..] ==> p in parts;
      SplitJoin(parts[1..], sep);
      SplitStep(parts[0], sep, Join(parts[1..], sep));
      assert [parts[0]] + parts[1..] == parts;
    }
  }

  lemma {:induction false} JoinAppend(xs: seq<string>, ys: seq<string>, sep: char)
    requires xs != [] && ys != []
    ensures Join(xs + ys, sep) == Join(xs, sep) + [sep] + Join(ys, sep)
    decreases |xs|
  {
    assert (xs + ys)[0] == xs[0];
    if |xs| == 1 {
      assert (xs + ys)[1..] == ys;
    } else {
      assert (xs + ys)[1..] == xs[1..] + ys;
      JoinAppend(xs[1..], ys, sep);
    }
  }

  lemma Regroup(head: string, rest: string, b: string, sep: char)
    ensures head + [sep] + rest + [sep] + b == head + [sep] + (rest + [sep] + b)
  {
  }

  lemma AcrossStep(head: string, rest: string, b: string, sep: char)
    requires sep !in head && Split(rest + [sep] + b, sep) == Split(rest, sep) + Split(b, sep)
    ensures var a := head + [sep] + rest; Split(a + [sep] + b, sep) == Split(a, sep) + Split(b, sep)
  {
    SplitStep(head, sep, rest);
    SplitStep(head, sep, rest + [sep] + b);
    Regroup(head, rest, b, sep);
  }

  /** Splitting works on both sides of a separator alone. */
  lemma {:induction false} SplitAcross(a: string, b: string, sep: char)
    ensures Split(a + [sep] + b, sep) == Split(a, sep) + Split(b, sep)
    decreases |a|
  {
    var i := FirstIndex(a, sep);
    FirstIndexIsFirst(a, sep);
    if i == |a| {
      assert a[..i] == a;
      SplitStep(a, sep, b);
    } else {
      SplitAcross(a[i + 1..], b, sep);
      AcrossStep(a[..i], a[i + 1..], b, sep);
      assert a == a[..i] + [sep] + a[i + 1..];
    }
  }

  // ---- common prefixes ----

  /** How many leading elements two sequences share. */
  function CommonPrefix(a: seq<string>, b: seq<string>): (n: nat)
    ensures n <= |a| && n <= |b|
    ensures n < |a| && n < |b| ==> a[n] != b[n]
  {
    if a == [] || b == [] || a[0] != b[0] then 0 else 1 + CommonPrefix(a[1..], b[1..])
  }

  lemma {:induction false} CommonPrefixIsCommon(a: seq<string>, b: seq<string>)
    ensures a[..CommonPrefix(a, b)] == b[..CommonPrefix(a, b)]
    decreases |a|
  {
    if a != [] && b != [] && a[0] == b[0] {
      CommonPrefixIsCommon(a[1..], b[1..]);
      var n := CommonPrefix(a[1..], b[1..]);
      assert a[..n + 1] == [a[0]] + a[1..][..n] && b[..n + 1] == [b[0]] + b[1..][..n];
    }
  }

  method CountCommon(a: seq<string>, b: seq<string>) returns (n: nat)
    ensures n == CommonPrefix(a, b)
  {
    n := 0;
    while n < |a| && n < |b| && a[n] == b[n]
      invariant n <= |a| && n <= |b| && n + CommonPrefix(a[n..], b[n..]) == CommonPrefix(a, b)
    {
      assert a[n..][1..] == a[n + 1..] && b[n..][1..] == b[n + 1..];
      n := n + 1;
    }
  }
}
