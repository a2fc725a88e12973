/**
  The transcript diff: a sparse dynamic program for the longest common block of
  two windows, and the work-stack that splits two sequences into all their
  matching blocks.

  `Longest` and `Blocks` are the simple reference forms (a dense scan, a
  recursive split); the methods are the source's sparse and stack-based forms.
 */
module SequenceMatcher {

  /** a[this.a..this.a+size] == b[this.b..this.b+size] */
  datatype Match = Match(a: nat, b: nat, size: nat)

  datatype Window = Window(alo: nat, ahi: nat, blo: nat, bhi: nat)

  ghost predicate Fits<T>(a: seq<T>, b: seq<T>, w: Window) {
    w.alo <= w.ahi <= |a| && w.blo <= w.bhi <= |b|
  }

  /** m is a pair of equal runs inside the window. */
  ghost predicate Common<T>(a: seq<T>, b: seq<T>, w: Window, m: Match)
    requires Fits(a, b, w)
  {
    && w.alo <= m.a && m.a + m.size <= w.ahi
    && w.blo <= m.b && m.b + m.size <= w.bhi
    && a[m.a..m.a + m.size] == b[m.b..m.b + m.size]
  }

  ghost predicate NoCommonLine<T>(a: seq<T>, b: seq<T>, w: Window)
    requires Fits(a, b, w)
  {
    forall i, j :: w.alo <= i < w.ahi && w.blo <= j < w.bhi ==> a[i] != b[j]
  }

  /** No common block of the window is longer than m; among the longest, m
      starts earliest in a, then earliest in b. */
  ghost predicate IsLongest<T>(a: seq<T>, b: seq<T>, w: Window, m: Match)
    requires Fits(a, b, w)
  {
    && Common(a, b, w, m)
    && (forall o: Match :: Common(a, b, w, o) ==> o.size <= m.size)
    && (m.size == 0 ==> m == Match(w.alo, w.blo, 0))
    && (m.size > 0 ==> forall o: Match :: Common(a, b, w, o) && o.size == m.size ==>
          m.a < o.a || (m.a == o.a && m.b <= o.b))
  }

  // ---- the dense reference scan ----

  /** Length of the longest equal run ending at (i, j) and starting no earlier than (alo, blo). */
  function Run<T(==)>(a: seq<T>, b: seq<T>, alo: nat, blo: nat, i: int, j: int): (k: nat)
    requires i < |a| && j < |b|
    ensures k == 0 || (k <= i + 1 - alo && k <= j + 1 - blo)
    decreases i
  {
    if i < alo || j < blo || a[i] != b[j] then 0 else 1 + Run(a, b, alo, blo, i - 1, j - 1)
  }

  function Better(best: Match, i: nat, j: nat, k: nat): (m: Match)
    requires k <= i + 1 && k <= j + 1
  {
    if k > best.size then Match(i + 1 - k, j + 1 - k, k) else best
  }

  /** The best run ending in a row before i of the window, or in row i before column j. */
  function Scan<T(==)>(a: seq<T>, b: seq<T>, w: Window, i: nat, j: nat): (m: Match)
    requires w.alo <= w.ahi <= |a| && w.blo <= w.bhi <= |b|
    requires w.alo <= i <= w.ahi && w.blo <= j <= w.bhi && (j > w.blo ==> i < w.ahi)
    decreases i, j
  {
    if j > w.blo then
      Better(Scan(a, b, w, i, j - 1), i, j - 1, Run(a, b, w.alo, w.blo, i, j - 1))
    else if i > w.alo then
      Scan(a, b, w, i - 1, w.bhi)
    else
      Match(w.alo, w.blo, 0)
  }

  function Longest<T(==)>(a: seq<T>, b: seq<T>, w: Window): (m: Match)
    requires w.alo <= w.ahi <= |a| && w.blo <= w.bhi <= |b|
  {
    Scan(a, b, w, w.ahi, w.blo)
  }

  lemma SliceSnoc<T>(s: seq<T>, lo: nat, hi: nat)
    requires lo <= hi < |s|
    ensures s[lo..hi + 1] == s[lo..hi] + [s[hi]]
  {
  }

  /** A run that ends at (i, j) is a common block of that length. */
  lemma {:induction false} RunIsCommon<T>(a: seq<T>, b: seq<T>, w: Window, i: int, j: int)
    requires Fits(a, b, w)
    requires i < w.ahi && j < w.bhi
    ensures var k := Run(a, b, w.alo, w.blo, i, j);
            k > 0 ==> Common(a, b, w, Match(i + 1 - k, j + 1 - k, k))
    decreases i
  {
    var k := Run(a, b, w.alo, w.blo, i, j);
    if k > 0 {
      RunIsCommon(a, b, w, i - 1, j - 1);
      SliceSnoc(a, i + 1 - k, i);
      SliceSnoc(b, j + 1 - k, j);
    }
  }

  lemma SnocInjective<T>(xs: seq<T>, x: T, ys: seq<T>, y: T)
    requires xs + [x] == ys + [y]
    ensures xs == ys && x == y
  {
    assert |xs + [x]| == |ys + [y]|;
    assert xs == (xs + [x])[..|xs|] && ys == (ys + [y])[..|ys|];
    assert x == (xs + [x])[|xs|] && y == (ys + [y])[|ys|];
  }

  /** A common block makes the run at its last cell at least as long. */
  lemma {:induction false} CommonBoundsRun<T>(a: seq<T>, b: seq<T>, w: Window, m: Match)
    requires Fits(a, b, w) && Common(a, b, w, m) && m.size > 0
    ensures m.size <= Run(a, b, w.alo, w.blo, m.a + m.size - 1, m.b + m.size - 1)
    decreases m.size
  {
    var n := m.size - 1;
    SliceSnoc(a, m.a, m.a + n);
    SliceSnoc(b, m.b, m.b + n);
    SnocInjective(a[m.a..m.a + n], a[m.a + n], b[m.b..m.b + n], b[m.b + n]);
    if n > 0 {
      CommonBoundsRun(a, b, w, Match(m.a, m.b, n));
    }
  }

  /** Cell (x, y) is scanned before position (i, j). */
  ghost predicate Before(w: Window, x: int, y: int, i: int, j: int) {
    w.alo <= x < w.ahi && w.blo <= y < w.bhi && (x < i || (x == i && y < j))
  }

  /** A run of k lines ending at (x, y) is shorter than the match, or as long and not earlier. */
  predicate Outdoes(m: Match, x: int, y: int, k: nat) {
    k <= m.size && (k == m.size > 0 ==>
      m.a + m.size - 1 < x || (m.a + m.size - 1 == x && m.b + m.size - 1 <= y))
  }

  /** The best match so far, against every scanned cell: longest, and first among the longest. */
  ghost predicate BestSoFar<T>(a: seq<T>, b: seq<T>, w: Window, i: nat, j: nat, m: Match)
    requires Fits(a, b, w)
  {
    && (forall x, y :: Before(w, x, y, i, j) ==> Outdoes(m, x, y, Run(a, b, w.alo, w.blo, x, y)))
    && (m.size == 0 ==> m == Match(w.alo, w.blo, 0))
    && (m.size > 0 ==> Common(a, b, w, m) && Before(w, m.a + m.size - 1, m.b + m.size - 1, i, j))
  }

  lemma BestStep<T>(a: seq<T>, b: seq<T>, w: Window, i: nat, j: nat, best: Match, k: nat)
    requires Fits(a, b, w) && w.alo <= i < w.ahi && w.blo <= j < w.bhi
    requires BestSoFar(a, b, w, i, j, best)
    requires k == Run(a, b, w.alo, w.blo, i, j)
    ensures BestSoFar(a, b, w, i, j + 1, Better(best, i, j, k))
  {
    RunIsCommon(a, b, w, i, j);
    forall x, y | Before(w, x, y, i, j + 1)
      ensures Before(w, x, y, i, j) || (x == i && y == j)
    {
    }
  }

  lemma BestNextRow<T>(a: seq<T>, b: seq<T>, w: Window, i: nat, best: Match)
    requires Fits(a, b, w) && w.alo <= i < w.ahi
    requires BestSoFar(a, b, w, i, w.bhi, best)
    ensures BestSoFar(a, b, w, i + 1, w.blo, best)
  {
    forall x, y
      ensures Before(w, x, y, i + 1, w.blo) == Before(w, x, y, i, w.bhi)
    {
    }
  }

  lemma BestOfNothing<T>(a: seq<T>, b: seq<T>, w: Window)
    requires Fits(a, b, w)
    ensures BestSoFar(a, b, w, w.alo, w.blo, Match(w.alo, w.blo, 0))
  {
  }

  /** An invariant of the scan: the row, the column and the best match so far. */
  type ScanInvariant = (nat, nat, Match) -> bool

  predicate ColumnKeeps<T(==)>(a: seq<T>, b: seq<T>, w: Window, inv: ScanInvariant, i: nat, j: nat, m: Match)
    requires w.alo <= w.ahi <= |a| && w.blo <= w.bhi <= |b|
  {
    w.alo <= i < w.ahi && w.blo <= j < w.bhi && inv(i, j, m) ==>
      inv(i, j + 1, Better(m, i, j, Run(a, b, w.alo, w.blo, i, j)))
  }

  predicate RowKeeps(w: Window, inv: ScanInvariant, i: nat, m: Match) {
    w.alo <= i < w.ahi && inv(i, w.bhi, m) ==> inv(i + 1, w.blo, m)
  }

  lemma {:induction false} ScanCarries<T>(a: seq<T>, b: seq<T>, w: Window, inv: ScanInvariant, i: nat, j: nat)
    requires Fits(a, b, w) && inv(w.alo, w.blo, Match(w.alo, w.blo, 0))
    requires forall x: nat, y: nat, m: Match :: ColumnKeeps(a, b, w, inv, x, y, m)
    requires forall x: nat, m: Match :: RowKeeps(w, inv, x, m)
    requires w.alo <= i <= w.ahi && w.blo <= j <= w.bhi && (j > w.blo ==> i < w.ahi)
    ensures inv(i, j, Scan(a, b, w, i, j))
    decreases i, j
  {
    if j > w.blo {
      ScanCarries(a, b, w, inv, i, j - 1);
      assert ColumnKeeps(a, b, w, inv, i, j - 1, Scan(a, b, w, i, j - 1));
    } else if i > w.alo {
      ScanCarries(a, b, w, inv, i - 1, w.bhi);
      assert RowKeeps(w, inv, i - 1, Scan(a, b, w, i - 1, w.bhi));
    }
  }

  ghost function BestUpTo<T>(a: seq<T>, b: seq<T>, w: Window): ScanInvariant
    requires Fits(a, b, w)
  {
    (i: nat, j: nat, m: Match) => BestSoFar(a, b, w, i, j, m)
  }

  lemma ScanIsBest<T>(a: seq<T>, b: seq<T>, w: Window)
    requires Fits(a, b, w)
    ensures BestSoFar(a, b, w, w.ahi, w.blo, Longest(a, b, w))
  {
    var inv := BestUpTo(a, b, w);
    BestOfNothing(a, b, w);
    forall i: nat, j: nat, m: Match ensures ColumnKeeps(a, b, w, inv, i, j, m) {
      if w.alo <= i < w.ahi && w.blo <= j < w.bhi && inv(i, j, m) {
        BestStep(a, b, w, i, j, m, Run(a, b, w.alo, w.blo, i, j));
      }
    }
    forall i: nat, m: Match ensures RowKeeps(w, inv, i, m) {
      if w.alo <= i < w.ahi && inv(i, w.bhi, m) { BestNextRow(a, b, w, i, m); }
    }
    ScanCarries(a, b, w, inv, w.ahi, w.blo);
  }

  /** The dense scan returns the longest common block, earliest in a, then in b. */
  lemma LongestIsLongest<T>(a: seq<T>, b: seq<T>, w: Window)
    requires Fits(a, b, w)
    ensures IsLongest(a, b, w, Longest(a, b, w))
  {
    var m := Longest(a, b, w);
    ScanIsBest(a, b, w);
    forall o: Match | Common(a, b, w, o)
      ensures o.size <= m.size
      ensures o.size == m.size > 0 ==> m.a < o.a || (m.a == o.a && m.b <= o.b)
    {
      if o.size > 0 {
        CommonBoundsRun(a, b, w, o);
        assert Before(w, o.a + o.size - 1, o.b + o.size - 1, w.ahi, w.blo);
      }
    }
  }

  // ---- the sparse form ----

  /** The positions of x in b[..n], ascending. */
  function Positions<T(==)>(b: seq<T>, x: T, n: nat): (js: seq<nat>)
    requires n <= |b|
  {
    if n == 0 then [] else
      var js := Positions(b, x, n - 1);
      if b[n - 1] == x then js + [n - 1] else js
  }

  lemma {:induction false} PositionsAreExact<T>(b: seq<T>, x: T, n: nat)
    requires n <= |b|
    ensures var js := Positions(b, x, n);
            && (forall p :: 0 <= p < |js| ==> js[p] < n && b[js[p]] == x)
            && (forall p, q :: 0 <= p < q < |js| ==> js[p] < js[q])
            && (forall j :: 0 <= j < n && b[j] == x ==> j in js)
  {
    if n > 0 {
      PositionsAreExact(b, x, n - 1);
    }
  }

  /** b2j maps each element of b[..n] to its positions there. */
  ghost predicate IsIndex<T>(b: seq<T>, n: nat, b2j: map<T, seq<nat>>)
    requires n <= |b|
  {
    && (forall x :: x in b2j ==> b2j[x] == Positions(b, x, n))
    && (forall j :: 0 <= j < n ==> b[j] in b2j)
  }

  lemma {:induction false} NoPositions<T>(b: seq<T>, x: T, n: nat)
    requires n <= |b| && forall j :: 0 <= j < n ==> b[j] != x
    ensures Positions(b, x, n) == []
  {
    if n > 0 { NoPositions(b, x, n - 1); }
  }

  lemma IndexOneMore<T>(b: seq<T>, j: nat, b2j: map<T, seq<nat>>)
    requires j < |b| && IsIndex(b, j, b2j)
    ensures IsIndex(b, j + 1, b2j[b[j] := (if b[j] in b2j then b2j[b[j]] else []) + [j]])
  {
    if b[j] !in b2j {
      NoPositions(b, b[j], j);
    }
  }

  /** `Matcher::new` */
  method IndexPositions<T(==)>(b: seq<T>) returns (b2j: map<T, seq<nat>>)
    ensures IsIndex(b, |b|, b2j)
  {
    b2j := map[];
    for j := 0 to |b|
      invariant IsIndex(b, j, b2j)
    {
      IndexOneMore(b, j, b2j);
      b2j := b2j[b[j] := (if b[j] in b2j then b2j[b[j]] else []) + [j]];
    }
  }

  /** Row i's lengths, up to column hi, are exactly the non-zero runs that end there. */
  ghost predicate RowIs<T>(a: seq<T>, b: seq<T>, w: Window, i: int, hi: int, row: map<int, nat>)
    requires Fits(a, b, w) && i < w.ahi && hi <= w.bhi
  {
    forall j :: j < hi ==> Run(a, b, w.alo, w.blo, i, j) == At(row, j)
  }

  function At(row: map<int, nat>, j: int): nat {
    if j in row then row[j] else 0
  }

  /** Columns that do not hold the row's line leave the scan and the row where they were. */
  lemma {:induction false} SkipColumns<T>(a: seq<T>, b: seq<T>, w: Window, i: nat, lo: nat, hi: nat, row: map<int, nat>)
    requires Fits(a, b, w) && w.alo <= i < w.ahi && w.blo <= lo <= hi <= w.bhi
    requires forall j :: lo <= j < hi ==> a[i] != b[j]
    requires RowIs(a, b, w, i, lo, row) && forall j :: j in row ==> j < lo
    ensures Scan(a, b, w, i, hi) == Scan(a, b, w, i, lo)
    ensures RowIs(a, b, w, i, hi, row)
    decreases hi
  {
    if lo < hi {
      SkipColumns(a, b, w, i, lo, hi - 1, row);
    }
  }

  /** A column that holds the row's line extends the run of the previous row's column before it. */
  lemma VisitColumn<T>(a: seq<T>, b: seq<T>, w: Window, i: nat, j: nat, prev: map<int, nat>, row: map<int, nat>, k: nat)
    requires Fits(a, b, w) && w.alo <= i < w.ahi && w.blo <= j < w.bhi && a[i] == b[j]
    requires RowIs(a, b, w, i - 1, w.bhi, prev) && RowIs(a, b, w, i, j, row)
    requires k == At(prev, j - 1) + 1
    ensures k == Run(a, b, w.alo, w.blo, i, j)
    ensures Scan(a, b, w, i, j + 1) == Better(Scan(a, b, w, i, j), i, j, k)
    ensures RowIs(a, b, w, i, j + 1, row[j := k])
  {
    assert Run(a, b, w.alo, w.blo, i - 1, j - 1) == At(prev, j - 1);
    forall y | y < j + 1
      ensures Run(a, b, w.alo, w.blo, i, y) == At(row[j := k], y)
    {
      if y < j { assert At(row[j := k], y) == At(row, y); }
    }
  }

  /** `find_longest_match`: only the columns that hold the row's line are visited. */
  method FindLongestMatch<T(==)>(a: seq<T>, b: seq<T>, b2j: map<T, seq<nat>>, w: Window) returns (m: Match)
    requires Fits(a, b, w) && IsIndex(b, |b|, b2j)
    ensures m == Longest(a, b, w)
    ensures IsLongest(a, b, w, m)
  {
    m := Match(w.alo, w.blo, 0);
    var j2len: map<int, nat> := map[];
    for i := w.alo to w.ahi
      invariant m == Scan(a, b, w, i, w.blo)
      invariant RowIs(a, b, w, i as int - 1, w.bhi, j2len)
    {
      var js := if a[i] in b2j then b2j[a[i]] else [];
      PositionsAreExact(b, a[i], |b|);
      m, j2len := ScanRow(a, b, w, i, js, j2len, m);
    }
    LongestIsLongest(a, b, w);
  }

  /** One row of `find_longest_match`: the inner loop over the positions of a[i]. */
  method ScanRow<T(==)>(a: seq<T>, b: seq<T>, w: Window, i: nat, js: seq<nat>, j2len: map<int, nat>, best: Match)
    returns (m: Match, newj2len: map<int, nat>)
    requires Fits(a, b, w) && w.alo <= i < w.ahi
    requires forall p :: 0 <= p < |js| ==> js[p] < |b| && b[js[p]] == a[i]
    requires forall p, q :: 0 <= p < q < |js| ==> js[p] < js[q]
    requires forall j :: 0 <= j < |b| && b[j] == a[i] ==> j in js
    requires RowIs(a, b, w, i - 1, w.bhi, j2len)
    requires best == Scan(a, b, w, i, w.blo)
    ensures m == Scan(a, b, w, i, w.bhi)
    ensures RowIs(a, b, w, i, w.bhi, newj2len)
  {
    m, newj2len := best, map[];
    var p := 0;
    ghost var done := w.blo;
    while p < |js|
      invariant 0 <= p <= |js| && w.blo <= done <= w.bhi
      invariant forall q :: 0 <= q < p ==> js[q] < done
      invariant forall q :: p <= q < |js| ==> js[q] >= done || js[q] < w.blo
      invariant m == Scan(a, b, w, i, done)
      invariant RowIs(a, b, w, i, done, newj2len)
      invariant forall j :: j in newj2len ==> j < done
    {
      var j := js[p];
      if j >= w.bhi {
        break;
      }
      if j >= w.blo {
        SkipColumns(a, b, w, i, done, j, newj2len);
        var k := At(j2len, j - 1) + 1;
        VisitColumn(a, b, w, i, j, j2len, newj2len, k);
        newj2len := newj2len[j := k];
        if k > m.size {
          m := Match(i + 1 - k, j + 1 - k, k);
        }
        done := j + 1;
      }
      p := p + 1;
    }
    SkipColumns(a, b, w, i, done, w.bhi, newj2len);
  }

  // ---- all matching blocks ----

  function Left(w: Window, m: Match): Window {
    Window(w.alo, m.a, w.blo, m.b)
  }

  function Right(w: Window, m: Match): Window {
    Window(m.a + m.size, w.ahi, m.b + m.size, w.bhi)
  }

  function Whole<T>(a: seq<T>, b: seq<T>): Window {
    Window(0, |a|, 0, |b|)
  }

  predicate Open(w: Window) {
    w.alo < w.ahi && w.blo < w.bhi
  }

  function Size(w: Window): int {
    w.ahi - w.alo + w.bhi - w.blo
  }

  /** The recursive split: the longest block, with the blocks left and right of it. */
  function Blocks<T(==)>(a: seq<T>, b: seq<T>, w: Window): (bs: seq<Match>)
    requires w.alo <= w.ahi <= |a| && w.blo <= w.bhi <= |b|
    decreases Size(w)
  {
    LongestIsLongest(a, b, w);
    var m := Longest(a, b, w);
    if m.size == 0 then [] else
      (if Open(Left(w, m)) then Blocks(a, b, Left(w, m)) else [])
      + ([m] + if Open(Right(w, m)) then Blocks(a, b, Right(w, m)) else [])
  }

  /** The blocks are equal runs, in order and disjoint in both sequences, and no
      gap before, between or after them holds a line of both sides. */
  ghost predicate Tiles<T>(a: seq<T>, b: seq<T>, w: Window, bs: seq<Match>)
    requires Fits(a, b, w)
    decreases |bs|
  {
    if bs == [] then NoCommonLine(a, b, w) else
      && bs[0].size > 0 && Common(a, b, w, bs[0])
      && NoCommonLine(a, b, Left(w, bs[0]))
      && Tiles(a, b, Right(w, bs[0]), bs[1..])
  }

  lemma TilesCons<T>(a: seq<T>, b: seq<T>, w: Window, m: Match, bs: seq<Match>)
    requires Fits(a, b, w)
    ensures Tiles(a, b, w, [m] + bs) <==>
      && m.size > 0 && Common(a, b, w, m)
      && NoCommonLine(a, b, Left(w, m))
      && Tiles(a, b, Right(w, m), bs)
  {
    assert ([m] + bs)[1..] == bs;
  }

  lemma CommonNested<T>(a: seq<T>, b: seq<T>, w: Window, m: Match, x: Match)
    requires Fits(a, b, w) && Common(a, b, w, m) && Common(a, b, Left(w, m), x)
    ensures Common(a, b, w, x)
    ensures Fits(a, b, Right(w, x)) && Common(a, b, Right(w, x), m)
    ensures Right(Left(w, m), x) == Left(Right(w, x), m)
    ensures Left(Left(w, m), x) == Left(w, x) && Right(Right(w, x), m) == Right(w, m)
  {
  }

  lemma {:induction false} TilesSplit<T>(a: seq<T>, b: seq<T>, w: Window, xs: seq<Match>, m: Match, ys: seq<Match>)
    requires Fits(a, b, w) && m.size > 0 && Common(a, b, w, m)
    requires Tiles(a, b, Left(w, m), xs) && Tiles(a, b, Right(w, m), ys)
    ensures Tiles(a, b, w, xs + ([m] + ys))
    decreases |xs|
  {
    if xs == [] {
      TilesCons(a, b, w, m, ys);
      assert xs + ([m] + ys) == [m] + ys;
    } else {
      var x := xs[0];
      CommonNested(a, b, w, m, x);
      TilesSplit(a, b, Right(w, x), xs[1..], m, ys);
      TilesCons(a, b, w, x, xs[1..] + ([m] + ys));
      assert xs + ([m] + ys) == [x] + (xs[1..] + ([m] + ys));
    }
  }

  lemma CommonLine<T>(a: seq<T>, b: seq<T>, w: Window, i: nat, j: nat)
    requires Fits(a, b, w) && w.alo <= i < w.ahi && w.blo <= j < w.bhi
    ensures a[i] == b[j] ==> Common(a, b, w, Match(i, j, 1))
  {
    assert a[i] == b[j] ==> a[i..i + 1] == b[j..j + 1];
  }

  lemma {:induction false} BlocksTile<T>(a: seq<T>, b: seq<T>, w: Window)
    requires Fits(a, b, w)
    ensures Tiles(a, b, w, Blocks(a, b, w))
    decreases Size(w)
  {
    LongestIsLongest(a, b, w);
    var m := Longest(a, b, w);
    if m.size == 0 {
      forall i, j | w.alo <= i < w.ahi && w.blo <= j < w.bhi
        ensures a[i] != b[j]
      {
        CommonLine(a, b, w, i, j);
      }
    } else {
      if Open(Left(w, m)) { BlocksTile(a, b, Left(w, m)); }
      if Open(Right(w, m)) { BlocksTile(a, b, Right(w, m)); }
      TilesSplit(a, b, w,
                 if Open(Left(w, m)) then Blocks(a, b, Left(w, m)) else [],
                 m,
                 if Open(Right(w, m)) then Blocks(a, b, Right(w, m)) else []);
    }
  }

  // ---- sorting ----

  predicate Greater(x: Match, y: Match) {
    x.a > y.a || (x.a == y.a && x.b > y.b)
  }

  ghost predicate SortedTo(s: seq<Match>, n: nat)
    requires n <= |s|
  {
    forall i, j :: 0 <= i < j < n ==> !Greater(s[i], s[j])
  }

  ghost predicate StrictlyAscending(s: seq<Match>) {
    forall i, j :: 0 <= i < j < |s| ==> s[i].a < s[j].a
  }

  lemma {:induction false} TileAt<T>(a: seq<T>, b: seq<T>, w: Window, bs: seq<Match>, i: nat)
    requires Fits(a, b, w) && Tiles(a, b, w, bs) && i < |bs|
    ensures bs[i].size > 0 && Common(a, b, w, bs[i])
    decreases i
  {
    if i > 0 {
      TileAt(a, b, Right(w, bs[0]), bs[1..], i - 1);
    }
  }

  lemma {:induction false} TileBefore<T>(a: seq<T>, b: seq<T>, w: Window, bs: seq<Match>, i: nat, j: nat)
    requires Fits(a, b, w) && Tiles(a, b, w, bs) && i < j < |bs|
    ensures bs[i].a + bs[i].size <= bs[j].a && bs[i].b + bs[i].size <= bs[j].b
    decreases i
  {
    if i > 0 {
      TileBefore(a, b, Right(w, bs[0]), bs[1..], i - 1, j - 1);
    } else {
      TileAt(a, b, Right(w, bs[0]), bs[1..], j - 1);
    }
  }

  lemma TilesAscend<T>(a: seq<T>, b: seq<T>, w: Window, bs: seq<Match>)
    requires Fits(a, b, w) && Tiles(a, b, w, bs)
    ensures StrictlyAscending(bs)
    ensures forall i :: 0 <= i < |bs| ==> bs[i].size > 0
  {
    forall i | 0 <= i < |bs| ensures bs[i].size > 0 { TileAt(a, b, w, bs, i); }
    forall i, j | 0 <= i < j < |bs| ensures bs[i].a < bs[j].a { TileBefore(a, b, w, bs, i, j); }
  }

  /** blocks with element i moved down to position j. */
  function MovedDown(blocks: seq<Match>, j: nat, i: nat): seq<Match>
    requires j <= i < |blocks|
  {
    blocks[..j] + [blocks[i]] + blocks[j..i] + blocks[i + 1..]
  }

  lemma MovedDownKeepsContents(blocks: seq<Match>, j: nat, i: nat)
    requires j <= i < |blocks|
    ensures multiset(MovedDown(blocks, j, i)) == multiset(blocks)
  {
    assert blocks == blocks[..j] + blocks[j..i] + [blocks[i]] + blocks[i + 1..];
  }

  /** The inner loop of the insertion sort: sink s[i] into the sorted prefix. */
  method SinkInto(blocks: seq<Match>, i: nat) returns (s: seq<Match>)
    requires i < |blocks| && SortedTo(blocks, i)
    ensures |s| == |blocks| && SortedTo(s, i + 1) && multiset(s) == multiset(blocks)
  {
    s := blocks;
    var key := s[i];
    var j := i;
    while j > 0 && Greater(s[j - 1], key)
      invariant 0 <= j <= i && |s| == |blocks|
      invariant s == blocks[..j + 1] + blocks[j..i] + blocks[i + 1..]
      invariant forall p :: j <= p < i ==> Greater(blocks[p], key)
    {
      s := s[j := s[j - 1]];
      j := j - 1;
    }
    s := s[j := key];
    assert s == MovedDown(blocks, j, i);
    MovedDownKeepsContents(blocks, j, i);
  }

  /** The insertion sort of `matching_blocks`. */
  method SortMatches(blocks: seq<Match>) returns (s: seq<Match>)
    ensures SortedTo(s, |s|) && multiset(s) == multiset(blocks)
  {
    s := blocks;
    var i := 1;
    while i < |s|
      invariant |s| == |blocks| && 1 <= i && (i <= |s| || |s| == 0)
      invariant multiset(s) == multiset(blocks)
      invariant i <= |s| ==> SortedTo(s, i)
    {
      s := SinkInto(s, i);
      i := i + 1;
    }
  }

  lemma SameContentsSameFirst(xs: seq<Match>, ys: seq<Match>)
    requires StrictlyAscending(xs) && SortedTo(ys, |ys|) && multiset(xs) == multiset(ys)
    requires xs != [] && ys != []
    ensures xs[0] == ys[0]
  {
    assert xs[0] in multiset(ys) && ys[0] in multiset(xs);
    var i :| 0 <= i < |ys| && ys[i] == xs[0];
    var j :| 0 <= j < |xs| && xs[j] == ys[0];
  }

  lemma TailContents(xs: seq<Match>)
    requires xs != []
    ensures multiset(xs[1..]) == multiset(xs) - multiset{xs[0]}
  {
    assert xs == [xs[0]] + xs[1..];
  }

  lemma {:induction false} SortedPermutationIsUnique(xs: seq<Match>, ys: seq<Match>)
    requires StrictlyAscending(xs) && SortedTo(ys, |ys|) && multiset(xs) == multiset(ys)
    ensures xs == ys
    decreases |xs|
  {
    assert |xs| == |multiset(xs)| == |multiset(ys)| == |ys|;
    if xs != [] {
      SameContentsSameFirst(xs, ys);
      TailContents(xs);
      TailContents(ys);
      SortedPermutationIsUnique(xs[1..], ys[1..]);
    }
  }

  // ---- the work stack ----

  ghost predicate AllFit<T>(a: seq<T>, b: seq<T>, stack: seq<Window>) {
    forall i :: 0 <= i < |stack| ==> Fits(a, b, stack[i])
  }

  /** The blocks still to come from the windows on the stack. */
  ghost function Pending<T>(a: seq<T>, b: seq<T>, stack: seq<Window>): multiset<Match>
    requires AllFit(a, b, stack)
  {
    if stack == [] then multiset{} else
      Pending(a, b, stack[..|stack| - 1]) + multiset(Blocks(a, b, stack[|stack| - 1]))
  }

  ghost function Weight(stack: seq<Window>): int {
    if stack == [] then 0 else Weight(stack[..|stack| - 1]) + Size(stack[|stack| - 1]) + 1
  }

  lemma {:induction false} WeightIsNat<T>(a: seq<T>, b: seq<T>, stack: seq<Window>)
    requires AllFit(a, b, stack)
    ensures Weight(stack) >= |stack|
    decreases |stack|
  {
    if stack != [] { WeightIsNat(a, b, stack[..|stack| - 1]); }
  }

  lemma PushWindow<T>(a: seq<T>, b: seq<T>, stack: seq<Window>, w: Window)
    requires AllFit(a, b, stack) && Fits(a, b, w)
    ensures AllFit(a, b, stack + [w])
    ensures Pending(a, b, stack + [w]) == Pending(a, b, stack) + multiset(Blocks(a, b, w))
    ensures Weight(stack + [w]) == Weight(stack) + Size(w) + 1
  {
    assert (stack + [w])[..|stack|] == stack;
  }

  function PushChildren(stack: seq<Window>, w: Window, m: Match): seq<Window> {
    var left := if Open(Left(w, m)) then stack + [Left(w, m)] else stack;
    if Open(Right(w, m)) then left + [Right(w, m)] else left
  }

  ghost function FoundBelow<T>(a: seq<T>, b: seq<T>, w: Window): multiset<Match>
    requires Fits(a, b, w)
  {
    if Open(w) then multiset(Blocks(a, b, w)) else multiset{}
  }

  lemma BlocksContents<T>(a: seq<T>, b: seq<T>, w: Window, m: Match)
    requires Fits(a, b, w) && m == Longest(a, b, w) && m.size > 0
    ensures Common(a, b, w, m)
    ensures multiset(Blocks(a, b, w)) == FoundBelow(a, b, Left(w, m)) + multiset{m} + FoundBelow(a, b, Right(w, m))
  {
    LongestIsLongest(a, b, w);
    var xs := if Open(Left(w, m)) then Blocks(a, b, Left(w, m)) else [];
    var ys := if Open(Right(w, m)) then Blocks(a, b, Right(w, m)) else [];
    assert Blocks(a, b, w) == xs + ([m] + ys);
  }

  lemma PushChild<T>(a: seq<T>, b: seq<T>, stack: seq<Window>, w: Window)
    requires AllFit(a, b, stack) && Fits(a, b, w)
    ensures var next := if Open(w) then stack + [w] else stack;
            && AllFit(a, b, next)
            && Pending(a, b, next) == Pending(a, b, stack) + FoundBelow(a, b, w)
            && Weight(next) <= Weight(stack) + Size(w) + 1
  {
    if Open(w) { PushWindow(a, b, stack, w); }
  }

  lemma Regroup(p: multiset<Match>, l: multiset<Match>, m: multiset<Match>, r: multiset<Match>)
    ensures ((p + l) + r) + m == p + ((l + m) + r)
  {
  }

  /** Popping a window and pushing its children moves one block from pending to found. */
  lemma SplitWindow<T>(a: seq<T>, b: seq<T>, rest: seq<Window>, w: Window, m: Match, below: multiset<Match>)
    requires AllFit(a, b, rest) && Fits(a, b, w) && Common(a, b, w, m) && m.size > 0
    requires below == FoundBelow(a, b, Left(w, m)) + multiset{m} + FoundBelow(a, b, Right(w, m))
    ensures var next := PushChildren(rest, w, m);
            && AllFit(a, b, next)
            && Pending(a, b, next) + multiset{m} == Pending(a, b, rest) + below
            && Weight(next) < Weight(rest) + Size(w) + 1
  {
    PushChild(a, b, rest, Left(w, m));
    PushChild(a, b, if Open(Left(w, m)) then rest + [Left(w, m)] else rest, Right(w, m));
    Regroup(Pending(a, b, rest), FoundBelow(a, b, Left(w, m)), multiset{m}, FoundBelow(a, b, Right(w, m)));
  }

  lemma PopWindow<T>(a: seq<T>, b: seq<T>, stack: seq<Window>, rest: seq<Window>, w: Window, m: Match)
    requires AllFit(a, b, stack) && stack == rest + [w] && Fits(a, b, w) && m == Longest(a, b, w)
    ensures m.size == 0 ==>
      AllFit(a, b, rest) && Pending(a, b, rest) == Pending(a, b, stack) && Weight(rest) < Weight(stack)
    ensures m.size > 0 ==>
      && AllFit(a, b, PushChildren(rest, w, m))
      && Pending(a, b, PushChildren(rest, w, m)) + multiset{m} == Pending(a, b, stack)
      && Weight(PushChildren(rest, w, m)) < Weight(stack)
  {
    assert stack[|rest|] == w;
    assert AllFit(a, b, rest) by { assert forall i :: 0 <= i < |rest| ==> rest[i] == stack[i]; }
    PushWindow(a, b, rest, w);
    if m.size > 0 {
      BlocksContents(a, b, w, m);
      SplitWindow(a, b, rest, w, m, multiset(Blocks(a, b, w)));
    }
  }

  /** One turn of the work-stack: pop a window, find its block, push what is left around it. */
  method SplitTop<T(==)>(a: seq<T>, b: seq<T>, b2j: map<T, seq<nat>>, stack: seq<Window>)
    returns (m: Match, queue: seq<Window>)
    requires IsIndex(b, |b|, b2j) && AllFit(a, b, stack) && stack != []
    ensures AllFit(a, b, queue)
    ensures Pending(a, b, queue) + (if m.size > 0 then multiset{m} else multiset{}) == Pending(a, b, stack)
    ensures Weight(queue) < Weight(stack)
  {
    var w := stack[|stack| - 1];
    queue := stack[..|stack| - 1];
    m := FindLongestMatch(a, b, b2j, w);
    PopWindow(a, b, stack, queue, w, m);
    if m.size > 0 {
      ghost var next := PushChildren(queue, w, m);
      if w.alo < m.a && w.blo < m.b {
        queue := queue + [Left(w, m)];
      }
      if m.a + m.size < w.ahi && m.b + m.size < w.bhi {
        queue := queue + [Right(w, m)];
      }
      assert queue == next;
    }
  }

  /** The work-stack of `matching_blocks`: every split's longest block, in visiting order. */
  method CollectBlocks<T(==)>(a: seq<T>, b: seq<T>) returns (blocks: seq<Match>)
    ensures multiset(blocks) == multiset(Blocks(a, b, Whole(a, b)))
  {
    var b2j := IndexPositions(b);
    var queue := [Whole(a, b)];
    blocks := [];
    ghost var goal := multiset(Blocks(a, b, Whole(a, b)));
    assert Pending(a, b, queue) == goal by {
      PushWindow(a, b, [], Whole(a, b));
      assert [] + [Whole(a, b)] == queue;
    }
    while queue != []
      invariant AllFit(a, b, queue)
      invariant multiset(blocks) + Pending(a, b, queue) == goal
      decreases Weight(queue)
    {
      WeightIsNat(a, b, queue);
      ghost var pending := Pending(a, b, queue);
      var m;
      m, queue := SplitTop(a, b, b2j, queue);
      if m.size > 0 {
        Regroup(multiset(blocks), multiset{}, multiset{m}, Pending(a, b, queue));
        blocks := blocks + [m];
      }
    }
  }

  // ---- merging adjacent blocks ----

  predicate Touching(x: Match, y: Match) {
    x.a + x.size == y.a && x.b + x.size == y.b
  }

  function MergeFrom(m: Match, bs: seq<Match>): (ms: seq<Match>)
    decreases |bs|
  {
    if bs == [] then [m]
    else if Touching(m, bs[0]) then MergeFrom(Match(m.a, m.b, m.size + bs[0].size), bs[1..])
    else [m] + MergeFrom(bs[0], bs[1..])
  }

  function Merge(bs: seq<Match>): seq<Match> {
    if bs == [] then [] else MergeFrom(bs[0], bs[1..])
  }

  ghost predicate NeverTouching(ms: seq<Match>) {
    forall i :: 0 < i < |ms| ==> !Touching(ms[i - 1], ms[i])
  }

  lemma TilesJoin<T>(a: seq<T>, b: seq<T>, w: Window, m: Match, n: Match, rest: seq<Match>)
    requires Fits(a, b, w) && Tiles(a, b, w, [m] + ([n] + rest)) && Touching(m, n)
    ensures Tiles(a, b, w, [Match(m.a, m.b, m.size + n.size)] + rest)
  {
    TilesCons(a, b, w, m, [n] + rest);
    TilesCons(a, b, Right(w, m), n, rest);
    CommonJoin(a, b, w, m, n);
    TilesCons(a, b, w, Match(m.a, m.b, m.size + n.size), rest);
  }

  lemma CommonJoin<T>(a: seq<T>, b: seq<T>, w: Window, m: Match, n: Match)
    requires Fits(a, b, w) && Common(a, b, w, m) && Touching(m, n)
    requires Fits(a, b, Right(w, m)) && Common(a, b, Right(w, m), n)
    ensures Common(a, b, w, Match(m.a, m.b, m.size + n.size))
  {
    var mn := Match(m.a, m.b, m.size + n.size);
    assert a[mn.a..mn.a + mn.size] == a[m.a..m.a + m.size] + a[n.a..n.a + n.size];
    assert b[mn.b..mn.b + mn.size] == b[m.b..m.b + m.size] + b[n.b..n.b + n.size];
  }

  lemma {:induction false} MergeTiles<T>(a: seq<T>, b: seq<T>, w: Window, m: Match, bs: seq<Match>)
    requires Fits(a, b, w) && Tiles(a, b, w, [m] + bs)
    ensures Tiles(a, b, w, MergeFrom(m, bs))
    decreases |bs|
  {
    if bs != [] {
      var n := bs[0];
      assert [n] + bs[1..] == bs;
      if Touching(m, n) {
        TilesJoin(a, b, w, m, n, bs[1..]);
        MergeTiles(a, b, w, Match(m.a, m.b, m.size + n.size), bs[1..]);
      } else {
        TilesCons(a, b, w, m, bs);
        MergeTiles(a, b, Right(w, m), n, bs[1..]);
        TilesCons(a, b, w, m, MergeFrom(n, bs[1..]));
      }
    }
  }

  lemma {:induction false} MergeNeverTouches(m: Match, bs: seq<Match>)
    ensures var ms := MergeFrom(m, bs);
            NeverTouching(ms) && ms != [] && ms[0].a == m.a && ms[0].b == m.b
    decreases |bs|
  {
    if bs == [] {
    } else if Touching(m, bs[0]) {
      MergeNeverTouches(Match(m.a, m.b, m.size + bs[0].size), bs[1..]);
    } else {
      MergeNeverTouches(bs[0], bs[1..]);
    }
  }

  /** Reference form of `matching_blocks`. */
  function MatchingBlocks<T(==)>(a: seq<T>, b: seq<T>): (ms: seq<Match>) {
    Merge(Blocks(a, b, Whole(a, b))) + [Match(|a|, |b|, 0)]
  }

  /** The merge loop of `matching_blocks`. */
  method MergeAdjacent(blocks: seq<Match>) returns (merged: seq<Match>)
    requires forall i :: 0 <= i < |blocks| ==> blocks[i].size > 0
    ensures merged == Merge(blocks)
  {
    merged := [];
    var i1: nat, j1: nat, k1: nat := 0, 0, 0;
    for i := 0 to |blocks|
      invariant k1 == 0 <==> i == 0
      invariant i == 0 ==> merged == []
      invariant i > 0 ==> merged + MergeFrom(Match(i1, j1, k1), blocks[i..]) == Merge(blocks)
    {
      var m := blocks[i];
      assert blocks[i..][0] == m && blocks[i..][1..] == blocks[i + 1..];
      if k1 > 0 && i1 + k1 == m.a && j1 + k1 == m.b {
        k1 := k1 + m.size;
      } else {
        if k1 > 0 {
          merged := merged + [Match(i1, j1, k1)];
        }
        i1, j1, k1 := m.a, m.b, m.size;
      }
    }
    if k1 > 0 {
      merged := merged + [Match(i1, j1, k1)];
    }
  }

  /** `matching_blocks`: work-stack, insertion sort, merge, sentinel. */
  method ComputeMatchingBlocks<T(==)>(a: seq<T>, b: seq<T>) returns (merged: seq<Match>)
    ensures merged == MatchingBlocks(a, b)
  {
    var blocks := CollectBlocks(a, b);
    blocks := SortMatches(blocks);
    ghost var bs := Blocks(a, b, Whole(a, b));
    BlocksTile(a, b, Whole(a, b));
    TilesAscend(a, b, Whole(a, b), bs);
    SortedPermutationIsUnique(bs, blocks);
    merged := MergeAdjacent(blocks);
    merged := merged + [Match(|a|, |b|, 0)];
  }

  /** The window between block i - 1 (or the start of w) and block i (or the end of w). */
  function Gap(w: Window, bs: seq<Match>, i: nat): Window
    requires i <= |bs|
  {
    var (a, b) := if i == 0 then (w.alo, w.blo) else (bs[i - 1].a + bs[i - 1].size, bs[i - 1].b + bs[i - 1].size);
    var (a', b') := if i < |bs| then (bs[i].a, bs[i].b) else (w.ahi, w.bhi);
    Window(a, a', b, b')
  }

  lemma {:induction false} TilesLeaveBareGaps<T>(a: seq<T>, b: seq<T>, w: Window, bs: seq<Match>, i: nat)
    requires Fits(a, b, w) && Tiles(a, b, w, bs) && i <= |bs|
    ensures Fits(a, b, Gap(w, bs, i)) && NoCommonLine(a, b, Gap(w, bs, i))
    decreases |bs|
  {
    if i > 0 {
      TilesLeaveBareGaps(a, b, Right(w, bs[0]), bs[1..], i - 1);
      assert Gap(Right(w, bs[0]), bs[1..], i - 1) == Gap(w, bs, i);
    }
  }

  /** Equal runs, in order and disjoint on both sides, never touching on both,
      and no gap before, between or after them holds a line of both sides. */
  ghost predicate MaximalBlocks<T>(a: seq<T>, b: seq<T>, bs: seq<Match>) {
    var w := Whole(a, b);
    && (forall i :: 0 <= i < |bs| ==> bs[i].size > 0 && Common(a, b, w, bs[i]))
    && (forall i, j :: 0 <= i < j < |bs| ==>
          bs[i].a + bs[i].size <= bs[j].a && bs[i].b + bs[i].size <= bs[j].b)
    && NeverTouching(bs)
    && (forall i :: 0 <= i <= |bs| ==> Fits(a, b, Gap(w, bs, i)) && NoCommonLine(a, b, Gap(w, bs, i)))
  }

  lemma TilesAreMaximal<T>(a: seq<T>, b: seq<T>, bs: seq<Match>)
    requires Tiles(a, b, Whole(a, b), bs) && NeverTouching(bs)
    ensures MaximalBlocks(a, b, bs)
  {
    var w := Whole(a, b);
    forall i | 0 <= i < |bs|
      ensures bs[i].size > 0 && Common(a, b, w, bs[i])
    {
      TileAt(a, b, w, bs, i);
    }
    forall i, j | 0 <= i < j < |bs|
      ensures bs[i].a + bs[i].size <= bs[j].a && bs[i].b + bs[i].size <= bs[j].b
    {
      TileBefore(a, b, w, bs, i, j);
    }
    forall i | 0 <= i <= |bs|
      ensures Fits(a, b, Gap(w, bs, i)) && NoCommonLine(a, b, Gap(w, bs, i))
    {
      TilesLeaveBareGaps(a, b, w, bs, i);
    }
  }

  /** For every two sequences, `matching_blocks` is a maximal list of blocks closed by the sentinel. */
  lemma MatchingBlocksAreMaximal<T>(a: seq<T>, b: seq<T>)
    ensures var ms := MatchingBlocks(a, b);
            var n := |ms| - 1;
            && n >= 0 && ms[n] == Match(|a|, |b|, 0)
            && Tiles(a, b, Whole(a, b), ms[..n]) && NeverTouching(ms[..n])
            && MaximalBlocks(a, b, ms[..n])
  {
    var bs := Blocks(a, b, Whole(a, b));
    var kept := Merge(bs);
    assert Tiles(a, b, Whole(a, b), kept) && NeverTouching(kept) by {
      BlocksTile(a, b, Whole(a, b));
      if bs != [] {
        assert [bs[0]] + bs[1..] == bs;
        MergeTiles(a, b, Whole(a, b), bs[0], bs[1..]);
        MergeNeverTouches(bs[0], bs[1..]);
      }
    }
    TilesAreMaximal(a, b, kept);
    assert MatchingBlocks(a, b)[..|kept|] == kept;
  }

  predicate Covers(y: Match, x: Match) {
    y.a <= x.a && x.a + x.size <= y.a + y.size && y.b <= x.b && x.b + x.size <= y.b + y.size
  }

  /** Merging loses no block: each ends up inside a merged one. */
  lemma {:induction false} MergeCovers(m: Match, bs: seq<Match>, x: Match, i: nat) returns (k: nat)
    requires if i == 0 then Covers(m, x) else i <= |bs| && bs[i - 1] == x
    ensures k < |MergeFrom(m, bs)| && Covers(MergeFrom(m, bs)[k], x)
    decreases |bs|
  {
    if bs == [] {
      k := 0;
    } else if Touching(m, bs[0]) {
      k := MergeCovers(Match(m.a, m.b, m.size + bs[0].size), bs[1..], x, if i <= 1 then 0 else i - 1);
    } else if i == 0 {
      k := 0;
    } else {
      k := MergeCovers(bs[0], bs[1..], x, i - 1);
      k := k + 1;
    }
  }

  lemma LongestIsFound<T>(a: seq<T>, b: seq<T>) returns (i: nat)
    requires Longest(a, b, Whole(a, b)).size > 0
    ensures i < |Blocks(a, b, Whole(a, b))| && Blocks(a, b, Whole(a, b))[i] == Longest(a, b, Whole(a, b))
  {
    var w := Whole(a, b);
    var m := Longest(a, b, w);
    LongestIsLongest(a, b, w);
    i := if Open(Left(w, m)) then |Blocks(a, b, Left(w, m))| else 0;
  }

  /** The longest common block of all is one of the matching blocks. */
  lemma LongestIsABlock<T>(a: seq<T>, b: seq<T>) returns (k: nat)
    requires Longest(a, b, Whole(a, b)).size > 0
    ensures k < |MatchingBlocks(a, b)| && MatchingBlocks(a, b)[k] == Longest(a, b, Whole(a, b))
  {
    var x, bs := Longest(a, b, Whole(a, b)), Blocks(a, b, Whole(a, b));
    var i := LongestIsFound(a, b);
    k := MergeCovers(bs[0], bs[1..], x, i);
    LongestIsLongest(a, b, Whole(a, b));
    BlockIsCommon(a, b, k);
  }

  /** Every block but the sentinel is a common block of the two sequences. */
  lemma BlockIsCommon<T>(a: seq<T>, b: seq<T>, i: nat)
    requires i < |MatchingBlocks(a, b)| - 1
    ensures Common(a, b, Whole(a, b), MatchingBlocks(a, b)[i])
  {
    MatchingBlocksAreMaximal(a, b);
    var ms := MatchingBlocks(a, b);
    assert ms[..|ms| - 1][i] == ms[i];
  }

  lemma SentinelIsLast<T>(a: seq<T>, b: seq<T>)
    ensures MatchingBlocks(a, b) != [] && MatchingBlocks(a, b)[|MatchingBlocks(a, b)| - 1] == Match(|a|, |b|, 0)
  {
  }
}
