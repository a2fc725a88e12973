/**
  Rendering the emulator's rows: the view is moved tile by tile over the
  scrollback and the screen, and every kept line is emitted once.
 */
module RowRenderer {
  import opened Text

  datatype Line = Line(plain: string, formatted: string, blank: bool, wrapped: bool)

  /**
    The emulator: its lines oldest first, the last `rows` of them the screen, and the view
    offset into the scrollback.
   */
  class Screen {
    const lines: seq<Line>
    const rows: nat
    var offset: nat

    ghost predicate Valid()
      reads this
    {
      rows <= |lines| && offset <= |lines| - rows
    }

    constructor (all: seq<Line>, screenRows: nat)
      requires screenRows <= |all|
      ensures Valid() && lines == all && rows == screenRows && offset == 0
    {
      lines, rows, offset := all, screenRows, 0;
    }

    /** `set_scrollback` clamps to the scrollback's length. */
    method SetScrollback(position: nat)
      requires Valid()
      modifies this`offset
      ensures Valid() && offset == if position < |lines| - rows then position else |lines| - rows
    {
      offset := if position < |lines| - rows then position else |lines| - rows;
    }

    /** What the view shows at its offset. */
    function View(): seq<Line>
      reads this
      requires Valid()
    {
      var top := |lines| - rows - offset;
      lines[top..top + rows]
    }
  }

  /** The lines in reach: everything, or only the screen. */
  function InReach(lines: seq<Line>, rows: nat, withScrollback: bool): seq<Line>
    requires rows <= |lines|
  {
    if withScrollback then lines else lines[|lines| - rows..]
  }

  /** How many of them the budget drops from the head. */
  function Skipped(total: nat, budget: nat): nat { total - Min(Max(budget, 1), total) }

  function Trimmed(kept: seq<Line>): seq<Line> {
    if kept != [] && kept[|kept| - 1].blank then Trimmed(kept[..|kept| - 1]) else kept
  }

  /** Only trailing blank lines go, and all of them. */
  lemma {:induction false} TrimmedIsLongest(kept: seq<Line>)
    ensures var t := Trimmed(kept);
            && t <= kept && (t != [] ==> !t[|t| - 1].blank)
            && forall i :: |t| <= i < |kept| ==> kept[i].blank
    decreases |kept|
  {
    if kept != [] && kept[|kept| - 1].blank { TrimmedIsLongest(kept[..|kept| - 1]); }
  }

  function Written(kept: seq<Line>, ansi: bool, unwrapped: bool): string {
    if kept == [] then "" else
      var n := |kept| - 1;
      var line := kept[n];
      Written(kept[..n], ansi, unwrapped) + (if ansi then line.formatted else line.plain)
        + (if unwrapped && line.wrapped then "" else "\n")
  }

  /** The text of a line in the format asked for. */
  function TextOf(line: Line, ansi: bool): string { if ansi then line.formatted else line.plain }

  lemma {:induction false} WrittenIsJoined(kept: seq<Line>, ansi: bool)
    ensures Written(kept, ansi, false) == Join(Texts(kept, ansi) + [""], '\n')
    decreases |kept|
  {
    if kept == [] {
      assert Texts(kept, ansi) + [""] == [""];
    } else {
      var n := |kept| - 1;
      var texts := Texts(kept[..n], ansi);
      WrittenIsJoined(kept[..n], ansi);
      assert Texts(kept, ansi) + [""] == texts + [TextOf(kept[n], ansi), ""];
      JoinEnds(texts, TextOf(kept[n], ansi));
    }
  }

  function Texts(kept: seq<Line>, ansi: bool): (texts: seq<string>)
    ensures |texts| == |kept|
  {
    seq(|kept|, i requires 0 <= i < |kept| => TextOf(kept[i], ansi))
  }

  lemma {:induction false} JoinEnds(texts: seq<string>, last: string)
    ensures Join(texts + [last, ""], '\n') == Join(texts + [""], '\n') + last + "\n"
    decreases |texts|
  {
    if texts == [] {
      assert texts + [last, ""] == [last] + [""] && texts + [""] == [""];
      JoinCons(last, [""], '\n');
      assert last + ['\n'] + "" == "" + last + "\n";
    } else {
      JoinEnds(texts[1..], last);
      assert texts + [last, ""] == [texts[0]] + (texts[1..] + [last, ""]);
      assert texts + [""] == [texts[0]] + (texts[1..] + [""]);
      JoinCons(texts[0], texts[1..] + [last, ""], '\n');
      JoinCons(texts[0], texts[1..] + [""], '\n');
    }
  }

  /** Split at its newlines, what is written is the texts of the lines, in the format asked for, and an empty end. */
  lemma WrittenSplits(kept: seq<Line>, ansi: bool)
    requires forall i :: 0 <= i < |kept| ==> '\n' !in TextOf(kept[i], ansi)
    ensures Split(Written(kept, ansi, false), '\n') == Texts(kept, ansi) + [""]
  {
    WrittenIsJoined(kept, ansi);
    SplitJoin(Texts(kept, ansi) + [""], '\n');
  }

  /** Unwrapped, a wrapped line runs on into the next. */
  lemma UnwrappedRunsOn(kept: seq<Line>, ansi: bool, line: Line)
    ensures Written(kept + [line], ansi, true)
         == Written(kept, ansi, true) + TextOf(line, ansi) + (if line.wrapped then "" else "\n")
  {
    assert (kept + [line])[..|kept|] == kept;
  }

  /** The kept lines before trimming, tile by tile. */
  method CollectTiles(screen: Screen, scrollback: nat, skip: nat) returns (kept: seq<Line>)
    requires screen.Valid() && screen.rows > 0
    requires scrollback == |screen.lines| - screen.rows || scrollback == 0
    requires skip < scrollback + screen.rows
    modifies screen`offset
    ensures screen.Valid()
    ensures kept == screen.lines[|screen.lines| - screen.rows - scrollback..][skip..]
  {
    var total := scrollback + screen.rows;
    ghost var reach := screen.lines[|screen.lines| - total..];
    kept := [];
    var line := skip;
    while line < total
      invariant screen.Valid() && skip <= line <= total && kept == reach[skip..line]
      decreases total - line
    {
      var offset := if scrollback > line then scrollback - line else 0;
      screen.SetScrollback(offset);
      var viewTop := scrollback - offset;
      var view := screen.View();
      assert view == reach[viewTop..viewTop + screen.rows];
      kept, line := EmitTile(view, reach, kept, skip, line, viewTop, total);
    }
  }

  /** One tile: its rows from the next line on. */
  method EmitTile(
    view: seq<Line>, ghost reach: seq<Line>, before: seq<Line>, skip: nat, start: nat, viewTop: nat, total: nat)
    returns (kept: seq<Line>, line: nat)
    requires |reach| == total && skip <= start < total && before == reach[skip..start]
    requires viewTop <= start < viewTop + |view| <= total && view == reach[viewTop..viewTop + |view|]
    ensures start < line <= total && kept == reach[skip..line]
  {
    kept, line := before, start;
    for row := start - viewTop to |view|
      invariant line == viewTop + row && start <= line <= total && kept == reach[skip..line]
    {
      if line >= total { break; }
      assert view[row] == reach[line];
      kept := kept + [view[row]];
      line := line + 1;
    }
  }

  /**
    `render_rows`: every line in reach past the budget's cut, exactly once and
    in order, without trailing blank lines; the view ends where it belongs.
   */
  method RenderRows(screen: Screen, withScrollback: bool, ansi: bool, unwrapped: bool, budget: nat)
    returns (text: string, truncated: bool)
    requires screen.Valid()
    modifies screen`offset
    ensures screen.Valid()
    ensures var reach := InReach(screen.lines, screen.rows, withScrollback);
            var skip := Skipped(|reach|, budget);
            if screen.rows == 0 then text == "" && !truncated
            else
              && text == Written(Trimmed(reach[skip..]), ansi, unwrapped)
              && truncated == (skip > 0) && screen.offset == 0
  {
    if screen.rows == 0 { return "", false; }
    var scrollback := 0;
    if withScrollback {
      screen.SetScrollback(|screen.lines|);
      scrollback := screen.offset;
    }
    var total := scrollback + screen.rows;
    var keep := Min(Max(budget, 1), total);
    var skip := total - keep;
    var kept := CollectTiles(screen, scrollback, skip);
    screen.SetScrollback(0);
    kept := TrimBlank(kept);
    text := WriteLines(kept, ansi, unwrapped);
    truncated := skip > 0;
  }

  method TrimBlank(all: seq<Line>) returns (kept: seq<Line>)
    ensures kept == Trimmed(all)
  {
    kept := all;
    while kept != [] && kept[|kept| - 1].blank
      invariant Trimmed(kept) == Trimmed(all)
      decreases |kept|
    {
      kept := kept[..|kept| - 1];
    }
  }

  method WriteLines(kept: seq<Line>, ansi: bool, unwrapped: bool) returns (text: string)
    ensures text == Written(kept, ansi, unwrapped)
  {
    text := "";
    for i := 0 to |kept|
      invariant text == Written(kept[..i], ansi, unwrapped)
    {
      assert kept[..i + 1][..i] == kept[..i];
      text := text + (if ansi then kept[i].formatted else kept[i].plain)
                   + (if unwrapped && kept[i].wrapped then "" else "\n");
    }
    assert kept[..|kept|] == kept;
  }
}
