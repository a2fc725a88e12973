/**
  Capping pane content to its last lines.
 */
module ContentCap {
  import opened Text

  lemma {:induction false} PartCount(s: string)
    ensures |Split(s, '\n')| == CountNewlines(s) + 1
    decreases |s|
  {
    if s != "" {
      PartCount(s[1..]);
      if s[0] == '\n' {
        assert s == "" + ['\n'] + s[1..];
        SplitAcross("", s[1..], '\n');
      } else {
        var i := FirstIndex(s[1..], '\n');
        assert FirstIndex(s, '\n') == i + 1;
        assert i < |s[1..]| ==> s[1..][i + 1..] == s[i + 2..];
      }
    }
  }

  /** The last `limit` lines; one trailing newline is not a line of its own. */
  function Capped(content: string, limit: nat): string {
    if limit < 1 || content == "" then content else
      var end := |content| - if content[|content| - 1] == '\n' then 1 else 0;
      LastLines(content[..end], limit) + content[end..]
  }

  function LastLines(body: string, limit: nat): string { Join(LastN(Split(body, '\n'), limit), '\n') }

  /** Cutting behind a newline that has limit - 1 more after it leaves exactly the last `limit` lines. */
  lemma CutLeavesLastParts(body: string, index: nat, limit: nat)
    requires index < |body| && body[index] == '\n' && limit >= 1 && CountNewlines(body[index + 1..]) == limit - 1
    ensures LastLines(body, limit) == body[index + 1..]
  {
    var a, b := body[..index], body[index + 1..];
    assert body == a + ['\n'] + b;
    SplitAcross(a, b, '\n');
    PartCount(b);
    JoinSplit(b, '\n');
    assert LastN(Split(a, '\n') + Split(b, '\n'), limit) == Split(b, '\n');
  }

  lemma WholeBodyStays(body: string, limit: nat)
    requires CountNewlines(body) < limit
    ensures LastLines(body, limit) == body
  {
    PartCount(body);
    JoinSplit(body, '\n');
  }

  lemma CountDrop(s: string, i: nat)
    requires i < |s|
    ensures CountNewlines(s[i..]) == (if s[i] == '\n' then 1 else 0) + CountNewlines(s[i + 1..])
  {
    assert s[i..][1..] == s[i + 1..];
  }

  /** The scan back from the end: where the last `limit` lines start. */
  method ScanBack(body: string, limit: nat) returns (start: nat)
    requires limit >= 1
    ensures start <= |body| && body[start..] == LastLines(body, limit)
  {
    var remaining, index := limit, |body|;
    while index > 0
      invariant 0 <= index <= |body| && 1 <= remaining && CountNewlines(body[index..]) == limit - remaining
    {
      index := index - 1;
      CountDrop(body, index);
      if body[index] == '\n' {
        remaining := remaining - 1;
        if remaining == 0 {
          CutLeavesLastParts(body, index, limit);
          return index + 1;
        }
      }
    }
    assert body[0..] == body;
    WholeBodyStays(body, limit);
    start := 0;
  }

  lemma SuffixParts(content: string, end: nat, k: nat)
    requires k <= end <= |content|
    ensures content[k..] == content[..end][k..] + content[end..]
  {
  }

  /** `cap_pane_content_lines` */
  method CapPaneContentLines(content: string, limit: nat) returns (capped: string)
    ensures capped == Capped(content, limit)
  {
    if limit < 1 || content == "" { return content; }
    var end := |content| - if content[|content| - 1] == '\n' then 1 else 0;
    var start := ScanBack(content[..end], limit);
    SuffixParts(content, end, start);
    capped := content[start..];
  }
}
