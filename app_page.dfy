/** Text helpers of the single-page app: the summary taken from a processed
    chapter file, and the progress log whose character-count line is
    rewritten in place. */
module AppPage {
  import opened JsString

  // ---------------------------------------------------------------------
  // fileContent.split(/\r?\n/)

  /** A line ending of `\r\n` leaves its `\r` on the piece before the `\n`. */
  function DropCR(l: string): string {
    if |l| > 0 && l[|l| - 1] == '\r' then l[..|l| - 1] else l
  }

  /** Splitting at every `\n` and at every `\r\n`: the pieces between `\n`s,
      each but the last without the `\r` that ends it. */
  function SplitLines(s: string): (r: seq<string>)
    ensures |r| == |Split(s, '\n')|
  {
    var ps := Split(s, '\n');
    seq(|ps|, k requires 0 <= k < |ps| => if k < |ps| - 1 then DropCR(ps[k]) else ps[k])
  }

  /** Lines joined with `\n` split back into the same lines, provided no line
      holds a line break and none but the last ends in `\r`. */
  lemma SplitLinesJoin(xs: seq<string>)
    requires |xs| >= 1
    requires forall k :: 0 <= k < |xs| ==> '\n' !in xs[k]
    requires forall k :: 0 <= k < |xs| - 1 ==> |xs[k]| == 0 || xs[k][|xs[k]| - 1] != '\r'
    ensures SplitLines(Join(xs, "\n")) == xs
  {
    SplitJoin(xs, '\n');
  }

  // ---------------------------------------------------------------------
  // extractSummaryFromProcessed

  /** A chapter heading: `## ` after trimming. */
  predicate IsChapterHeading(l: string) {
    StartsWith(Trim(l), "## ")
  }

  /** A card heading, where the summary ends: `### ` after trimming. */
  predicate IsCardHeading(l: string) {
    StartsWith(Trim(l), "### ")
  }

  /** A line cannot be a heading of both kinds. */
  lemma HeadingsDisjoint(l: string)
    ensures !(IsChapterHeading(l) && IsCardHeading(l))
  {
    if IsCardHeading(l) {
      var t := Trim(l);
      assert t[..4][2] == t[2] == '#';
      assert t[..3] != "## " by {
        assert t[..3][2] == '#';
      }
    }
  }

  /** The index of the first card heading, or the number of lines. */
  function FirstCardHeading(ls: seq<string>): (r: nat)
    ensures r <= |ls|
    decreases |ls|
  {
    if |ls| == 0 then 0
    else if IsCardHeading(ls[0]) then 0
    else 1 + FirstCardHeading(ls[1..])
  }

  /** The index of the first chapter heading among the first `n` lines, or -1. */
  function FirstChapterHeading(ls: seq<string>, n: nat): (r: int)
    requires n <= |ls|
    ensures -1 <= r < n
  {
    if n == 0 then -1
    else
      var h := FirstChapterHeading(ls, n - 1);
      if h >= 0 then h else if IsChapterHeading(ls[n - 1]) then n - 1 else -1
  }

  /** The first card heading is the card heading with none before it. */
  lemma {:induction false} FirstCardHeadingIs(ls: seq<string>, r: nat)
    requires r <= |ls| && (r < |ls| ==> IsCardHeading(ls[r]))
    requires forall j :: 0 <= j < r ==> !IsCardHeading(ls[j])
    ensures FirstCardHeading(ls) == r
    decreases r
  {
    if r > 0 {
      FirstCardHeadingIs(ls[1..], r - 1);
    }
  }

  /** The first chapter heading below `n` is the one with none before it. */
  lemma {:induction false} FirstChapterHeadingIs(ls: seq<string>, n: nat, h: int)
    requires n <= |ls| && -1 <= h < n
    requires h >= 0 ==> IsChapterHeading(ls[h])
    requires forall j :: 0 <= j < (if h >= 0 then h else n) ==> !IsChapterHeading(ls[j])
    ensures FirstChapterHeading(ls, n) == h
    decreases n
  {
    if n > 0 && h != n - 1 {
      FirstChapterHeadingIs(ls, n - 1, h);
    } else if n > 0 && h == n - 1 {
      FirstChapterHeadingIs(ls, n - 1, -1);
    }
  }

  /** The card-heading search finds the first card heading. */
  lemma {:induction false} FirstCardHeadingSpec(ls: seq<string>)
    ensures FirstCardHeading(ls) < |ls| ==> IsCardHeading(ls[FirstCardHeading(ls)])
    ensures forall j :: 0 <= j < FirstCardHeading(ls) ==> !IsCardHeading(ls[j])
    decreases |ls|
  {
    if |ls| > 0 && !IsCardHeading(ls[0]) {
      FirstCardHeadingSpec(ls[1..]);
      forall j | 0 <= j < FirstCardHeading(ls) ensures !IsCardHeading(ls[j]) {
        if j > 0 { assert ls[j] == ls[1..][j - 1]; }
      }
    }
  }

  /** The chapter-heading search finds the first chapter heading below `n`. */
  lemma {:induction false} FirstChapterHeadingSpec(ls: seq<string>, n: nat)
    requires n <= |ls|
    ensures FirstChapterHeading(ls, n) >= 0 ==> IsChapterHeading(ls[FirstChapterHeading(ls, n)])
    ensures forall j :: 0 <= j < (if FirstChapterHeading(ls, n) >= 0 then FirstChapterHeading(ls, n) else n) ==>
      !IsChapterHeading(ls[j])
    decreases n
  {
    if n > 0 {
      FirstChapterHeadingSpec(ls, n - 1);
    }
  }

  /** The lines at positions `a` up to `b` that are not chapter headings, in order. */
  function Body(ls: seq<string>, a: nat, b: nat): seq<string>
    requires a <= b <= |ls|
    decreases b - a
  {
    if b == a then []
    else Body(ls, a, b - 1) + (if IsChapterHeading(ls[b - 1]) then [] else [ls[b - 1]])
  }

  /** The summary's lines: those after the first chapter heading that comes
      before the first card heading, up to that card heading, chapter
      headings left out; none without such a chapter heading. */
  function SummaryLines(ls: seq<string>): seq<string> {
    var b := FirstCardHeading(ls);
    var h := FirstChapterHeading(ls, b);
    if h < 0 then [] else Body(ls, h + 1, b)
  }

  /** `extractSummaryFromProcessed(fileContent)`: the summary lines, joined
      with `\n` and trimmed. */
  method ExtractSummary(fileContent: string) returns (summary: string)
    ensures summary == Trim(Join(SummaryLines(SplitLines(fileContent)), "\n"))
    ensures FirstChapterHeading(SplitLines(fileContent), FirstCardHeading(SplitLines(fileContent))) == -1 ==> summary == ""
  {
    var lines := SplitLines(fileContent);
    var out := CollectSummary(lines);
    summary := Trim(Join(out, "\n"));
  }

  /** The loop of `extractSummaryFromProcessed`: the `inSummary` flag is set
      by a chapter heading, a card heading ends the loop. */
  method CollectSummary(lines: seq<string>) returns (out: seq<string>)
    ensures out == SummaryLines(lines)
  {
    var inSummary := false;
    out := [];
    ghost var h := -1;
    var i := 0;
    while i < |lines|
      invariant Scanned(lines, i, h, out)
      invariant inSummary <==> h >= 0
    {
      var line := lines[i];
      if IsChapterHeading(line) {
        // the chapter heading itself is skipped (`continue`)
        ScanChapterHeading(lines, i, h, out);
        if !inSummary {
          h := i;
        }
        inSummary := true;
      } else if IsCardHeading(line) {
        break;
      } else {
        ScanLine(lines, i, h, out);
        if inSummary {
          out := out + [line];
        }
      }
      i := i + 1;
    }
    ScanDone(lines, i, h, out);
  }

  /** The state of the `extractSummaryFromProcessed` loop after `i` lines:
      no card heading yet, `h` the first chapter heading (or -1), and `out`
      the non-heading lines after it. */
  ghost predicate Scanned(lines: seq<string>, i: nat, h: int, out: seq<string>) {
    i <= |lines|
    && (forall j :: 0 <= j < i ==> !IsCardHeading(lines[j]))
    && -1 <= h < i && (h >= 0 ==> IsChapterHeading(lines[h]))
    && (forall j :: 0 <= j < (if h >= 0 then h else i) ==> !IsChapterHeading(lines[j]))
    && (h >= 0 ==> out == Body(lines, h + 1, i))
    && (h < 0 ==> out == [])
  }

  lemma ScanChapterHeading(lines: seq<string>, i: nat, h: int, out: seq<string>)
    requires Scanned(lines, i, h, out) && i < |lines| && IsChapterHeading(lines[i])
    ensures Scanned(lines, i + 1, if h >= 0 then h else i, out)
  {
    HeadingsDisjoint(lines[i]);
    if h >= 0 {
      AppendEmpty(out);
      assert Body(lines, h + 1, i + 1) == out;
    }
  }

  lemma ScanLine(lines: seq<string>, i: nat, h: int, out: seq<string>)
    requires Scanned(lines, i, h, out) && i < |lines|
    requires !IsChapterHeading(lines[i]) && !IsCardHeading(lines[i])
    ensures Scanned(lines, i + 1, h, if h >= 0 then out + [lines[i]] else out)
  {
    if h >= 0 {
      assert Body(lines, h + 1, i + 1) == out + [lines[i]];
    }
  }

  lemma ScanDone(lines: seq<string>, i: nat, h: int, out: seq<string>)
    requires Scanned(lines, i, h, out) && (i < |lines| ==> IsCardHeading(lines[i]))
    ensures out == SummaryLines(lines)
  {
    FirstCardHeadingIs(lines, i);
    FirstChapterHeadingIs(lines, i, h);
  }

  lemma AppendEmpty<T>(s: seq<T>)
    ensures s + [] == s
  {
  }

  /** No line of the summary is a chapter heading, and every other line of
      the range is in it. */
  lemma {:induction false} BodySpec(ls: seq<string>, a: nat, b: nat)
    requires a <= b <= |ls|
    ensures forall x :: x in Body(ls, a, b) <==> x in ls[a..b] && !IsChapterHeading(x)
    decreases b - a
  {
    if b > a {
      BodySpec(ls, a, b - 1);
      assert ls[a..b] == ls[a..b - 1] + [ls[b - 1]];
    }
  }

  /** Every summary line is an ordinary line from between the chapter
      heading and the first card heading. */
  lemma SummaryLinesAreBody(ls: seq<string>)
    ensures forall x :: x in SummaryLines(ls) ==> x in ls && !IsChapterHeading(x) && !IsCardHeading(x)
  {
    var b := FirstCardHeading(ls);
    var h := FirstChapterHeading(ls, b);
    if h >= 0 {
      BodySpec(ls, h + 1, b);
      BeforeCard(ls, h + 1);
    }
  }

  /** The lines from `a` up to the first card heading are lines of `ls` and
      are not card headings. */
  lemma BeforeCard(ls: seq<string>, a: nat)
    requires a <= FirstCardHeading(ls)
    ensures forall x :: x in ls[a..FirstCardHeading(ls)] ==> x in ls && !IsCardHeading(x)
  {
    var b := FirstCardHeading(ls);
    FirstCardHeadingSpec(ls);
    forall x | x in ls[a..b] ensures x in ls && !IsCardHeading(x) {
      var k :| 0 <= k < b - a && ls[a..b][k] == x;
      assert ls[a + k] == x;
    }
  }

  // ---------------------------------------------------------------------
  // updateCharacterProgress

  const ProgressMarker := "Received characters:"

  /** The log line written for a message at a given time of day. */
  function LogLine(timestamp: string, message: string): string {
    "[" + timestamp + "] " + message
  }

  /** `k` is the last line holding the progress marker. */
  predicate LastProgressLine(lines: seq<string>, k: int) {
    0 <= k < |lines| && Contains(lines[k], ProgressMarker)
    && forall j :: k < j < |lines| ==> !Contains(lines[j], ProgressMarker)
  }

  /** `updateCharacterProgress(message)` on the log text: the last line with
      the marker becomes the new line, or the new line is appended. */
  method UpdateCharacterProgress(log: string, timestamp: string, message: string) returns (newLog: string)
    ensures forall k :: LastProgressLine(Split(log, '\n'), k) ==>
      newLog == Join(Split(log, '\n')[k := LogLine(timestamp, message)], "\n")
    ensures (forall j :: 0 <= j < |Split(log, '\n')| ==> !Contains(Split(log, '\n')[j], ProgressMarker)) ==>
      newLog == log + LogLine(timestamp, message) + "\n"
  {
    var lines := Split(log, '\n');
    var lastProgressIndex := -1;
    var i := |lines| - 1;
    while i >= 0
      invariant -1 <= i < |lines|
      invariant forall j :: i < j < |lines| ==> !Contains(lines[j], ProgressMarker)
      invariant lastProgressIndex == -1
      decreases i + 1
    {
      if Contains(lines[i], ProgressMarker) {
        lastProgressIndex := i;
        break;
      }
      i := i - 1;
    }
    var newLine := LogLine(timestamp, message);
    if lastProgressIndex != -1 {
      assert LastProgressLine(lines, lastProgressIndex);
      LastProgressUnique(lines, lastProgressIndex);
      newLog := Join(lines[lastProgressIndex := newLine], "\n");
    } else {
      NoProgressLine(lines);
      newLog := log + newLine + "\n";
    }
  }

  /** There is at most one last line with the marker. */
  lemma LastProgressUnique(lines: seq<string>, k: int)
    requires LastProgressLine(lines, k)
    ensures forall k' :: LastProgressLine(lines, k') ==> k' == k
  {
  }

  /** Without a line holding the marker there is no last one. */
  lemma NoProgressLine(lines: seq<string>)
    requires forall j :: 0 <= j < |lines| ==> !Contains(lines[j], ProgressMarker)
    ensures forall k :: !LastProgressLine(lines, k)
  {
  }

  /** A single-line message changes only the replaced line: splitting the new
      log gives the old lines with that one line swapped. */
  lemma ProgressReplacesOneLine(log: string, k: nat, newLine: string)
    requires k < |Split(log, '\n')| && '\n' !in newLine
    ensures Split(Join(Split(log, '\n')[k := newLine], "\n"), '\n') == Split(log, '\n')[k := newLine]
  {
    var lines := Split(log, '\n')[k := newLine];
    SplitJoin(lines, '\n');
  }

  /** Appending a single-line message adds one line after the old ones: the
      old last line gains the new text, and an empty line follows. */
  lemma ProgressAppendsLine(log: string, newLine: string)
    requires '\n' !in newLine
    ensures var old_ := Split(log, '\n');
      Split(log + newLine + "\n", '\n') == old_[..|old_| - 1] + [old_[|old_| - 1] + newLine, ""]
  {
    var ls := Split(log, '\n');
    var xs := ls[..|ls| - 1] + [ls[|ls| - 1] + newLine, ""];
    assert '\n' !in ls[|ls| - 1] + newLine;
    JoinAppend(ls, newLine);
    SplitJoin(xs, '\n');
  }

  lemma {:induction false} JoinAppend(ls: seq<string>, t: string)
    requires |ls| >= 1
    ensures Join(ls, "\n") + t + "\n" == Join(ls[..|ls| - 1] + [ls[|ls| - 1] + t, ""], "\n")
    decreases |ls|
  {
    if |ls| == 1 {
      assert ls[..0] + [ls[0] + t, ""] == [ls[0] + t, ""];
    } else {
      JoinAppend(ls[1..], t);
      var ys := ls[..|ls| - 1] + [ls[|ls| - 1] + t, ""];
      assert ys[1..] == ls[1..][..|ls| - 2] + [ls[1..][|ls| - 2] + t, ""];
      assert ys[0] == ls[0];
    }
  }
}
