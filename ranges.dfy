/**
  Range resolution and rendering: `GetRangeLines` (fzf-log.go:276-296), the skip-column
  transform (fzf-log.go:239-245), the loop that fills every record's content
  (fzf-log.go:232-246) and the preview window (fzf-log.go:253-263).
 */
module Ranges {
  import opened Wrappers
  import opened GoStrings
  import opened LogRecords

  /**
    The half-open window `[lo, hi)` that `GetRangeLines` slices out of a buffer of `n`
    lines after clamping `[start, end)`: `end` is cut to `n`; a `start` beyond the cut end
    moves to the line just before it (index `end - 1`); a negative `start` moves to 0. With `end >= 0` the
    window always lies inside the buffer.
   */
  function ClampRange(n: nat, start: int, end: int): (w: (int, int))
    requires end >= 0
    ensures 0 <= w.0 <= w.1 <= n
  {
    var hi := if end > n then n else end;
    var lo := if start > hi then hi - 1 else start;
    (if lo < 0 then 0 else lo, hi)
  }

  /** The window's cases: the requested range cut to the buffer, or at most the one line
      just before the cut end when `start` lies beyond it. */
  lemma ClampRangeCases(n: nat, start: int, end: int)
    requires end >= 0
    ensures var (lo, hi) := ClampRange(n, start, end);
      && hi == (if end < n then end else n)
      && (start <= hi ==> lo == (if start < 0 then 0 else start))
      && (start > hi && hi > 0 ==> lo == hi - 1)
      && (start > hi && hi == 0 ==> lo == hi)
  {
  }

  /** The lines `GetRangeLines` copies out of `lines`. */
  function Window(lines: seq<string>, start: int, end: int): seq<string>
    requires end >= 0
  {
    var (lo, hi) := ClampRange(|lines|, start, end);
    lines[lo..hi]
  }

  /** The window with the optional transform applied to its first line only. */
  function TransformFirst(w: seq<string>, f: Option<string -> string>): (t: seq<string>)
    ensures |t| == |w|
  {
    if w == [] || f.None? then w else [f.value(w[0])] + w[1..]
  }

  /** What `GetRangeLines` returns: "" for an empty window, else the transformed window joined by `sep`. */
  function RangeText(lines: seq<string>, start: int, end: int, sep: string, f: Option<string -> string>): string
    requires end >= 0
  {
    var w := Window(lines, start, end);
    if |w| == 0 then "" else Join(TransformFirst(w, f), sep)
  }

  /**
    `GetRangeLines`: clamp the bounds, copy the window into a fresh slice, rewrite the first
    copied line with `f` when there is one, and join. Go panics on a negative `end`.
   */
  method GetRangeLines(lines: seq<string>, start: int, end: int, sep: string, f: Option<string -> string>)
    returns (r: string)
    requires end >= 0
    ensures r == RangeText(lines, start, end, sep, f)
  {
    var linesLength := |lines|;
    var lo, hi := start, end;
    if hi > linesLength {
      hi := linesLength;
    }
    if lo > hi {
      lo := hi - 1;
    }
    if lo < 0 {
      lo := 0;
    }
    assert (lo, hi) == ClampRange(|lines|, start, end);
    ghost var w := lines[lo..hi];
    var newLines := new string[hi - lo](k requires 0 <= k < hi - lo => lines[lo + k]);
    assert forall k :: 0 <= k < hi - lo ==> newLines[k] == w[k];
    assert newLines[..] == w;
    if newLines.Length == 0 {
      return "";
    }
    if f.Some? {
      newLines[0] := f.value(newLines[0]);
      assert newLines[..] == [f.value(w[0])] + w[1..];
    }
    r := Join(newLines[..], sep);
  }

  /** An empty window, and in particular a source with no lines, renders as "". */
  lemma EmptyWindowText(lines: seq<string>, start: int, end: int, sep: string, f: Option<string -> string>)
    requires end >= 0
    requires Window(lines, start, end) == [] || lines == []
    ensures RangeText(lines, start, end, sep, f) == ""
  {
  }

  /** A non-empty window can still render as "": a single empty line does. */
  lemma EmptyLineText()
    ensures Window([""], 0, 1) == [""]
    ensures RangeText([""], 0, 1, " ", None) == ""
  {
  }

  /**
    Only the first line of the window is transformed: the text is the transformed first
    line, then every further line unchanged, each after one `sep`.
   */
  lemma FirstLineOnly(lines: seq<string>, start: int, end: int, sep: string, f: Option<string -> string>)
    requires end >= 0
    requires Window(lines, start, end) != []
    ensures var w := Window(lines, start, end);
      var first := if f.Some? then f.value(w[0]) else w[0];
      && (|w| == 1 ==> RangeText(lines, start, end, sep, f) == first)
      && (|w| > 1 ==> RangeText(lines, start, end, sep, f) == first + sep + Join(w[1..], sep))
  {
    var w := Window(lines, start, end);
    var t := TransformFirst(w, f);
    if |w| > 1 {
      assert t[1..] == w[1..];
    }
  }

  /**
    The rendered text splits back, at `c`, into the window's lines with only the first one
    transformed, when no line (and no transformed first line) contains `c`.
   */
  lemma RangeTextSplits(lines: seq<string>, start: int, end: int, c: char, f: Option<string -> string>)
    requires end >= 0
    requires Window(lines, start, end) != []
    requires forall k :: 0 <= k < |TransformFirst(Window(lines, start, end), f)| ==>
               c !in TransformFirst(Window(lines, start, end), f)[k]
    ensures Split(RangeText(lines, start, end, [c], f), c) == TransformFirst(Window(lines, start, end), f)
  {
    SplitJoin(TransformFirst(Window(lines, start, end), f), c);
  }

  /** The skip-column transform of the content loop: drop the first `skip` space-separated
      fields of a line, or give "" when it has fewer than `skip` fields. */
  function SkipColumns(line: string, skip: nat): (r: string)
    ensures |r| <= |line| && r == line[|line| - |r|..]
  {
    var parts := Split(line, ' ');
    if |parts| < skip then ""
    else
      SkippedIsSuffix(line, skip);
      Join(parts[skip..], " ")
  }

  /** The fields from `skip` on, joined by spaces, are a tail of the line. */
  lemma SkippedIsSuffix(line: string, skip: nat)
    requires skip <= |Split(line, ' ')|
    ensures var r := Join(Split(line, ' ')[skip..], " ");
      |r| <= |line| && r == line[|line| - |r|..]
  {
    var parts := Split(line, ' ');
    var r := Join(parts[skip..], " ");
    JoinSplit(line, ' ');
    if skip == 0 {
      assert parts[skip..] == parts;
    } else if skip < |parts| {
      assert parts == parts[..skip] + parts[skip..];
      JoinAppend(parts[..skip], parts[skip..], " ");
      var head := Join(parts[..skip], " ") + " ";
      assert line == head + r;
      assert line[|head|..] == r;
    }
  }

  /** Skipping no column gives the line back. */
  lemma SkipNone(line: string)
    ensures SkipColumns(line, 0) == line
  {
    JoinSplit(line, ' ');
    assert Split(line, ' ')[0..] == Split(line, ' ');
  }

  /**
    With at least `skip` fields, the line is its first `skip` fields, a space and the result;
    the result's own fields are the remaining ones. With exactly `skip` fields, or fewer,
    the result is "".
   */
  lemma SkipColumnsSuffix(line: string, skip: nat)
    ensures var parts := Split(line, ' ');
      && (skip >= |parts| ==> SkipColumns(line, skip) == "")
      && (0 < skip < |parts| ==>
            && line == Join(parts[..skip], " ") + " " + SkipColumns(line, skip)
            && Split(SkipColumns(line, skip), ' ') == parts[skip..])
  {
    var parts := Split(line, ' ');
    if 0 < skip < |parts| {
      JoinSplit(line, ' ');
      assert parts == parts[..skip] + parts[skip..];
      JoinAppend(parts[..skip], parts[skip..], " ");
      SplitJoin(parts[skip..], ' ');
    }
  }

  /** Skipping `k` fields free of spaces, written out before a space, leaves the rest of the line. */
  lemma SkipColumnsOfPrefix(fields: seq<string>, rest: string)
    requires |fields| >= 1
    requires forall k :: 0 <= k < |fields| ==> ' ' !in fields[k]
    ensures SkipColumns(Join(fields, " ") + " " + rest, |fields|) == rest
  {
    SplitAfterPieces(fields, ' ', rest);
    var parts := Split(Join(fields, " ") + " " + rest, ' ');
    assert parts[|fields|..] == Split(rest, ' ');
    JoinSplit(rest, ' ');
  }

  /** A syslog-style example: skipping two fields drops the host and the process. */
  lemma SkipColumnsExample()
    ensures SkipColumns("host proc: message text", 2) == "message text"
  {
    var fields := ["host", "proc:"];
    var line := Join(fields, " ") + " " + "message text";
    assert line == "host proc: message text";
    assert forall k :: 0 <= k < |fields| ==> ' ' !in fields[k];
    SkipColumnsOfPrefix(fields, "message text");
    assert SkipColumns(line, 2) == "message text";
  }

  /** The skip-column closure as a transform for `GetRangeLines`. */
  function SkipColumnTransform(skip: nat): string -> string
  {
    line => SkipColumns(line, skip)
  }

  /** The content loop's range end: the next record's line in the sorted list, whatever
      its source, or one past the record's own line for the last record. */
  function ContentEnd(logs: seq<LogRecord>, i: nat): (end: nat)
    requires i < |logs|
    ensures end > logs[i].line <==> i + 1 == |logs| || logs[i + 1].line > logs[i].line
  {
    if i < |logs| - 1 then logs[i + 1].line else logs[i].line + 1
  }

  /** The content the loop stores for record `i`. */
  function ContentOf(logs: seq<LogRecord>, i: nat, lineMap: map<string, seq<string>>, skip: nat): string
    requires i < |logs|
  {
    RangeText(LinesOf(lineMap, logs[i].file), logs[i].line, ContentEnd(logs, i), " ", Some(SkipColumnTransform(skip)))
  }

  /**
    The content loop (fzf-log.go:232-246): every record's content is rewritten in place with
    the range from its own line to the next record's line; nothing else changes.
   */
  method ResolveContents(logs: array<LogRecord>, lineMap: map<string, seq<string>>, skip: int)
    requires skip >= 0
    modifies logs
    ensures forall i :: 0 <= i < logs.Length ==>
              logs[i] == old(logs[i]).(content := ContentOf(old(logs[..]), i, lineMap, skip))
  {
    ghost var orig := logs[..];
    var logsLength := logs.Length;
    for i := 0 to logsLength
      invariant forall k :: 0 <= k < i ==> logs[k] == orig[k].(content := ContentOf(orig, k, lineMap, skip))
      invariant forall k :: i <= k < logsLength ==> logs[k] == orig[k]
    {
      var log := logs[i];
      var end := log.line + 1;
      if i < logsLength - 1 {
        end := logs[i + 1].line;
      }
      assert log == orig[i] && end == ContentEnd(orig, i);
      var content := GetRangeLines(LinesOf(lineMap, log.file), log.line, end, " ", Some(SkipColumnTransform(skip)));
      logs[i] := log.(content := content);
    }
  }


  /**
    The window of record `i`'s content, for a record whose line is inside its source.
    The last record gets its own line. Otherwise, with `next` the following record's line
    (in any source): if `next` is not a smaller index than the record's line, the lines from
    the record's up to `next` (cut to the source); if it is smaller, only the line
    `next - 1` of the record's source, or nothing when `next` is 0.
   */
  lemma ContentWindow(logs: seq<LogRecord>, i: nat, lines: seq<string>)
    requires i < |logs| && logs[i].line < |lines|
    ensures var line := logs[i].line;
      var w := Window(lines, line, ContentEnd(logs, i));
      && (i == |logs| - 1 ==> w == [lines[line]])
      && (i < |logs| - 1 && line <= logs[i + 1].line ==>
            w == lines[line..if logs[i + 1].line < |lines| then logs[i + 1].line else |lines|])
      && (i < |logs| - 1 && line > logs[i + 1].line && logs[i + 1].line > 0 ==>
            w == [lines[logs[i + 1].line - 1]])
      && (i < |logs| - 1 && line > logs[i + 1].line == 0 ==> w == [])
  {
    ClampRangeCases(|lines|, logs[i].line, ContentEnd(logs, i));
  }

  /** The last record's content is its own line with the leading columns skipped. */
  lemma LastContent(logs: seq<LogRecord>, lineMap: map<string, seq<string>>, skip: nat)
    requires |logs| > 0
    requires logs[|logs| - 1].line < |LinesOf(lineMap, logs[|logs| - 1].file)|
    ensures var last := logs[|logs| - 1];
      ContentOf(logs, |logs| - 1, lineMap, skip) == SkipColumns(LinesOf(lineMap, last.file)[last.line], skip)
  {
    var lines := LinesOf(lineMap, logs[|logs| - 1].file);
    ContentWindow(logs, |logs| - 1, lines);
  }

  /**
    Three records of one 30-line source, at lines 20, 12 and 5 in newest-first order.
    Each range ends at the next record's line, an earlier line of the file, so the first two
    records collapse to the single line just before it (11 and 4) and only the last shows
    its own.
   */
  lemma ContentScenario(lines: seq<string>, file: string, t1: int, t2: int, t3: int)
    requires |lines| == 30
    ensures var logs := [LogRecord(t1, "", file, 20), LogRecord(t2, "", file, 12), LogRecord(t3, "", file, 5)];
      && Window(lines, 20, ContentEnd(logs, 0)) == [lines[11]]
      && Window(lines, 12, ContentEnd(logs, 1)) == [lines[4]]
      && Window(lines, 5, ContentEnd(logs, 2)) == [lines[5]]
  {
    var logs := [LogRecord(t1, "", file, 20), LogRecord(t2, "", file, 12), LogRecord(t3, "", file, 5)];
    ContentWindow(logs, 0, lines);
    ContentWindow(logs, 1, lines);
    ContentWindow(logs, 2, lines);
  }

  /** The preview range end: the next record's line plus the preview height, or one past
      the record's own line for the last record. */
  function PreviewEnd(logs: seq<LogRecord>, i: nat, h: int): (end: int)
    requires i < |logs|
    ensures i + 1 < |logs| ==> end == ContentEnd(logs, i) + h
    ensures i + 1 == |logs| ==> end == ContentEnd(logs, i)
  {
    if i + 1 < |logs| then logs[i + 1].line + h else logs[i].line + 1
  }

  /**
    The preview closure: "" for index -1, else the record's range up to `PreviewEnd`,
    joined by newlines and without the skip-column transform.
   */
  method Preview(logs: seq<LogRecord>, lineMap: map<string, seq<string>>, i: int, w: int, h: int)
    returns (r: string)
    requires -1 <= i < |logs|
    requires 0 <= i && i + 1 < |logs| ==> logs[i + 1].line + h >= 0
    ensures i == -1 ==> r == ""
    ensures i >= 0 ==> r == RangeText(LinesOf(lineMap, logs[i].file), logs[i].line, PreviewEnd(logs, i, h), "\n", None)
  {
    if i == -1 {
      return "";
    }
    var start := logs[i].line;
    var end := logs[i].line + 1;
    if i + 1 < |logs| {
      end := logs[i + 1].line + h;
    }
    r := GetRangeLines(LinesOf(lineMap, logs[i].file), start, end, "\n", None);
  }

  /**
    The preview window of record `i`, for a record whose line is inside its source: the last
    record shows its own line; any other record whose line is not beyond `next + h` shows its
    lines up to `h` lines past the next record's line, cut to the source.
   */
  lemma PreviewWindow(logs: seq<LogRecord>, i: nat, h: int, lines: seq<string>)
    requires i < |logs| && logs[i].line < |lines|
    requires i + 1 < |logs| ==> logs[i + 1].line + h >= 0
    ensures var line := logs[i].line;
      var end := PreviewEnd(logs, i, h);
      && (i + 1 == |logs| ==> Window(lines, line, end) == [lines[line]])
      && (i + 1 < |logs| && line <= logs[i + 1].line + h ==>
            Window(lines, line, end) == lines[line..if end < |lines| then end else |lines|])
  {
    ClampRangeCases(|lines|, logs[i].line, PreviewEnd(logs, i, h));
  }

  /**
    The preview of a record whose window is not empty starts with the record's first window
    line untouched (no column is skipped), and splits back into the window's lines when
    none of them contains a newline.
   */
  lemma PreviewText(lines: seq<string>, start: int, end: int)
    requires end >= 0
    requires Window(lines, start, end) != []
    requires forall k :: 0 <= k < |Window(lines, start, end)| ==> '\n' !in Window(lines, start, end)[k]
    ensures var w := Window(lines, start, end);
      && w[0] <= RangeText(lines, start, end, "\n", None)
      && Split(RangeText(lines, start, end, "\n", None), '\n') == w
  {
    FirstLineOnly(lines, start, end, "\n", None);
    RangeTextSplits(lines, start, end, '\n', None);
  }
}
