/**
  Log records and how they are built from the lines of a source
  (fzf-log.go:61-66, 101-112 and the per-source fan-out in `main`, 183-188).
  The timestamp detector (`StrToDate`, backed by `timegrinder.Extract`) is a
  parameter `toDate`: a line either yields an instant, written as an integer, or not.
 */
module LogRecords {
  import opened Wrappers
  import opened FanOut

  /** `LogRecord`: the detected instant, the rendered content, the source path and the
      zero-based index of the line the instant was found on. */
  datatype LogRecord = LogRecord(time: int, content: string, file: string, line: nat)

  /** The records the builder makes for line `i` of `file`: one exactly when the detector
      finds a timestamp on it, carrying that instant, the path, the index and no content. */
  function LineRecord(file: string, toDate: string -> Option<int>, i: nat, line: string): (rs: seq<LogRecord>)
    ensures |rs| <= 1
    ensures |rs| == 1 <==> toDate(line).Some?
    ensures forall k :: 0 <= k < |rs| ==>
              rs[k].file == file && rs[k].line == i && rs[k].content == "" && toDate(line) == Some(rs[k].time)
  {
    match toDate(line)
    case None => []
    case Some(t) => [LogRecord(t, "", file, i)]
  }

  /** The per-line closure handed to the fan-out. */
  function LineRecords(file: string, toDate: string -> Option<int>): (nat, string) -> seq<LogRecord>
  {
    (i: nat, line: string) => LineRecord(file, toDate, i, line)
  }

  /** The records of one source, in line order (the sequential reading of the fan-out). */
  function DetectedRecords(file: string, lines: seq<string>, toDate: string -> Option<int>): seq<LogRecord>
  {
    ConcatMap(lines, LineRecords(file, toDate))
  }

  /** `r` is the record for a line of `lines` on which `toDate` found `r.time`. */
  predicate FromLine(r: LogRecord, file: string, lines: seq<string>, toDate: string -> Option<int>)
  {
    && r.file == file
    && r.content == ""
    && r.line < |lines|
    && toDate(lines[r.line]) == Some(r.time)
  }

  /** `d` is a list of records of the lines of `lines` with index less than `n`, in strictly increasing line order. */
  predicate OrderedFromLines(d: seq<LogRecord>, file: string, lines: seq<string>, toDate: string -> Option<int>, n: nat)
  {
    && (forall k :: 0 <= k < |d| ==> FromLine(d[k], file, lines, toDate) && d[k].line < n)
    && (forall a, b :: 0 <= a < b < |d| ==> d[a].line < d[b].line)
  }

  /** The records of the first `n` lines come from those lines, in increasing line order. */
  lemma {:induction false} DetectedPrefix(file: string, lines: seq<string>, toDate: string -> Option<int>, n: nat)
    requires n <= |lines|
    ensures InRange(Indices(n), |lines|)
    ensures OrderedFromLines(Gather(lines, LineRecords(file, toDate), Indices(n)), file, lines, toDate, n)
  {
    if n > 0 {
      DetectedPrefix(file, lines, toDate, n - 1);
      assert Indices(n)[..n - 1] == Indices(n - 1);
      var prev := Gather(lines, LineRecords(file, toDate), Indices(n - 1));
      var d := Gather(lines, LineRecords(file, toDate), Indices(n));
      assert d == prev + LineRecords(file, toDate)(n - 1, lines[n - 1]);
      match toDate(lines[n - 1])
      case None =>
        assert d == prev;
      case Some(t) =>
        assert d == prev + [LogRecord(t, "", file, n - 1)];
        OrderedAppend(prev, LogRecord(t, "", file, n - 1), file, lines, toDate, n - 1);
    }
  }

  /** A record of line `n` appended to records of lines with smaller indices keeps the line order. */
  lemma OrderedAppend(prev: seq<LogRecord>, r: LogRecord, file: string, lines: seq<string>,
                      toDate: string -> Option<int>, n: nat)
    requires OrderedFromLines(prev, file, lines, toDate, n)
    requires FromLine(r, file, lines, toDate) && r.line == n
    ensures OrderedFromLines(prev + [r], file, lines, toDate, n + 1)
  {
    var d := prev + [r];
    forall a, b | 0 <= a < b < |d|
      ensures d[a].line < d[b].line
    {
      assert d[a] == prev[a];
    }
  }


  /** Every record of a source comes from one of its lines, and lines appear in increasing order. */
  lemma DetectedRecordsSound(file: string, lines: seq<string>, toDate: string -> Option<int>)
    ensures OrderedFromLines(DetectedRecords(file, lines, toDate), file, lines, toDate, |lines|)
  {
    DetectedPrefix(file, lines, toDate, |lines|);
  }

  /** Every line with a detected timestamp has its record. */
  lemma DetectedRecordsComplete(file: string, lines: seq<string>, toDate: string -> Option<int>, i: nat)
    requires i < |lines| && toDate(lines[i]).Some?
    ensures LogRecord(toDate(lines[i]).value, "", file, i) in DetectedRecords(file, lines, toDate)
  {
    ConcatMapMember(lines, LineRecords(file, toDate), LogRecord(toDate(lines[i]).value, "", file, i));
  }

  /** Two equal entries at different positions count twice. */
  lemma TwiceCounted<T>(s: seq<T>, a: nat, b: nat)
    requires a < b < |s| && s[a] == s[b]
    ensures multiset(s)[s[a]] >= 2
  {
    assert s == s[..b] + [s[b]] + s[b + 1..];
    assert s[a] in s[..b];
    assert multiset(s) == multiset(s[..b]) + multiset{s[b]} + multiset(s[b + 1..]);
  }

  /** In a sequence with strictly increasing lines, no record occurs twice. */
  lemma {:induction false} IncreasingLinesOnce(d: seq<LogRecord>, x: LogRecord)
    requires forall a, b :: 0 <= a < b < |d| ==> d[a].line < d[b].line
    ensures multiset(d)[x] <= 1
  {
    if d != [] {
      var n := |d| - 1;
      IncreasingLinesOnce(d[..n], x);
      assert d == d[..n] + [d[n]];
      if x == d[n] {
        assert x !in d[..n];
      }
    }
  }

  /**
    `ParseFileToLogRecords` (fzf-log.go:101-112): one record per line with a detected
    timestamp, in the order the fan-out delivers them. The record carries the line index,
    the source path, an empty content and the detected instant; no line has two records.
   */
  method ParseFileToLogRecords(file: string, lines: seq<string>, toDate: string -> Option<int>)
    returns (logs: seq<LogRecord>)
    ensures multiset(logs) == multiset(DetectedRecords(file, lines, toDate))
    ensures forall k :: 0 <= k < |logs| ==> FromLine(logs[k], file, lines, toDate)
    ensures forall i :: 0 <= i < |lines| && toDate(lines[i]).Some? ==>
              exists k :: 0 <= k < |logs| && logs[k].line == i
    ensures forall a, b :: 0 <= a < b < |logs| ==> logs[a].line != logs[b].line
  {
    ghost var order;
    logs, order := GoMap(lines, LineRecords(file, toDate));
    PermutedRecordsSound(logs, file, lines, toDate);
    PermutedRecordsComplete(logs, file, lines, toDate);
    PermutedRecordsOnce(logs, file, lines, toDate);
  }

  /** Any order of a source's records holds only records of its timestamped lines. */
  lemma PermutedRecordsSound(logs: seq<LogRecord>, file: string, lines: seq<string>, toDate: string -> Option<int>)
    requires multiset(logs) == multiset(DetectedRecords(file, lines, toDate))
    ensures forall k :: 0 <= k < |logs| ==> FromLine(logs[k], file, lines, toDate)
  {
    var d := DetectedRecords(file, lines, toDate);
    DetectedRecordsSound(file, lines, toDate);
    forall k | 0 <= k < |logs|
      ensures FromLine(logs[k], file, lines, toDate)
    {
      assert logs[k] in multiset(d);
    }
  }

  /** Any order of a source's records holds a record for every timestamped line. */
  lemma PermutedRecordsComplete(logs: seq<LogRecord>, file: string, lines: seq<string>, toDate: string -> Option<int>)
    requires multiset(logs) == multiset(DetectedRecords(file, lines, toDate))
    ensures forall i :: 0 <= i < |lines| && toDate(lines[i]).Some? ==>
              exists k :: 0 <= k < |logs| && logs[k].line == i
  {
    forall i | 0 <= i < |lines| && toDate(lines[i]).Some?
      ensures exists k :: 0 <= k < |logs| && logs[k].line == i
    {
      DetectedRecordsComplete(file, lines, toDate, i);
      var x := LogRecord(toDate(lines[i]).value, "", file, i);
      assert x in multiset(logs);
      var k :| 0 <= k < |logs| && logs[k] == x;
    }
  }

  /** In any order of a source's records, no two records share a line. */
  lemma PermutedRecordsOnce(logs: seq<LogRecord>, file: string, lines: seq<string>, toDate: string -> Option<int>)
    requires multiset(logs) == multiset(DetectedRecords(file, lines, toDate))
    ensures forall a, b :: 0 <= a < b < |logs| ==> logs[a].line != logs[b].line
  {
    var d := DetectedRecords(file, lines, toDate);
    DetectedRecordsSound(file, lines, toDate);
    forall a, b | 0 <= a < b < |logs|
      ensures logs[a].line != logs[b].line
    {
      if logs[a].line == logs[b].line {
        assert logs[a] in multiset(d) && logs[b] in multiset(d);
        assert logs[a] == logs[b];
        TwiceCounted(logs, a, b);
        IncreasingLinesOnce(d, logs[a]);
        assert false;
      }
    }
  }


  /** The lines read for `path`; a path that was never read has none. */
  function LinesOf(lineMap: map<string, seq<string>>, path: string): seq<string>
  {
    if path in lineMap then lineMap[path] else []
  }

  /** The per-source step of the fan-out in `main`: the records of one path. */
  function SourceRecords(lineMap: map<string, seq<string>>, toDate: string -> Option<int>): (nat, string) -> seq<LogRecord>
  {
    (i: nat, path: string) => DetectedRecords(path, LinesOf(lineMap, path), toDate)
  }

  /**
    The merge in `main` (fzf-log.go:183-188): the records of every source, concatenated in
    the order the fan-out delivers them. Every record names one of the sources and a line
    of that source on which a timestamp was detected.
   */
  method CollectRecords(paths: seq<string>, lineMap: map<string, seq<string>>, toDate: string -> Option<int>)
    returns (logs: seq<LogRecord>)
    ensures multiset(logs) == multiset(ConcatMap(paths, SourceRecords(lineMap, toDate)))
    ensures forall k :: 0 <= k < |logs| ==>
              logs[k].file in paths && FromLine(logs[k], logs[k].file, LinesOf(lineMap, logs[k].file), toDate)
  {
    ghost var order;
    logs, order := GoMap(paths, SourceRecords(lineMap, toDate));
    forall k | 0 <= k < |logs|
      ensures logs[k].file in paths && FromLine(logs[k], logs[k].file, LinesOf(lineMap, logs[k].file), toDate)
    {
      assert logs[k] in multiset(ConcatMap(paths, SourceRecords(lineMap, toDate)));
      MergedRecordOrigin(paths, lineMap, toDate, logs[k]);
    }
  }

  /** A record of the in-order merge names one of the paths and a timestamped line of that path. */
  lemma MergedRecordOrigin(paths: seq<string>, lineMap: map<string, seq<string>>, toDate: string -> Option<int>, x: LogRecord)
    requires x in ConcatMap(paths, SourceRecords(lineMap, toDate))
    ensures x.file in paths && FromLine(x, x.file, LinesOf(lineMap, x.file), toDate)
  {
    ConcatMapMember(paths, SourceRecords(lineMap, toDate), x);
    var i :| 0 <= i < |paths| && x in DetectedRecords(paths[i], LinesOf(lineMap, paths[i]), toDate);
    DetectedRecordsSound(paths[i], LinesOf(lineMap, paths[i]), toDate);
    var d := DetectedRecords(paths[i], LinesOf(lineMap, paths[i]), toDate);
    var j :| 0 <= j < |d| && d[j] == x;
    assert FromLine(d[j], paths[i], LinesOf(lineMap, paths[i]), toDate);
  }

}
