/**
  The non-interactive part of `main` (fzf-log.go:183-246), composed from the pieces: merge
  the records of every source, sort, filter and limit them, then fill in each record's
  content. The sources' lines are given as `lineMap`; reading them, the temporary files,
  the option parser and the interactive loop are not part of this model.
 */
module FzfLog {
  import opened Wrappers
  import opened FanOut
  import opened LogRecords
  import opened Pipeline
  import opened Ranges

  /**
    The records the interactive finder is given. `sorted` is the newest-first order the
    sort put the merged records of every source in, and `selected` is what the filters and
    the limit keep of it. There are none exactly when no merged record passes the filters.
    Otherwise `selected` holds `min(limit, passing)` records newest first, each found on a
    line of one of the sources, each passing the filters and none older than a passing
    record left out. The finder gets them in that order, each with its content resolved
    against its neighbour in the selection.
   */
  method BuildSession(paths: seq<string>, lineMap: map<string, seq<string>>, opts: Options,
                      toDate: string -> Option<int>, parseDuration: string -> Option<int>, now: int)
    returns (out: Selection, ghost sorted: seq<LogRecord>, ghost selected: seq<LogRecord>)
    requires opts.limit >= 0 || forall x :: x in ConcatMap(paths, SourceRecords(lineMap, toDate)) ==>
                                   !Kept(x, opts, toDate, parseDuration, now)
    requires opts.skipColumn >= 0
    ensures multiset(sorted) == multiset(ConcatMap(paths, SourceRecords(lineMap, toDate))) && SortedDesc(sorted)
    ensures |ApplyFilters(sorted, opts, toDate, parseDuration, now)| == 0 <==>
              forall x :: x in ConcatMap(paths, SourceRecords(lineMap, toDate)) ==>
                !Kept(x, opts, toDate, parseDuration, now)
    ensures out == NoLogs <==> Finish(ApplyFilters(sorted, opts, toDate, parseDuration, now), opts.limit) == NoLogs
    ensures out == NoLogs <==>
              forall x :: x in ConcatMap(paths, SourceRecords(lineMap, toDate)) ==>
                !Kept(x, opts, toDate, parseDuration, now)
    ensures out.Selected? ==>
              Finish(ApplyFilters(sorted, opts, toDate, parseDuration, now), opts.limit) == Selected(selected)
    ensures out.Selected? ==>
              && |selected| == Min(opts.limit, |ApplyFilters(ConcatMap(paths, SourceRecords(lineMap, toDate)),
                                                              opts, toDate, parseDuration, now)|)
              && (forall i :: 0 <= i < |selected| ==>
                    && selected[i].file in paths
                    && FromLine(selected[i], selected[i].file, LinesOf(lineMap, selected[i].file), toDate)
                    && Kept(selected[i], opts, toDate, parseDuration, now))
              && (forall k, y ::
                    (0 <= k < |selected| && y in ConcatMap(paths, SourceRecords(lineMap, toDate))
                     && y !in selected && Kept(y, opts, toDate, parseDuration, now))
                    ==> selected[k].time >= y.time)
    ensures out.Selected? ==>
              && |out.logs| == |selected|
              && (forall i :: 0 <= i < |selected| ==>
                    out.logs[i] == selected[i].(content := ContentOf(selected, i, lineMap, opts.skipColumn)))
              && SortedDesc(out.logs)
  {
    var logs := CollectRecords(paths, lineMap, toDate);
    ghost var merged := ConcatMap(paths, SourceRecords(lineMap, toDate));
    SameRecords(logs, merged, opts, toDate, parseDuration, now);
    out, sorted := SelectLogs(logs, opts, toDate, parseDuration, now);
    selected := [];
    if out.Selected? {
      var chosen := out.logs;
      selected := chosen;
      SelectionOverMerged(paths, lineMap, logs, merged, chosen, opts, toDate, parseDuration, now);
      var resolved := ResolveSelection(chosen, lineMap, opts.skipColumn);
      ResolvedFacts(paths, lineMap, logs, chosen, resolved, opts, toDate, parseDuration, now);
      out := Selected(resolved);
    }
  }

  /**
    What `SelectLogs` promises about the collected records carries over to the merge they
    are a permutation of: the count, where each record comes from, and that no passing
    record left out is newer than a kept one.
   */
  lemma SelectionOverMerged(paths: seq<string>, lineMap: map<string, seq<string>>, logs: seq<LogRecord>,
                            merged: seq<LogRecord>, chosen: seq<LogRecord>, opts: Options,
                            toDate: string -> Option<int>, parseDuration: string -> Option<int>, now: int)
    requires multiset(logs) == multiset(merged)
    requires forall k :: 0 <= k < |logs| ==>
               logs[k].file in paths && FromLine(logs[k], logs[k].file, LinesOf(lineMap, logs[k].file), toDate)
    requires |chosen| == Min(opts.limit, |ApplyFilters(logs, opts, toDate, parseDuration, now)|)
    requires forall k :: 0 <= k < |chosen| ==> chosen[k] in logs && Kept(chosen[k], opts, toDate, parseDuration, now)
    requires forall k, y ::
               (0 <= k < |chosen| && y in logs && y !in chosen && Kept(y, opts, toDate, parseDuration, now))
               ==> chosen[k].time >= y.time
    ensures |chosen| == Min(opts.limit, |ApplyFilters(merged, opts, toDate, parseDuration, now)|)
    ensures forall i :: 0 <= i < |chosen| ==>
              && chosen[i].file in paths
              && FromLine(chosen[i], chosen[i].file, LinesOf(lineMap, chosen[i].file), toDate)
    ensures forall k, y ::
              (0 <= k < |chosen| && y in merged && y !in chosen && Kept(y, opts, toDate, parseDuration, now))
              ==> chosen[k].time >= y.time
  {
    FilteredLength(logs, merged, opts, toDate, parseDuration, now);
    forall i | 0 <= i < |chosen|
      ensures chosen[i].file in paths && FromLine(chosen[i], chosen[i].file, LinesOf(lineMap, chosen[i].file), toDate)
    {
      var k :| 0 <= k < |logs| && logs[k] == chosen[i];
    }
    forall k, y | 0 <= k < |chosen| && y in merged && y !in chosen && Kept(y, opts, toDate, parseDuration, now)
      ensures chosen[k].time >= y.time
    {
      assert y in multiset(logs);
    }
  }

  /** The content loop run over a fresh array holding the selection. */
  method ResolveSelection(chosen: seq<LogRecord>, lineMap: map<string, seq<string>>, skip: int)
    returns (resolved: seq<LogRecord>)
    requires skip >= 0
    ensures |resolved| == |chosen|
    ensures forall i :: 0 <= i < |chosen| ==> resolved[i] == chosen[i].(content := ContentOf(chosen, i, lineMap, skip))
  {
    var a := new LogRecord[|chosen|](i requires 0 <= i < |chosen| => chosen[i]);
    assert a[..] == chosen;
    ResolveContents(a, lineMap, skip);
    resolved := a[..];
  }

  /** Two permutations of each other hold a passing record alike. */
  lemma SameRecords(logs: seq<LogRecord>, merged: seq<LogRecord>, opts: Options,
                    toDate: string -> Option<int>, parseDuration: string -> Option<int>, now: int)
    requires multiset(logs) == multiset(merged)
    ensures (forall x :: x in logs ==> !Kept(x, opts, toDate, parseDuration, now))
        <==> (forall x :: x in merged ==> !Kept(x, opts, toDate, parseDuration, now))
  {
    assert forall x :: x in logs <==> x in multiset(merged);
  }

  /** Resolving contents keeps the order, the sources and the filters' verdicts of the selection. */
  lemma ResolvedFacts(paths: seq<string>, lineMap: map<string, seq<string>>, logs: seq<LogRecord>,
                      chosen: seq<LogRecord>, resolved: seq<LogRecord>, opts: Options,
                      toDate: string -> Option<int>, parseDuration: string -> Option<int>, now: int)
    requires forall k :: 0 <= k < |logs| ==>
               logs[k].file in paths && FromLine(logs[k], logs[k].file, LinesOf(lineMap, logs[k].file), toDate)
    requires SortedDesc(chosen)
    requires forall k :: 0 <= k < |chosen| ==> chosen[k] in logs && Kept(chosen[k], opts, toDate, parseDuration, now)
    requires opts.skipColumn >= 0
    requires |resolved| == |chosen|
    requires forall i :: 0 <= i < |chosen| ==> resolved[i] == chosen[i].(content := ContentOf(chosen, i, lineMap, opts.skipColumn))
    ensures SortedDesc(resolved)
    ensures forall i :: 0 <= i < |resolved| ==>
              && resolved[i].file in paths
              && resolved[i].line < |LinesOf(lineMap, resolved[i].file)|
              && Kept(resolved[i], opts, toDate, parseDuration, now)
  {
    forall i | 0 <= i < |resolved|
      ensures && resolved[i].file in paths
              && resolved[i].line < |LinesOf(lineMap, resolved[i].file)|
              && Kept(resolved[i], opts, toDate, parseDuration, now)
    {
      assert chosen[i] in logs;
      var k :| 0 <= k < |logs| && logs[k] == chosen[i];
    }
  }
}
