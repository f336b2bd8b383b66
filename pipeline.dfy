/**
  The sort / filter / limit block of `main` (fzf-log.go:190-230): sort the merged records
  newest first, keep those strictly after `--after`, strictly before `--before` and strictly
  after `now - --ago`, stop when nothing is left, and keep the first `--limit` records.
  The current time and the parsers of `--after`/`--before` (the timestamp detector) and of
  `--ago` (`time.ParseDuration`) are parameters.
 */
module Pipeline {
  import opened Wrappers
  import opened LogRecords

  /** `min` (fzf-log.go:298-303). */
  function Min(a: int, b: int): (m: int)
    ensures m <= a && m <= b
    ensures m == a || m == b
  {
    if a < b then a else b
  }

  /** Newest first: no record is older than one after it. */
  predicate SortedDesc(s: seq<LogRecord>)
  {
    forall i, j :: 0 <= i < j < |s| ==> s[i].time >= s[j].time
  }

  method Swap(a: array<LogRecord>, i: nat, j: nat)
    requires i < a.Length && j < a.Length
    modifies a
    ensures a[i] == old(a[j]) && a[j] == old(a[i])
    ensures forall k :: 0 <= k < a.Length && k != i && k != j ==> a[k] == old(a[k])
    ensures multiset(a[..]) == old(multiset(a[..]))
  {
    a[i], a[j] := a[j], a[i];
  }

  /**
    `sort.Slice(logs, …)` with "not before" as the order (fzf-log.go:191-193): the records
    are rearranged in place into a newest-first permutation. Nothing is promised about the
    order of records with equal times; the model sorts by insertion.
   */
  method SortByTime(a: array<LogRecord>)
    modifies a
    ensures SortedDesc(a[..])
    ensures multiset(a[..]) == old(multiset(a[..]))
  {
    var i := 0;
    while i < a.Length
      invariant 0 <= i <= a.Length
      invariant forall p, q :: 0 <= p < q < i ==> a[p].time >= a[q].time
      invariant multiset(a[..]) == old(multiset(a[..]))
    {
      var j := i;
      while j > 0 && a[j - 1].time < a[j].time
        invariant 0 <= j <= i
        invariant forall p, q :: 0 <= p < q <= i && p != j && q != j ==> a[p].time >= a[q].time
        invariant forall q :: j < q <= i ==> a[j].time > a[q].time
        invariant multiset(a[..]) == old(multiset(a[..]))
      {
        Swap(a, j - 1, j);
        j := j - 1;
      }
      i := i + 1;
    }
  }

  /** Removing one record from a newest-first list leaves it newest first. */
  lemma SortedWithout(t: seq<LogRecord>, j: nat)
    requires SortedDesc(t) && j < |t|
    ensures SortedDesc(t[..j] + t[j + 1..])
  {
    var t' := t[..j] + t[j + 1..];
    forall p, q | 0 <= p < q < |t'|
      ensures t'[p].time >= t'[q].time
    {
      var p' := if p < j then p else p + 1;
      var q' := if q < j then q else q + 1;
      assert t'[p] == t[p'] && t'[q] == t[q'] && p' < q';
    }
  }

  /** Removing the same record from two permutations of each other leaves two permutations. */
  lemma PermutationWithout(s: seq<LogRecord>, t: seq<LogRecord>, j: nat)
    requires multiset(s) == multiset(t) && s != [] && j < |t| && t[j] == s[0]
    ensures multiset(s[1..]) == multiset(t[..j] + t[j + 1..])
  {
    assert s == [s[0]] + s[1..];
    assert t == t[..j] + [t[j]] + t[j + 1..];
    assert multiset(s) == multiset{s[0]} + multiset(s[1..]);
    assert multiset(t) == multiset{s[0]} + multiset(t[..j] + t[j + 1..]);
    forall y ensures multiset(s[1..])[y] == multiset(t[..j] + t[j + 1..])[y] {
      assert multiset(s)[y] == multiset(t)[y];
    }
  }

  /** If `s` agrees in times with `t` once `s[0]` is taken out of `t` at `j`, and `t` starts no
      newer than `s[0]`, then `s` and `t` agree in times throughout. */
  lemma TimesAfterRemoval(s: seq<LogRecord>, t: seq<LogRecord>, j: nat)
    requires |s| == |t| && j < |t| && s != [] && t[j] == s[0]
    requires SortedDesc(t) && t[0].time <= s[0].time
    requires var t' := t[..j] + t[j + 1..];
      forall k :: 0 <= k < |t'| ==> s[k + 1].time == t'[k].time
    ensures forall k :: 0 <= k < |s| ==> s[k].time == t[k].time
  {
    var t' := t[..j] + t[j + 1..];
    forall k | 0 <= k < |s|
      ensures s[k].time == t[k].time
    {
      if k > 0 {
        if k - 1 < j {
          assert t'[k - 1] == t[k - 1];
        } else {
          assert t'[k - 1] == t[k];
        }
      }
    }
  }

  /**
    Two newest-first arrangements of the same records list the same times, position by
    position: sorting again can only permute records of equal time.
   */
  lemma {:induction false} SortedPermutationTimes(s: seq<LogRecord>, t: seq<LogRecord>)
    requires SortedDesc(s) && SortedDesc(t) && multiset(s) == multiset(t)
    ensures |s| == |t|
    ensures forall k :: 0 <= k < |s| ==> s[k].time == t[k].time
    decreases |s|
  {
    assert |s| == |multiset(s)| == |multiset(t)| == |t|;
    if s != [] {
      assert s[0] in multiset(t);
      var j :| 0 <= j < |t| && t[j] == s[0];
      PermutationWithout(s, t, j);
      SortedWithout(t, j);
      assert SortedDesc(s[1..]);
      SortedPermutationTimes(s[1..], t[..j] + t[j + 1..]);
      assert t[0] in multiset(s);
      TimesAfterRemoval(s, t, j);
    }
  }

  /** `r` can be obtained from `s` by deleting elements. */
  predicate IsSubsequence<T(==)>(r: seq<T>, s: seq<T>)
    decreases |s|
  {
    if r == [] then true
    else if s == [] then false
    else (r[0] == s[0] && IsSubsequence(r[1..], s[1..])) || IsSubsequence(r, s[1..])
  }

  lemma {:induction false} SubsequenceReflexive<T>(s: seq<T>)
    ensures IsSubsequence(s, s)
  {
    if s != [] {
      SubsequenceReflexive(s[1..]);
    }
  }

  /** Every element of a subsequence is an element of the whole. */
  lemma {:induction false} SubsequenceMembers<T>(r: seq<T>, s: seq<T>)
    requires IsSubsequence(r, s)
    ensures forall x :: x in r ==> x in s
    decreases |s|
  {
    if r != [] {
      if r[0] == s[0] && IsSubsequence(r[1..], s[1..]) {
        SubsequenceMembers(r[1..], s[1..]);
        assert forall x :: x in r ==> x == r[0] || x in r[1..];
      } else {
        SubsequenceMembers(r, s[1..]);
      }
    }
  }

  /** A subsequence of a subsequence is a subsequence. */
  lemma {:induction false} SubsequenceTransitive<T>(a: seq<T>, b: seq<T>, c: seq<T>)
    requires IsSubsequence(a, b) && IsSubsequence(b, c)
    ensures IsSubsequence(a, c)
    decreases |c|
  {
    if a != [] {
      if IsSubsequence(b, c[1..]) {
        SubsequenceTransitive(a, b, c[1..]);
      } else if a[0] == b[0] && IsSubsequence(a[1..], b[1..]) {
        SubsequenceTransitive(a[1..], b[1..], c[1..]);
      } else {
        SubsequenceTransitive(a, b[1..], c[1..]);
      }
    }
  }

  /** Deleting records from a newest-first list leaves it newest first. */
  lemma {:induction false} SubsequenceSorted(r: seq<LogRecord>, s: seq<LogRecord>)
    requires IsSubsequence(r, s) && SortedDesc(s)
    ensures SortedDesc(r)
    decreases |s|
  {
    if r != [] {
      assert SortedDesc(s[1..]);
      if r[0] == s[0] && IsSubsequence(r[1..], s[1..]) {
        SubsequenceSorted(r[1..], s[1..]);
        SubsequenceMembers(r[1..], s[1..]);
        forall j | 0 < j < |r|
          ensures r[0].time >= r[j].time
        {
          assert r[j] in r[1..];
        }
      } else {
        SubsequenceSorted(r, s[1..]);
      }
    }
  }

  /**
    `funk.Filter(s, keep)`: the records of `s` that `keep` accepts, in their order. Each
    accepted record is kept as often as it occurs and every other record is dropped.
   */
  function Filter(s: seq<LogRecord>, keep: LogRecord -> bool): (r: seq<LogRecord>)
    ensures FilteredBy(r, s, keep)
  {
    if s == [] then []
    else if keep(s[0]) then
      assert s == [s[0]] + s[1..];
      [s[0]] + Filter(s[1..], keep)
    else
      assert s == [s[0]] + s[1..];
      Filter(s[1..], keep)
  }

  /** The value of a time option: none when the option is empty or does not parse. */
  function Bound(option: string, parse: string -> Option<int>): Option<int>
  {
    if option == "" then None else parse(option)
  }

  /** The `--after` filter (fzf-log.go:196-203). */
  function AfterFilter(logs: seq<LogRecord>, after: string, toDate: string -> Option<int>): (r: seq<LogRecord>)
    ensures IsSubsequence(r, logs)
    ensures forall x :: multiset(r)[x] ==
              if Bound(after, toDate).None? || x.time > Bound(after, toDate).value then multiset(logs)[x] else 0
  {
    match Bound(after, toDate)
    case None => SubsequenceReflexive(logs); logs
    case Some(start) => Filter(logs, (r: LogRecord) => r.time > start)
  }

  /** The `--before` filter (fzf-log.go:204-211). */
  function BeforeFilter(logs: seq<LogRecord>, before: string, toDate: string -> Option<int>): (r: seq<LogRecord>)
    ensures IsSubsequence(r, logs)
    ensures forall x :: multiset(r)[x] ==
              if Bound(before, toDate).None? || x.time < Bound(before, toDate).value then multiset(logs)[x] else 0
  {
    match Bound(before, toDate)
    case None => SubsequenceReflexive(logs); logs
    case Some(end) => Filter(logs, (r: LogRecord) => r.time < end)
  }

  /** The `--ago` filter (fzf-log.go:213-223): the cut-off is `now` minus the parsed duration. */
  function AgoFilter(logs: seq<LogRecord>, ago: string, parseDuration: string -> Option<int>, now: int): (r: seq<LogRecord>)
    ensures IsSubsequence(r, logs)
    ensures forall x :: multiset(r)[x] ==
              if Bound(ago, parseDuration).None? || x.time > now - Bound(ago, parseDuration).value
              then multiset(logs)[x] else 0
  {
    match Bound(ago, parseDuration)
    case None => SubsequenceReflexive(logs); logs
    case Some(d) => Filter(logs, (r: LogRecord) => r.time > now - d)
  }

  /** The options of the command line that the pipeline reads (fzf-log.go:45-59). */
  datatype Options = Options(before: string, after: string, skipColumn: int, ago: string, limit: int)

  /** The three filters, in the order `main` applies them. */
  function ApplyFilters(logs: seq<LogRecord>, opts: Options, toDate: string -> Option<int>,
                        parseDuration: string -> Option<int>, now: int): seq<LogRecord>
  {
    AgoFilter(BeforeFilter(AfterFilter(logs, opts.after, toDate), opts.before, toDate), opts.ago, parseDuration, now)
  }

  /** A record passes every filter whose option is given and parses. */
  predicate Kept(r: LogRecord, opts: Options, toDate: string -> Option<int>,
                 parseDuration: string -> Option<int>, now: int)
  {
    && (Bound(opts.after, toDate).Some? ==> r.time > Bound(opts.after, toDate).value)
    && (Bound(opts.before, toDate).Some? ==> r.time < Bound(opts.before, toDate).value)
    && (Bound(opts.ago, parseDuration).Some? ==> r.time > now - Bound(opts.ago, parseDuration).value)
  }

  /** A filter stage keeps the order and drops exactly the records its test refuses. */
  ghost predicate FilteredBy(r: seq<LogRecord>, s: seq<LogRecord>, keep: LogRecord -> bool)
  {
    IsSubsequence(r, s) && forall x :: multiset(r)[x] == if keep(x) then multiset(s)[x] else 0
  }

  /** The filters together keep, in order, exactly the records that pass all of them. */
  lemma ApplyFiltersKeeps(logs: seq<LogRecord>, opts: Options, toDate: string -> Option<int>,
                          parseDuration: string -> Option<int>, now: int)
    ensures FilteredBy(ApplyFilters(logs, opts, toDate, parseDuration, now), logs,
                       (x: LogRecord) => Kept(x, opts, toDate, parseDuration, now))
  {
    var s1 := AfterFilter(logs, opts.after, toDate);
    var s2 := BeforeFilter(s1, opts.before, toDate);
    var s3 := AgoFilter(s2, opts.ago, parseDuration, now);
    SubsequenceReflexive(logs);
    SubsequenceReflexive(s1);
    SubsequenceReflexive(s2);
    assert IsSubsequence(s1, logs);
    assert IsSubsequence(s2, s1);
    assert IsSubsequence(s3, s2);
    SubsequenceTransitive(s2, s1, logs);
    SubsequenceTransitive(s3, s2, logs);
  }

  /** Filters of two permutations of each other keep the same records, as often. */
  lemma ApplyFiltersPermutation(s: seq<LogRecord>, t: seq<LogRecord>, opts: Options,
                                toDate: string -> Option<int>, parseDuration: string -> Option<int>, now: int)
    requires multiset(s) == multiset(t)
    ensures multiset(ApplyFilters(s, opts, toDate, parseDuration, now))
         == multiset(ApplyFilters(t, opts, toDate, parseDuration, now))
  {
    ApplyFiltersKeeps(s, opts, toDate, parseDuration, now);
    ApplyFiltersKeeps(t, opts, toDate, parseDuration, now);
  }

  /** `logs[:min(limit, len(logs))]` (fzf-log.go:230); Go panics on a negative limit. */
  function Truncate(logs: seq<LogRecord>, limit: int): (r: seq<LogRecord>)
    requires limit >= 0
    ensures |r| <= limit && |r| <= |logs|
    ensures |r| == limit || r == logs
    ensures r == logs[..|r|]
  {
    logs[..Min(limit, |logs|)]
  }

  /** What the block hands on: nothing ("no logs") or the records to show. */
  datatype Selection = NoLogs | Selected(logs: seq<LogRecord>)

  /** The early exit on an empty list (fzf-log.go:225-228), then the truncation. */
  function Finish(filtered: seq<LogRecord>, limit: int): (out: Selection)
    requires |filtered| > 0 ==> limit >= 0
    ensures out == NoLogs <==> filtered == []
    ensures out.Selected? ==> |out.logs| == Min(limit, |filtered|) && out.logs == filtered[..|out.logs|]
  {
    if |filtered| == 0 then NoLogs else Selected(Truncate(filtered, limit))
  }

  /** A limit of 0 does not stop the run: records pass the filters, none is kept, and the
      empty list goes on to the finder instead of ending with "no logs". */
  lemma ZeroLimitSelectsNothing(filtered: seq<LogRecord>)
    requires |filtered| > 0
    ensures Finish(filtered, 0) == Selected([])
  {
  }

  /**
    The whole block: sort a copy of the merged records in place, filter, stop or truncate.
    `sorted` is the order the sort produced. The result is empty exactly when no record
    passes the filters; otherwise it is newest first, holds `min(limit, passing)` records
    that all pass, and no passing record left out is newer than one kept.
   */
  method SelectLogs(logs: seq<LogRecord>, opts: Options, toDate: string -> Option<int>,
                    parseDuration: string -> Option<int>, now: int)
    returns (out: Selection, ghost sorted: seq<LogRecord>)
    requires opts.limit >= 0 || forall x :: x in logs ==> !Kept(x, opts, toDate, parseDuration, now)
    ensures multiset(sorted) == multiset(logs) && SortedDesc(sorted)
    ensures |ApplyFilters(sorted, opts, toDate, parseDuration, now)| == 0 <==>
              forall x :: x in logs ==> !Kept(x, opts, toDate, parseDuration, now)
    ensures out == Finish(ApplyFilters(sorted, opts, toDate, parseDuration, now), opts.limit)
    ensures out == NoLogs <==> forall x :: x in logs ==> !Kept(x, opts, toDate, parseDuration, now)
    ensures out.Selected? ==>
              && SortedDesc(out.logs)
              && |out.logs| == Min(opts.limit, |ApplyFilters(logs, opts, toDate, parseDuration, now)|)
              && (forall k :: 0 <= k < |out.logs| ==>
                    out.logs[k] in logs && Kept(out.logs[k], opts, toDate, parseDuration, now))
              && (forall k, y ::
                    (0 <= k < |out.logs| && y in logs && y !in out.logs && Kept(y, opts, toDate, parseDuration, now))
                    ==> out.logs[k].time >= y.time)
  {
    var a := new LogRecord[|logs|](i requires 0 <= i < |logs| => logs[i]);
    assert a[..] == logs;
    SortByTime(a);
    sorted := a[..];
    SelectLogsFacts(logs, sorted, opts, toDate, parseDuration, now);
    var filtered := ApplyFilters(a[..], opts, toDate, parseDuration, now);
    out := Finish(filtered, opts.limit);
  }

  /** A filtered newest-first list is empty exactly when the test refuses every record. */
  lemma FilteredEmpty(logs: seq<LogRecord>, sorted: seq<LogRecord>, f: seq<LogRecord>, keep: LogRecord -> bool)
    requires multiset(sorted) == multiset(logs) && FilteredBy(f, sorted, keep)
    ensures |f| == 0 <==> forall x :: x in logs ==> !keep(x)
  {
    if |f| > 0 {
      assert f[0] in multiset(f);
      assert f[0] in multiset(logs);
    } else {
      forall x | x in logs
        ensures !keep(x)
      {
        assert multiset(f)[x] == 0;
        assert x in multiset(sorted);
      }
    }
  }

  /** The first records of a filtered newest-first list are newest first, pass the test,
      come from the input and are at least as new as every passing record left out. */
  lemma PrefixOfFiltered(logs: seq<LogRecord>, sorted: seq<LogRecord>, f: seq<LogRecord>,
                         keep: LogRecord -> bool, m: nat)
    requires multiset(sorted) == multiset(logs) && SortedDesc(sorted) && FilteredBy(f, sorted, keep)
    requires m <= |f|
    ensures SortedDesc(f[..m])
    ensures forall k :: 0 <= k < m ==> f[k] in logs && keep(f[k])
    ensures forall k, y :: (0 <= k < m && y in logs && y !in f[..m] && keep(y)) ==> f[k].time >= y.time
  {
    SubsequenceSorted(f, sorted);
    forall k | 0 <= k < m
      ensures f[k] in logs && keep(f[k])
    {
      assert f[k] in multiset(f);
      assert multiset(sorted)[f[k]] > 0;
    }
    forall k, y | 0 <= k < m && y in logs && y !in f[..m] && keep(y)
      ensures f[k].time >= y.time
    {
      assert y in multiset(sorted);
      assert y in multiset(f);
      var j :| 0 <= j < |f| && f[j] == y;
      assert j >= m;
    }
  }

  /** The facts `SelectLogs` promises, for any newest-first permutation of the input. */
  lemma SelectLogsFacts(logs: seq<LogRecord>, sorted: seq<LogRecord>, opts: Options, toDate: string -> Option<int>,
                        parseDuration: string -> Option<int>, now: int)
    requires opts.limit >= 0 || forall x :: x in logs ==> !Kept(x, opts, toDate, parseDuration, now)
    requires multiset(sorted) == multiset(logs) && SortedDesc(sorted)
    ensures |ApplyFilters(sorted, opts, toDate, parseDuration, now)| == 0 <==>
              forall x :: x in logs ==> !Kept(x, opts, toDate, parseDuration, now)
    ensures var out := Finish(ApplyFilters(sorted, opts, toDate, parseDuration, now), opts.limit);
      && (out == NoLogs <==> forall x :: x in logs ==> !Kept(x, opts, toDate, parseDuration, now))
      && (out.Selected? ==>
              && SortedDesc(out.logs)
              && |out.logs| == Min(opts.limit, |ApplyFilters(logs, opts, toDate, parseDuration, now)|)
              && (forall k :: 0 <= k < |out.logs| ==>
                    out.logs[k] in logs && Kept(out.logs[k], opts, toDate, parseDuration, now))
              && (forall k, y ::
                    (0 <= k < |out.logs| && y in logs && y !in out.logs && Kept(y, opts, toDate, parseDuration, now))
                    ==> out.logs[k].time >= y.time))
  {
    var keep := (x: LogRecord) => Kept(x, opts, toDate, parseDuration, now);
    var f := ApplyFilters(sorted, opts, toDate, parseDuration, now);
    ApplyFiltersKeeps(sorted, opts, toDate, parseDuration, now);
    FilteredEmpty(logs, sorted, f, keep);
    if |f| > 0 {
      FilteredLength(logs, sorted, opts, toDate, parseDuration, now);
      PrefixOfFiltered(logs, sorted, f, keep, Min(opts.limit, |f|));
    }
  }

  /** Filtering a permutation of the input keeps as many records as filtering the input. */
  lemma FilteredLength(logs: seq<LogRecord>, sorted: seq<LogRecord>, opts: Options, toDate: string -> Option<int>,
                       parseDuration: string -> Option<int>, now: int)
    requires multiset(sorted) == multiset(logs)
    ensures |ApplyFilters(sorted, opts, toDate, parseDuration, now)| == |ApplyFilters(logs, opts, toDate, parseDuration, now)|
  {
    var f := ApplyFilters(sorted, opts, toDate, parseDuration, now);
    var g := ApplyFilters(logs, opts, toDate, parseDuration, now);
    ApplyFiltersPermutation(sorted, logs, opts, toDate, parseDuration, now);
    assert |f| == |multiset(f)| == |multiset(g)| == |g|;
  }

}
