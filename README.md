# fzf-log, modelled in Dafny

fzf-log reads one or more log sources and detects a timestamp on each line. A line
with a timestamp becomes a *log record*: its instant, its source path and its line
index. The tool merges the records of all sources and sorts them newest first. It
then applies the optional `--after`, `--before` and `--ago` time filters, keeps at
most `--limit` records and renders each record's *content*. The content is the text
from the record's line up to the next record's line, joined by spaces, with the
first `--skip-column` fields of the first line removed. The records then go to an
interactive fuzzy finder, whose preview pane shows a taller, newline-joined range.

This project models that core (`fzf-log.go`) and proves properties of it:

- `FanOut`: the concurrent `GoMap` helper, as a collecting loop that takes the
  pending results in an order nobody controls. Its result is proved to be a
  permutation of the sequential concatenation.
- `GoStrings`: `strings.Split` and `strings.Join` for a one-character separator,
  with their round-trip laws.
- `LogRecords`: the record type, `ParseFileToLogRecords` and the merge of all
  sources in `main`.
- `Pipeline`: the sort (an in-place sort of an array), the three filters, the
  "no logs" exit, the truncation to `--limit`, and `min`.
- `Ranges`: `GetRangeLines` with its clamping, the skip-column closure, the loop
  that fills in every record's content in place, and the preview closure.
- `FzfLog`: these steps composed into the list of records the finder is given.

Instants and durations are integers. The timestamp detector, `time.ParseDuration`
and the current time are parameters (`toDate`, `parseDuration`, `now`). The lines
of every source are given as a map from path to lines (`lineMap`).

Behaviour of the code that the model makes explicit:

- A record's content range ends at the line of the next record in the global
  sorted list, whatever that record's source (fzf-log.go:234-238). In a source
  written in time order, the next record of the same source in a newest-first
  list has a smaller line index, so the range ends before the record's own line.
  `GetRangeLines` then collapses it to the single line just before that end
  (fzf-log.go:281-283). For records at lines 20, 12 and 5 of a 30-line source,
  the content windows are line 11, line 4 and line 5 (`Ranges.ContentScenario`).
- `sort.Slice` is not stable, so sorting a newest-first list again may reorder
  records of equal time. Two newest-first orders of the same records agree time
  by time (`Pipeline.SortedPermutationTimes`).
- With `--limit 0`, records that pass the filters do not lead to "no logs". The
  finder is given an empty list (`Pipeline.ZeroLimitSelectsNothing`).

## Model

| member | source | states |
|---|---|---|
| FanOut.GoMap | fzf-log.go:23-43 | Whatever order the goroutines deliver in, that order takes every input exactly once, the result is each input's results in that order with each batch kept together, and so holds every input's results exactly as often as the in-order concatenation; an empty input gives an empty result |
| FanOut.GatherPermutation | fzf-log.go:33-41 | Collecting the results in any permutation of the inputs gives the same multiset of results |
| FanOut.GatherAppend | fzf-log.go:35-41 | Appending results batch by batch: collecting over two runs of indices is collecting over each run in turn |
| FanOut.ConcatMapMember | fzf-log.go:23-43 | A value is in the merged result if and only if some input's call produced it |
| FanOut.Indices | fzf-log.go:28 | The goroutines are started for the indices 0..n-1, in order |
| GoStrings.Split | fzf-log.go:240 | `strings.Split` yields at least one piece, no piece contains the separator, and a single piece is the whole string |
| GoStrings.Join | fzf-log.go:244 | `strings.Join` gives "" for no pieces and starts with the first piece, followed by the separator when there are more; `JoinSplit`, `SplitJoin` and `JoinAppend` state how it inverts `Split` |
| GoStrings.JoinSplit | fzf-log.go:240-244 | Joining the pieces of a split with the same separator gives the string back |
| GoStrings.SplitJoin | fzf-log.go:240-244 | Separator-free pieces survive a join followed by a split |
| GoStrings.SplitWithoutSeparator | fzf-log.go:240 | A string without the separator splits into itself alone |
| GoStrings.SplitAfterPiece | fzf-log.go:240 | A separator-free piece, the separator, then `t` splits into that piece followed by the pieces of `t` |
| GoStrings.SplitAfterPieces | fzf-log.go:240-244 | The join of separator-free pieces, the separator, then `t` splits into those pieces followed by the pieces of `t` |
| GoStrings.JoinAppend | fzf-log.go:244 | Joining two non-empty lists of pieces puts exactly one separator between their joins |
| LogRecords.DetectedPrefix | fzf-log.go:103-109 | The records of the first n lines come from those lines, each carrying its timestamp, its path, an empty content and its index, in strictly increasing line order |
| LogRecords.LineRecord | fzf-log.go:103-109 | The per-line closure yields at most one record, one exactly when the detector finds a timestamp on the line, carrying that instant, the path, the line index and an empty content |
| LogRecords.DetectedRecordsSound | fzf-log.go:103-109 | Every record of a source comes from a line on which the detector found exactly the record's instant, and line indices strictly increase in input order |
| LogRecords.DetectedRecordsComplete | fzf-log.go:104-108 | Every line with a detected timestamp has its record |
| LogRecords.IncreasingLinesOnce | fzf-log.go:103-110 | No record occurs twice in a list with strictly increasing lines |
| LogRecords.ParseFileToLogRecords | fzf-log.go:101-112 | The result is a permutation of the per-line records, each from a line with that timestamp; every timestamped line has its record and no line has two |
| LogRecords.CollectRecords | fzf-log.go:183-188 | The merge holds every source's records, as often as the in-order concatenation; each names one of the paths and a timestamped line of that path's lines |
| LogRecords.MergedRecordOrigin | fzf-log.go:184-187 | Every record of the merge names one of the paths and a line of that path's lines on which the detector found the record's instant |
| Pipeline.Min | fzf-log.go:298-303 | `min` is at most each argument and equals one of them |
| Pipeline.SortByTime | fzf-log.go:191-193 | The array is rearranged in place into a newest-first permutation of its records |
| Pipeline.SortedPermutationTimes | fzf-log.go:191-193 | Two newest-first orders of the same records have the same length and list the same times position by position, so sorting again only permutes records of equal time |
| Pipeline.SortedWithout | fzf-log.go:191-193 | Removing one record from a newest-first list leaves it newest first |
| Pipeline.SubsequenceTransitive | fzf-log.go:196-223 | Filters applied one after another keep a subsequence of the input |
| Pipeline.SubsequenceSorted | fzf-log.go:190-223 | Filtering a newest-first list keeps it newest first |
| Pipeline.SubsequenceMembers | fzf-log.go:199-201 | Every record a filter keeps was in its input |
| Pipeline.Filter | fzf-log.go:199-201 | `funk.Filter` keeps the input order, keeps every accepted record as often as it occurs, and drops every refused one |
| Pipeline.AfterFilter | fzf-log.go:196-203 | The `--after` stage keeps, in order and as often as they occur, exactly the records strictly after the parsed bound, and keeps everything when the option is empty or does not parse |
| Pipeline.BeforeFilter | fzf-log.go:204-211 | The `--before` stage keeps, in order and as often as they occur, exactly the records strictly before the parsed bound, and keeps everything when the option is empty or does not parse |
| Pipeline.AgoFilter | fzf-log.go:213-223 | The `--ago` stage keeps, in order and as often as they occur, exactly the records strictly after now minus the parsed duration, and keeps everything when the option is empty or is not a valid duration |
| Pipeline.ApplyFiltersKeeps | fzf-log.go:195-223 | The three filters together keep, in order, exactly the records strictly after `--after`, strictly before `--before` and strictly after now minus `--ago`, each test applying only when its option is set and parses |
| Pipeline.ApplyFiltersPermutation | fzf-log.go:195-223 | Filtering two permutations of each other keeps the same records, as often |
| Pipeline.Truncate | fzf-log.go:230 | The truncation is a prefix of at most `limit` records, and is the whole list when it is shorter than `limit` |
| Pipeline.Finish | fzf-log.go:225-230 | "No logs" happens exactly when the filtered list is empty; otherwise the selection is its prefix of min(limit, length) records |
| Pipeline.ZeroLimitSelectsNothing | fzf-log.go:225-230 | With limit 0 and some record passing the filters, the run goes on with an empty list rather than stopping with "no logs" |
| Pipeline.FilteredEmpty | fzf-log.go:225-228 | A filtered list is empty exactly when the filter refuses every input record |
| Pipeline.PrefixOfFiltered | fzf-log.go:225-230 | The kept prefix of a filtered newest-first list is newest first, passes, comes from the input, and is at least as new as any passing record left out |
| Pipeline.SelectLogsFacts | fzf-log.go:190-230 | For any newest-first order of the input, "no logs" happens exactly when nothing passes; otherwise the result has the properties listed for `SelectLogs` |
| Pipeline.SelectLogs | fzf-log.go:190-230 | Sort, filter, exit or truncate. "No logs" happens exactly when no record passes the filters. Otherwise the list is newest first, holds min(limit, number passing) passing records of the input, and every passing record left out is at most as new as any kept one |
| Ranges.ClampRange | fzf-log.go:277-286 | With a non-negative end, the clamped window always lies within the buffer |
| Ranges.ClampRangeCases | fzf-log.go:277-286 | The end is cut to the buffer. A start not beyond it is kept, raised to 0 if negative. A start beyond it becomes the index just before the cut end (`end - 1`), or 0 |
| Ranges.GetRangeLines | fzf-log.go:276-296 | The result is "" for an empty window; otherwise it is the clamped window, with only its first line passed through `f` when one is given, joined by `sep` |
| Ranges.EmptyWindowText | fzf-log.go:287-290 | An empty window, and in particular a source with no lines, renders as "" |
| Ranges.EmptyLineText | fzf-log.go:287-294 | "" does not mean an empty window: a one-line window holding an empty line also renders as "" |
| Ranges.FirstLineOnly | fzf-log.go:291-294 | The text is the transformed first line, then every later window line unchanged, each preceded by one `sep` |
| Ranges.RangeTextSplits | fzf-log.go:287-294 | When no line contains the separator, the text splits back into the window with only its first line transformed |
| Ranges.SkipNone | fzf-log.go:240-244 | Skipping 0 columns leaves the line unchanged |
| Ranges.SkipColumnsSuffix | fzf-log.go:240-244 | With at most the skip count of fields, the result is "". For 0 < skip < fields, the line is the skipped fields, a space and the result, and the result's fields are the remaining ones; `SkipNone` covers skip = 0 |
| Ranges.SkipColumnsOfPrefix | fzf-log.go:240-244 | Skipping k space-free fields written out before a space leaves exactly the rest of the line |
| Ranges.SkipColumnsExample | fzf-log.go:240-244 | Skipping 2 columns of "host proc: message text" gives "message text" |
| Ranges.SkipColumns | fzf-log.go:240-244 | The skip-column closure only ever drops a head of the line: its result is a tail of the line. `SkipNone`, `SkipColumnsSuffix` and `SkipColumnsExample` state which tail |
| Ranges.ResolveContents | fzf-log.go:232-246 | In place, each record's content becomes the skip-column rendering of its range. The range ends at the next record's line, or one past the record's own line for the last record. Nothing else in the records changes |
| Ranges.ContentEnd | fzf-log.go:234-238 | A record's content range runs forward from its own line exactly when it is the last record or the next record of the list has a larger line index; `ContentWindow` states the window in every case |
| Ranges.ContentWindow | fzf-log.go:234-239 | The content window: the last record gets its own line. Otherwise, if the next record's line (in any source) is not a smaller index than the record's line, the window runs up to it, cut to the source. If it is smaller, the window is only the line just before it (`next - 1`), or empty when it is 0 |
| Ranges.LastContent | fzf-log.go:234-245 | The last record's content is its own line with the leading columns skipped |
| Ranges.ContentScenario | fzf-log.go:234-246 | Records at lines 20, 12 and 5 of a 30-line source get the windows line 11, line 4 and line 5 |
| Ranges.Preview | fzf-log.go:253-263 | Index -1 previews as "". Otherwise the preview is the newline-joined range, without the skip-column transform, from the record's line to the next record's line plus the pane height, or to one past its own line for the last record |
| Ranges.PreviewEnd | fzf-log.go:257-261 | The preview range ends `h` lines past the content range's end, except for the last record, where both end one past its own line |
| Ranges.PreviewWindow | fzf-log.go:257-262 | The last record previews its own line. Any other record whose line is not beyond the next record's line plus the height previews its lines up to that end, cut to the source |
| Ranges.PreviewText | fzf-log.go:262 | The preview starts with the window's first line untouched, and splits back at newlines into the window's lines |
| FzfLog.BuildSession | fzf-log.go:183-246 | The merged records of every source are sorted newest first, and the selection is exactly what filtering that order and truncating to the limit gives. "No logs" happens exactly when no merged record passes the filters. Otherwise the selection holds min(limit, passing) records, each found by the detector on a line of one of the paths and passing every filter, none older than a passing record left out. The finder gets the selection in that order, each record's content resolved against its neighbour in it |
| FzfLog.SelectionOverMerged | fzf-log.go:183-230 | The count, the origin of each record and the newest-kept property of the selection carry over from the collected records to the merge they are a permutation of |
| FzfLog.ResolveSelection | fzf-log.go:232-246 | The content loop over the selection keeps its length and changes only each record's content, to the record's resolved range |
| FzfLog.SameRecords | fzf-log.go:183-193 | Reordering the merged records does not change whether any record passes the filters |
| FzfLog.ResolvedFacts | fzf-log.go:232-246 | Filling in contents keeps the selection newest first, each record inside its source, and each passing the filters |

## Left out

- The goroutines and the channel of `GoMap` are not modelled. They are replaced by a loop that takes any pending input's results next.
- The per-source step of the merge writes `lineMap` from several goroutines at once, which is a data race. The model takes `lineMap` as given.
- LogRecords.CollectRecords: computes each source's records in input order rather than through the concurrent `ParseFileToLogRecords`. A method cannot be called from the function that `GoMap` receives, and the merged result is only promised up to permutation, so the multiset is the same.
- Reading sources (`getLines`, its fatal error on an unreadable file) is I/O. Running `--command` through bash, capturing stdin to a temporary file and the `isatty` check are I/O and process glue. These produce `lineMap` and are not modelled.
- `StrToDate` and the `timegrinder` detector are the parameter `toDate`. This includes filling in the current year when none is found. `time.ParseDuration` is the parameter `parseDuration` and `time.Now` is `now`.
- Instants and durations are integers. Time zones, monotonic readings and overflow of `time.Time` are not modelled.
- Parsing the command line is not modelled; `Options` holds the values it would produce. The temp-file options, the editor and the command list are not part of this model.
- The interactive loop is not modelled. This covers `fuzzyfinder.Find`, its fatal exit on abort, and launching the editor with `+Line`, which passes the zero-based index where editors expect a one-based line. The finder's choice and the preview width `w`, which the source also ignores, are parameters of `Preview`.
- Printing (`no files`, `no logs`, the path list, the invalid-`--ago` message) is not modelled. The "no files" exit is not modelled; the "no logs" exit is `NoLogs`.
- Pipeline.SortByTime: `sort.Slice` is Go's pattern-defeating quicksort, with a non-strict comparator (`!Before`). The model sorts by insertion and promises only a newest-first permutation. The order of records with equal times is unspecified, as in Go.
- Ranges.ResolveContents: requires `skip >= 0`. Go panics on a negative `--skip-column` only when a non-empty window reaches the closure. FzfLog.ResolveSelection runs the same loop and requires the same.
- FzfLog.ResolveSelection: requires `skip >= 0`, for the reason given for `ResolveContents`.
- Ranges.GetRangeLines: requires `end >= 0`, where Go would panic on the slice. Slices of strings are sequence values, so the aliasing of `append([]string{}, …)` is not modelled.
- Ranges.Preview: requires a non-negative range end, the same panic condition.
- FzfLog.BuildSession: requires `skipColumn >= 0`, for the reason given for `ResolveContents`. A negative limit is accepted when no record passes the filters, as Go prints "no logs" before it slices.
