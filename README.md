# Lobster monitoring core in Dafny

This project models the arithmetic and bookkeeping behind Lobster's
monitoring reports, and the scheduler that refreshes them. Lobster runs CMSSW
jobs on a Work Queue cluster. The models cover:

- `reduce`: down-sampling a gauge time series before plotting (`Decimation`, reduce.dfy).
- `split_by_column`: grouping records by an integer column, optionally
  folding rare groups into "Other" (`Grouping`, grouping.dfy).
- `Plotter.readlog`: reading the work queue's statistics log. The header
  becomes a column dictionary, times are converted to seconds, cumulative
  counters become per-row differences, and the rows are cut to the report
  window, which the primary log fills in when it is unset (`SampleLog`,
  samplelog.dfy).
- The CPU-time attribution loop of `make_plots`. It spreads each successful
  job's CPU seconds over the histogram buckets its processing interval
  overlaps, and its diagnostic reports jobs whose reconstruction is more
  than 10% off (`Attribution`, attribution.dfy).
- The plotted curves: jobits remaining, wall time per bucket, and the
  CPU/wall ratios, both per bucket and cumulative (`Curves`, curves.dfy).
- `savelogs`: picking sample failed jobs per exit code, listing their
  unpacked logs, and padding each table (`SampleLogs`, savelogs.dfy).
- `make_pie`: clamping slice values and choosing between a legend and
  in-place labels (`Pie`, pie.dfy).
- The display name of a foreman log in `make_foreman_plots` (`Foreman`, foreman.dfy).
- `Actions` in lobster/actions.py: the 15-minute refresh (`take`), the
  plotting process's loop (`plotf`), the DummyQueue used when no plot
  directory is configured, and shutdown (`__del__`) (`Refresh`, refresh.dfy).

Python exceptions are values: `Result<T>` is `Ok(value)` or `Err(PyError)`.
Times and metric values are real numbers. The `take` clock is an integer
count of microseconds.

Loops that update state are Dafny methods proved against specification
functions. For example, `SampleLogs.SaveLogs` returns exactly
`SaveLogsSpec`, and `Attribution.AttributeCpu` fills its buckets to
`Attributed`. The properties are proved about those functions. The file
system, the unpacking pool and `make_plots` are oracles given as function
parameters: does a job's failed directory exist, does a log exist, does
unpacking succeed, does a render raise.

Three behaviours of the code are easy to miss:

- `split_by_column` with threshold 1.0 and at least two groups keeps no
  group. Unpacking the empty `zip` then raises ValueError
  (`Grouping.FoldAtOneRaises`).
- `readlog` clamps only the worker-turnover differences at 0. Its timing
  differences are not clamped. Row 0 is compared with the last row, because
  `np.roll` wraps around (`SampleLog.TimingColumns`,
  `SampleLog.MinutesDeltasTelescope`).
- A sampled failed job whose directory is missing makes `glob(...)[0]`
  raise IndexError. The job is not skipped (`SampleLogs.SaveLogs`).

## Model

| member | source | states |
|---|---|---|
| Decimation.ScanTracksLastKept | lobster/cmssw/plotting.py:40-47 | during the scan, `last` always holds the value of the last kept row, and row 0 is kept |
| Decimation.KeepMaskEnds | lobster/cmssw/plotting.py:41-42 | the mask covers every row and always keeps the first and the last row |
| Decimation.KeepMaskRule | lobster/cmssw/plotting.py:42-47 | an interior row is kept iff it, or the next row, exceeds the last kept value by more than `interval` |
| Decimation.ScanMask | lobster/cmssw/plotting.py:41-47 | the in-place loop over the boolean array produces exactly the specified mask |
| Decimation.ColumnIndex | lobster/cmssw/plotting.py:39 | a numpy column index within `-width .. width - 1` names a column: itself when non-negative, counted from the end when negative (`-1` is the last column) |
| Decimation.Reduce | lobster/cmssw/plotting.py:38-49 | IndexError iff the array is empty or `idx` lies outside `-width .. width - 1`; otherwise the rows that the mask of the column `idx` names selects |
| Decimation.ReducedRows | lobster/cmssw/plotting.py:49 | the result starts with the first row, ends with the last row, and lists the kept input rows in order |
| Grouping.Insert | lobster/cmssw/plotting.py:55 | inserting into an ascending list of distinct values keeps it ascending and adds exactly v |
| Grouping.Unique | lobster/cmssw/plotting.py:55 | `np.unique`: strictly ascending, holding exactly the values of the input |
| Grouping.RowsWith | lobster/cmssw/plotting.py:56 | `a[a[col] == v]` holds only rows with value v, and is non-empty iff v occurs |
| Grouping.RowsWithSelect | lobster/cmssw/plotting.py:56 | `a[a[col] == v]` is numpy's selection of `a` under the mask `a[col] == v` |
| Grouping.RowsWithOrder | lobster/cmssw/plotting.py:56 | the group is the rows of `a` at strictly increasing positions, and a position is among them iff its row holds v: complete and in input order |
| Grouping.Split | lobster/cmssw/plotting.py:55-56 | one group per distinct value, values ascending, each holding exactly that value's rows |
| Grouping.SplitPartition | lobster/cmssw/plotting.py:55-56 | the groups together hold every row exactly once (as multisets) |
| Grouping.SplitGroupOrder | lobster/cmssw/plotting.py:55-56 | each group of the split holds every row with its value and no other row, in input order |
| Grouping.KeptEmptyIff | lobster/cmssw/plotting.py:62 | no group is kept iff every group is below the threshold |
| Grouping.DroppedEmptyIff | lobster/cmssw/plotting.py:61 | `others` is empty iff every group is at or above the threshold |
| Grouping.KeptFrequent | lobster/cmssw/plotting.py:62 | every kept group is a group at or above the threshold |
| Grouping.FrequentKept | lobster/cmssw/plotting.py:62 | every group at or above the threshold is kept |
| Grouping.KeptAscending | lobster/cmssw/plotting.py:62 | the kept groups keep their values strictly ascending |
| Grouping.KeptDroppedPartition | lobster/cmssw/plotting.py:61-62 | kept and dropped groups together hold exactly the rows of all groups |
| Grouping.FoldRaisesIff | lobster/cmssw/plotting.py:62 | with a threshold, ValueError iff no group reaches it |
| Grouping.FoldedCodes | lobster/cmssw/plotting.py:62-65 | every value-labelled folded entry is a group at or above the threshold |
| Grouping.FoldedHasFrequent | lobster/cmssw/plotting.py:62-65 | every group at or above the threshold appears among the folded entries, with its label |
| Grouping.FoldedAscending | lobster/cmssw/plotting.py:62-65 | value-labelled entries come first, ascending, and "Other" can only be last |
| Grouping.FoldedOther | lobster/cmssw/plotting.py:63-65 | the last entry is "Other" iff some group was below the threshold |
| Grouping.FoldKeepsFrequentGroups | lobster/cmssw/plotting.py:59-66 | `split_by_column` with a threshold keeps exactly the frequent groups in order and appends "Other" iff something was folded |
| Grouping.FoldedRows | lobster/cmssw/plotting.py:61-65 | the folded entries hold exactly the rows of the groups |
| Grouping.DroppedInOrder | lobster/cmssw/plotting.py:60 | the groups moved to `others` are exactly the groups below the threshold, kept in ascending key order |
| Grouping.FoldedOtherRows | lobster/cmssw/plotting.py:62-64 | when some group was dropped, "Other" holds the dropped groups' rows one group after another, in that order, each group's rows in input order |
| Grouping.FoldPreservesRows | lobster/cmssw/plotting.py:51-67 | whatever the threshold, a successful split holds every input row exactly once |
| Grouping.SmallGroups | lobster/cmssw/plotting.py:61 | with two non-empty groups, no group holds a fraction at or above a threshold of 1 or more |
| Grouping.FoldAtOneRaises | lobster/cmssw/plotting.py:59-62 | threshold 1.0 or higher with two distinct values raises rather than folding into "Other" |
| SampleLog.Headers | lobster/cmssw/plotting.py:287 | the header dictionary maps exactly the header names, each to its last position |
| SampleLog.HeadersInjective | lobster/cmssw/plotting.py:287 | distinct names get distinct columns |
| SampleLog.NormaliseShape | lobster/cmssw/plotting.py:293-309 | the rewrites keep the number of columns and of rows |
| SampleLog.UpdateElsewhere | lobster/cmssw/plotting.py:295-309 | rewriting a named column leaves every other column unchanged |
| SampleLog.TimingsLeave | lobster/cmssw/plotting.py:298-309 | the timing rewrites touch only the timing columns the header names |
| SampleLog.TurnoverOut | lobster/cmssw/plotting.py:295-296 | after all rewrites, the joined and removed columns are their clamped differences |
| SampleLog.TurnoverColumns | lobster/cmssw/plotting.py:295-296 | the worker turnover columns become `max(0, cur - prev)` of the logged counters and have no negative entry |
| SampleLog.ClampedNonNegative | lobster/cmssw/plotting.py:295 | `np.maximum(..., 0)` leaves no negative entry |
| SampleLog.TimingsSendReceive | lobster/cmssw/plotting.py:306-309 | after the timing rewrites, send and receive time are the minute differences of the columns before them |
| SampleLog.TimingsCreateReturn | lobster/cmssw/plotting.py:298-304 | create and return time become minute differences when the header names the create time; otherwise the return column is untouched |
| SampleLog.TimingColumns | lobster/cmssw/plotting.py:290-309 | after all rewrites, send, receive (and, with `total_create_time`, create and return) time are the unclamped differences against `np.roll` of the logged column over 60e6; without it the return column is as logged |
| SampleLog.MinutesDeltasTelescope | lobster/cmssw/plotting.py:306-309 | from row 1 on, the timing deltas add up to the counter's growth in minutes; row 0 holds the wrap-around difference |
| SampleLog.WindowRows | lobster/cmssw/plotting.py:320 | the result is exactly the rows inside the window, each once, in order |
| SampleLog.ApplyColumn | lobster/cmssw/plotting.py:301-302 | the in-place column rewrite changes exactly that column, as Apply |
| SampleLog.UpdateColumn | lobster/cmssw/plotting.py:295-309 | in place: KeyError for an unknown name, IndexError past the last column, otherwise as Update |
| SampleLog.TurnoverInPlace | lobster/cmssw/plotting.py:295-296 | the turnover rewrites in place, as Turnover |
| SampleLog.TimingsInPlace | lobster/cmssw/plotting.py:298-309 | the timing rewrites in place, with create and return time only when the header names the create time |
| SampleLog.CountersInPlace | lobster/cmssw/plotting.py:295-309 | all counter rewrites in place, as Counters |
| SampleLog.NormaliseInPlace | lobster/cmssw/plotting.py:290-309 | IndexError without a time column; otherwise time to seconds, then the counters, in place |
| SampleLog.Plotter.ReadLog | lobster/cmssw/plotting.py:280-320 | IndexError, with nothing changed, for a log `np.loadtxt` squeezes (at most one data row or one column); otherwise as ReadTable: the errors of the rewrites, or the header dictionary and the rows in the window |
| SampleLog.Plotter.ReadTable | lobster/cmssw/plotting.py:290-320 | the errors the rewrites raise, or: the columns rewritten in place, the primary log recording the run bounds and filling unset window bounds, and the header dictionary with the rows inside the window |
| SampleLog.Plotter.RecordRun | lobster/cmssw/plotting.py:311-318 | the run bounds become the first and last time; an unset window bound (None or 0) takes them |
| Attribution.Overlap | lobster/cmssw/plotting.py:737-748 | the clipped overlap of the interval with a bucket is never negative |
| Attribution.FragmentIsOverlap | lobster/cmssw/plotting.py:737-748 | for start <= end, the four-way case analysis computes exactly the overlap with the bucket |
| Attribution.OverlapSplit | lobster/cmssw/plotting.py:736-748 | the overlaps with two adjacent buckets add up to the overlap with their union |
| Attribution.WallScaled | lobster/cmssw/plotting.py:735-748 | `wall` is the total credited length times `ratio` |
| Attribution.LengthsTotal | lobster/cmssw/plotting.py:736-748 | the credited lengths add up to the part of the processing interval between the first and the last edge |
| Attribution.InsideLength | lobster/cmssw/plotting.py:736-748 | a job within the edges is credited its whole processing interval |
| Attribution.OutsideLength | lobster/cmssw/plotting.py:736-748 | a job processing only outside the edges is credited nothing |
| Attribution.FullCredit | lobster/cmssw/plotting.py:734-748 | crediting the whole interval at `ratio` gives back exactly the CPU time |
| Attribution.NoCredit | lobster/cmssw/plotting.py:734-748 | crediting no length gives `wall` 0 |
| Attribution.InsideWall | lobster/cmssw/plotting.py:727-748 | a job within the edges is attributed exactly its CPU time |
| Attribution.OutsideWall | lobster/cmssw/plotting.py:727-748 | a job outside the edges is attributed nothing |
| Attribution.DeviationTest | lobster/cmssw/plotting.py:749 | `abs(wall - cpu)/cpu > 0.1` iff cpu > 0 and the absolute deviation exceeds cpu/10 |
| Attribution.InsideConserves | lobster/cmssw/plotting.py:749 | a job within the edges is never flagged by the diagnostic |
| Attribution.OutsideFlags | lobster/cmssw/plotting.py:749-750 | a job with CPU time that processed only outside the edges is always flagged |
| Attribution.StragglerFlags | lobster/cmssw/plotting.py:734-750 | edges [0, 10] and a 1 s job over [5, 20]: `wall` is 1/3 and the job is flagged |
| Attribution.AttributedTotal | lobster/cmssw/plotting.py:725-748 | the buckets together hold exactly the sum of the jobs' `wall` values |
| Attribution.AttributedConserves | lobster/cmssw/plotting.py:725-748 | when every job lies within the edges, the buckets hold the total CPU time of the jobs not skipped |
| Attribution.CreditedConserves | lobster/cmssw/plotting.py:727-748 | for jobs within the edges, the `wall` values add up to their CPU time |
| Attribution.AttributeJob | lobster/cmssw/plotting.py:734-748 | one job's bucket loop adds its shares to `cputime` in place and returns their sum as `wall` |
| Attribution.AddShares | lobster/cmssw/plotting.py:735-748 | the loop over buckets adds length × ratio to each bucket, and `wall` is the sum of the shares |
| Attribution.BucketShare | lobster/cmssw/plotting.py:737-748 | one bucket's share is the case analysis's length times the ratio |
| Attribution.FlagTest | lobster/cmssw/plotting.py:749 | the loop's test on `wall` is the diagnostic predicate |
| Attribution.TakeJob | lobster/cmssw/plotting.py:731-749 | a skipped job changes nothing; otherwise its shares are added and the test reports exactly the flagged jobs |
| Attribution.AttributeCpuAsWritten | lobster/cmssw/plotting.py:725-750 | AttributeError iff some job is flagged; otherwise the buckets the jobs filled |
| Attribution.AttributeCpu | lobster/cmssw/plotting.py:725-750 | the buckets the jobs filled, and exactly the flagged job positions, in ascending order |
| Curves.CumSum | lobster/cmssw/plotting.py:683 | `np.cumsum` has one running total per entry |
| Curves.CumSumAt | lobster/cmssw/plotting.py:683 | entry k is the sum of the first k + 1 entries |
| Curves.CumSumStep | lobster/cmssw/plotting.py:683 | each running total is the previous one plus the entry |
| Curves.CumSumMonotone | lobster/cmssw/plotting.py:766 | running totals of non-negative entries never fall; of positive entries they are positive and rise |
| Curves.Remaining | lobster/cmssw/plotting.py:683-687 | one remaining-jobits point per histogram bucket |
| Curves.RemainingNonIncreasing | lobster/cmssw/plotting.py:683-687 | the remaining curve never rises, never exceeds the starting jobits, and ends at start minus all completions |
| Curves.ScaledMeanBounds | lobster/cmssw/plotting.py:721 | a mean of values in [lo, hi] times a positive width lies in [lo, hi] times the width |
| Curves.BucketSamples | lobster/cmssw/plotting.py:718-720 | the averaged values lie in the samples' range, and are present iff some sample falls in the bucket |
| Curves.IntegrateWallBounds | lobster/cmssw/plotting.py:717-722 | a bucket's wall time lies in [lo, hi] times its width when it has samples, and is 0 otherwise |
| Curves.AdjustedWallPositive | lobster/cmssw/plotting.py:755 | after `walltime[walltime == 0] = 1e-6` no bucket's wall time is zero, and non-negative ones become positive |
| Curves.Ratios | lobster/cmssw/plotting.py:754-757 | one CPU/wall ratio per bucket |
| Curves.RatiosMeaning | lobster/cmssw/plotting.py:754-757 | a bucket without wall time has ratio 0; any other bucket's ratio times its wall time is its CPU time |
| Curves.CumWallPositive | lobster/cmssw/plotting.py:755 | with non-negative wall times every running wall total is positive |
| Curves.Integrated | lobster/cmssw/plotting.py:766 | one integrated ratio per bucket |
| Curves.IntegratedDefined | lobster/cmssw/plotting.py:766 | the running wall total is positive and rising, and the integrated ratio times it is the running CPU total |
| SampleLogs.Stripped | lobster/cmssw/plotting.py:368 | `l[:-3]` drops exactly three characters |
| SampleLogs.StrippedSources | lobster/cmssw/plotting.py:366-370 | the unpacked names are `cmssw.log` and `job.log` |
| SampleLogs.LogNamesHas | lobster/cmssw/plotting.py:366-370 | a job lists a log name iff that log is present, and lists nothing else |
| SampleLogs.RemoveLogName | lobster/cmssw/plotting.py:374 | removing a listed log name leaves exactly the other listed name |
| SampleLogs.SliceStart | lobster/cmssw/plotting.py:356 | the start of `jobs[-samples:]` lies within the list |
| SampleLogs.LastJobsSize | lobster/cmssw/plotting.py:356 | the sample is the last `samples` jobs, all jobs when there are fewer, and all jobs for `samples == 0` |
| SampleLogs.SampleOfJobs | lobster/cmssw/plotting.py:356 | sampled jobs are jobs of the group, and keep distinct ids |
| SampleLogs.IdsSize | lobster/cmssw/plotting.py:357 | with distinct ids the job table has one key per sampled job |
| SampleLogs.CollectedLists | lobster/cmssw/plotting.py:356-370 | every sampled job is a key of the table, listing the logs found for it |
| SampleLogs.NoneMissing | lobster/cmssw/plotting.py:359 | when every sampled job of every group has a directory, no IndexError is due |
| SampleLogs.ListLogs | lobster/cmssw/plotting.py:365-371 | the loop over the two sources lists the found logs and queues a work item for each |
| SampleLogs.CollectGroup | lobster/cmssw/plotting.py:353-371 | one exit code's sampling loop: IndexError at a sampled job without a directory, otherwise the code's entry |
| SampleLogs.CollectGroups | lobster/cmssw/plotting.py:352-371 | the loop over groups: IndexError iff some sampled job has no directory; otherwise every group's entry |
| SampleLogs.CollectSamples | lobster/cmssw/plotting.py:352-371 | IndexError iff some sampled job lacks a directory; otherwise `codes` is exactly Sampled |
| SampleLogs.SampledFound | lobster/cmssw/plotting.py:352-371 | each code's table holds exactly its sampled ids, each listing the logs found |
| SampleLogs.PruneLogs | lobster/cmssw/plotting.py:372-374 | after the work loop each job lists exactly the logs found and unpacked; nothing else changes |
| SampleLogs.PrunedAll | lobster/cmssw/plotting.py:372-374 | after the last work item every listed job lists exactly its found and unpacked logs |
| SampleLogs.PadTable | lobster/cmssw/plotting.py:379-380 | the padding loop for one table gives exactly Padded |
| SampleLogs.PadLogs | lobster/cmssw/plotting.py:378-380 | every code's table is padded; counts and codes are unchanged |
| SampleLogs.PadFromTable | lobster/cmssw/plotting.py:379-380 | padding keeps every job's logs and adds exactly n empty entries at keys 0, -1, ..., -(n-1) |
| SampleLogs.PaddedTable | lobster/cmssw/plotting.py:378-380 | a table of positive ids is brought to `samples` entries with empty placeholders at non-positive keys |
| SampleLogs.ExpectedEntry | lobster/cmssw/plotting.py:372-380 | a pruned and padded job table is the expected entry for its exit code |
| SampleLogs.ExpectedTable | lobster/cmssw/plotting.py:352-380 | an exit code's entry holds its job count and exactly `samples` table entries; sampled jobs list their unpacked logs |
| SampleLogs.SaveLogsResult | lobster/cmssw/plotting.py:343-382 | the three phases together give the specified table |
| SampleLogs.SaveLogs | lobster/cmssw/plotting.py:343-382 | `savelogs` returns exactly SaveLogsSpec: IndexError iff a sampled job has no failed directory, otherwise the expected table |
| SampleLogs.SaveLogsTables | lobster/cmssw/plotting.py:343-382 | one entry per exit code, with its failed-job count and `samples` table entries; each sampled job lists the logs found and unpacked |
| Pie.Clamp | lobster/cmssw/plotting.py:476 | every clamped value is non-negative; non-negative values are kept, negative ones become 0 |
| Pie.AnnotateRaisesIff | lobster/cmssw/plotting.py:476-482 | ZeroDivisionError iff there are values and none is positive |
| Pie.LegendIff | lobster/cmssw/plotting.py:482-486 | a legend is drawn iff some clamped value is below a hundredth of the clamped total |
| Pie.FractionsWhole | lobster/cmssw/plotting.py:482 | the slice fractions add up to 1 |
| Pie.FractionsBounded | lobster/cmssw/plotting.py:482 | every slice fraction lies in [0, 1] |
| Pie.ManySlicesGetLegend | lobster/cmssw/plotting.py:482-486 | more than 100 slices with a positive total always get a legend |
| Foreman.RFind | lobster/cmssw/plotting.py:512 | `rfind` gives the last position of the character, or -1 iff it does not occur |
| Foreman.RFindLast | lobster/cmssw/plotting.py:512 | a position holding the character with no copy of it after is what `rfind` returns |
| Foreman.Basename | lobster/cmssw/plotting.py:509 | `os.path.basename` is the suffix after the last slash and holds no slash |
| Foreman.BasenameOfName | lobster/cmssw/plotting.py:509 | a name without a slash is its own base name |
| Foreman.BasenameAfterSlash | lobster/cmssw/plotting.py:509 | the base name of `dir/name` is `name` |
| Foreman.SliceEnd | lobster/cmssw/plotting.py:512 | a slice end counts a negative bound from the end and stays within the string |
| Foreman.StripLeft | lobster/cmssw/plotting.py:513 | removes exactly the leading whitespace |
| Foreman.StripRight | lobster/cmssw/plotting.py:513 | removes exactly the trailing whitespace |
| Foreman.StripSlice | lobster/cmssw/plotting.py:513 | `string.strip` returns a slice with only whitespace outside it that neither begins nor ends with whitespace |
| Foreman.StripTrimmed | lobster/cmssw/plotting.py:513 | text without whitespace at its ends is unchanged by `string.strip` |
| Foreman.LogMatches | lobster/cmssw/plotting.py:511 | `stem.log` matches `.*log+` when the stem has no newline |
| Foreman.LogDot | lobster/cmssw/plotting.py:512 | the last dot of `stem.log` is the one before the extension, when the stem has no dot |
| Foreman.AsWrittenDropsLastChar | lobster/cmssw/plotting.py:511-512 | as written, a matching base name without a dot loses its last character |
| Foreman.AsWrittenLosesChar | lobster/cmssw/plotting.py:509-513 | as written, a trimmed matching name without a dot comes out shorter than the corrected name, which keeps it whole |
| Foreman.AsWrittenExample | lobster/cmssw/plotting.py:509-513 | for `foremanlog` the name as written differs from the corrected one |
| Foreman.AgreeWithDot | lobster/cmssw/plotting.py:511-512 | whenever the base name has a dot, the corrected name equals the name as written |
| Foreman.NameHasNoSlash | lobster/cmssw/plotting.py:509-513 | a foreman's display name never contains a slash |
| Foreman.NameOfLog | lobster/cmssw/plotting.py:509-513 | the log `dir/stem.log` is shown as the stripped stem |
| Refresh.Seconds | lobster/actions.py:50 | the `seconds` field of the elapsed time lies in [0, 86400) |
| Refresh.Micros | lobster/actions.py:50 | the `microseconds` field lies in [0, 10^6) |
| Refresh.Normalised | lobster/actions.py:50 | days, seconds and microseconds together make up the whole elapsed time |
| Refresh.SecondsUnique | lobster/actions.py:50 | any split into days, in-range seconds and in-range microseconds is the one the fields hold |
| Refresh.DaysIgnored | lobster/actions.py:50 | adding whole days to the elapsed time changes neither the seconds field nor the decision |
| Refresh.DayAndTenSecondsNotDue | lobster/actions.py:50 | one day and ten seconds after the last refresh, an unforced `take` does not post |
| Refresh.DueWithinDay | lobster/actions.py:50 | within a day, an unforced `take` posts iff at least 901 whole seconds have passed |
| Refresh.ClockBackDue | lobster/actions.py:50 | a clock set back by less than 85499 s makes an unforced `take` post |
| Refresh.FirstStop | lobster/actions.py:30 | the messages before the first stop are all plot requests, and a stop follows them iff the queue holds one |
| Refresh.RendersAllBeforeStop | lobster/actions.py:30 | requests queued before a final stop are all rendered |
| Refresh.StopAhead | lobster/actions.py:30 | while only requests have been read, the stop is still ahead in the queue |
| Refresh.StopAt | lobster/actions.py:30 | the stop after a run of requests is the first stop |
| Refresh.PlotQueue.constructor | lobster/actions.py:22 | a new queue is empty; it is a DummyQueue exactly when asked to be |
| Refresh.PlotQueue.Put | lobster/actions.py:13-14 | `put` appends to a real queue and leaves a DummyQueue as it was |
| Refresh.PlotQueue.Get | lobster/actions.py:16-17 | a DummyQueue answers None and keeps nothing; a real queue hands out its oldest message |
| Refresh.PlotF | lobster/actions.py:29-34 | one render attempt per request before the first stop, whether or not renders raise; later messages stay queued; nothing is rendered from a DummyQueue |
| Refresh.Actions.constructor | lobster/actions.py:20-41 | without `plotdir` a DummyQueue and no process; otherwise an empty real queue and a process; `last` is now |
| Refresh.Actions.Take | lobster/actions.py:48-52 | when due (forced, or seconds field > 900) exactly one request is put and `last` becomes now; otherwise nothing changes |
| Refresh.Actions.Shutdown | lobster/actions.py:43-46 | without a process, AttributeError and nothing is sent; otherwise one stop is queued behind the pending requests, which are all rendered first |

## Left out

- File and process I/O is not modelled. This covers opening and parsing
  the log text (`f.readline()[1:].split()`, `np.loadtxt`), `glob`,
  `os.makedirs`, `shutil.rmtree`, the unpacking pool, logging, matplotlib
  rendering and `save_and_close`. Their outcomes enter as parameters:
  header tokens, the matrix, and the `hasDir`, `present`, `unpacks` and
  `fails` oracles.
- Concurrency is not modelled. The unpacking pool is sequential, and the
  plotting process and its queue are one sequential queue.
  `Refresh.PlotQueue.Get` requires a message on a real queue (a real `get`
  blocks until one arrives).
- Refresh.PlotF: requires a stop on a real queue. Without one the loop
  waits forever.
- Refresh.Actions.Shutdown: `self.plotp.join()` (waiting for the process to
  end) is not modelled. Neither is the runtime's suppression of the
  exception raised in `__del__`.
- Floating point is not modelled. Values are exact reals, so there is no
  rounding, overflow, NaN or infinity, and `np.nan_to_num` has nothing to
  replace.
- `np.histogram` is not modelled: the bin counts and the edges are inputs.
- The histogram edges have at least one entry (`|edges| >= 1`);
  `np.histogram` always returns bins + 1 of them.
- `split_by_column`'s `key` mapping is not modelled. Labels are the column
  values themselves, which is how the savelogs call uses it.
- SampleLogs.SaveLogs: requires distinct job ids (`DistinctIds`), as the
  database key guarantees. With duplicate ids, `list.remove` could remove a
  name a second time, and the model does not cover that.
- SampleLogs.SaveLogsTables: requires positive job ids. Only then can the
  placeholder keys 0, -1, ... never collide with a real job.
- SampleLog.Plotter.ReadLog: for a non-primary log, requires the window to
  be set. `make_plots` reads the primary log first.
- Curves.Integrated: requires non-negative wall times, which non-negative
  `tasks_running` samples give (`Curves.IntegrateWallBounds` with lo = 0).
- The window fields of `Plotter` are set by `SampleLog.Plotter.SetWindow`,
  standing in for `make_plots`. The rest of `Plotter.__init__` and
  `make_plots` is not part of this model.
- Python 2 `string.strip` is modelled with the C locale's whitespace
  (space, tab, newline, carriage return, vertical tab, form feed).

## Findings

| source | as written | input that shows it | evidently intended | confidence | as-written member | corrected member |
|---|---|---|---|---|---|---|
| lobster/cmssw/plotting.py:749-750 | `logger.debug(...)` returns None and `.format(...)` is then applied to it. The first job the 10% diagnostic flags raises AttributeError and aborts `make_plots`. | Edges [0, 10] and a job with 1 CPU second over [5, 20]: `wall` is 1/3, the job is flagged, and AttributeError is raised. Any job with CPU time that ran only outside the edges does the same. | Format the message, log it, and go on with the next job. | not executed | Attribution.AttributeCpuAsWritten | Attribution.AttributeCpu |
| lobster/cmssw/plotting.py:511-512 | `foreman[:foreman.rfind('.')]` with no dot slices to `[:-1]` and drops the last character. | The base name `foremanlog` is shown as `foremanlo`. | Remove the extension only when there is one. | not executed | Foreman.ForemanNameAsWritten | Foreman.ForemanName |
