# pandasutils core in Dafny

A Dafny model of the deterministic core of `pandasutils`, a helper library for date-times, pandas tables and paths. The model covers:

- **ISO-8601 parsing and formatting** (`Iso8601`, over `Calendar`). `parse_iso8601str` is the unanchored, case-insensitive regular-expression search, then `strptime`, then the UTC offset, then `calendar.timegm`. Every failure gives the sentinel -1. The integer branch of `to_iso8601str` renders epoch milliseconds as a UTC text, and parsing that text gives the milliseconds back.
- **Duration labels** (`TimeUtil`, `TimeFrames`). `timedelta2s` reduces a duration to seconds. `timedelta2freq` and `TimeFrameStr.__str__` decompose a duration greedily over an ordered unit table, with Python's floor division and modulo. `TimeFrameStr` is a mutable unit table with a getter and a setter per unit. `replace_m2min` rewrites the minute label `m` to `min`.
- **Time-index completion** (`TimeUtil`). `complete_timeindex` with a positive fixed step builds the grid from the smallest to the largest timestamp and reindexes a table onto it.
- **Table helpers** (`Frames`, `DfUtil`). A `DataFrame` is an index (name, labels, range flag, time zone) and an ordered list of named columns of cells. A missing value (NaN or NaT) is `None`, and timestamps are integers. The operations are:
  - `search_timeidx`: a lower-bound search plus a clamp;
  - `shift`: guards, then a shift of the selected columns or rows;
  - `is_default_index` and `sum_none`;
  - `rename` and `setindex`, which change a frame in place.
- **Path helpers** (`PathUtil`): `sanitize_filename`, `convert_lowstr`, the suffix rule of `isfile`/`isdir`, and the filter loop of `get_paths`. The file system is a map from existing paths to their kind, and the glob's result is an input.
- **Time format patterns** (`TimeFormats`): the `strftime` directives `TimeFormat` names, the patterns `YYMMDD`, `HHMMSS` and `DT` compose, and the text they give for a timestamp.
- **The lazy enum table** (`Enums`): `Enum._initialize` and its readers, over a class's method resolution order.

`Common` holds `Option`, `Result`, the Python exceptions that can be raised, and floor division. `Text` holds ASCII character classes and decimal numerals.

## Model

| member | source | states |
|---|---|---|
| Calendar.DaysInMonth | pandasutils/timeutil.py:355 | every month of the proleptic Gregorian calendar has 28 to 31 days, with 29 February exactly in leap years |
| Calendar.CivilFromDaysRoundTrip | pandasutils/timeutil.py:356-357 | every signed day count since 1970-01-01 names a valid date, and counting that date's days gives the count back |
| Calendar.DaysFromCivilRoundTrip | pandasutils/timeutil.py:355-357 | a valid date turned into its day count and back is the same date |
| Calendar.DaysFromCivilNextDay | pandasutils/timeutil.py:356 | the calendar's next day has the next day count, so adding an offset moves along the calendar |
| Calendar.CalendarAnchors | pandasutils/timeutil.py:357 | 1970-01-01 is day 0, and 0001-01-01 and 9999-12-31 are the ends of `datetime`'s range |
| Iso8601.Search | pandasutils/timeutil.py:342-344 | `re.search`: no match exactly when the pattern matches at no position; otherwise the match found at some position of the text |
| Iso8601.ParseIso8601 | pandasutils/timeutil.py:329-331 | `None` and any non-string argument give -1 |
| Iso8601.ParseLayout | pandasutils/timeutil.py:332-357 | any stamp, in basic or extended layout with any fraction and zone, parses to the epoch formula when strptime accepts its fields and the shifted day is in range, and to -1 otherwise |
| Iso8601.SeparatorsDoNotMatter | pandasutils/timeutil.py:332-340 | the basic layout, the extended layout and every date-time separator (`T`, `t`, whitespace, nothing) give the same value |
| Iso8601.UtcSpellings | pandasutils/timeutil.py:339 | `Z`, `z`, `+00:00`, `-0000` and no zone give the same value |
| Iso8601.FractionPadding | pandasutils/timeutil.py:346-348 | `.5` is 500 ms, `.12` is 120 ms and `.123` is 123 ms |
| Iso8601.FractionAddsMilliseconds | pandasutils/timeutil.py:346-357 | a fraction of 1-3 digits adds its right-padded milliseconds to the whole-second value |
| Iso8601.OffsetIsApplied | pandasutils/timeutil.py:349-356 | a `+HH:MM` offset is subtracted from the local time and a `-HH:MM` offset added: the value is that of the UTC clock with no zone |
| Iso8601.RejectedFields | pandasutils/timeutil.py:355-359 | a zero year, month 13, 30 February, hour 24, minute 60 or second 60 give -1 |
| Iso8601.LastDayOverflow | pandasutils/timeutil.py:356-359 | on 9999-12-31 a negative offset that carries past midnight overflows `datetime` and gives -1 |
| Iso8601.FirstDayUnderflow | pandasutils/timeutil.py:356-359 | on 0001-01-01 a positive offset that reaches back before midnight gives -1 |
| Iso8601.SentinelAmbiguity | pandasutils/timeutil.py:357-359 | `1969-12-31T23:59:59.999Z`, a valid instant, also parses to -1 |
| Iso8601.LongFractionDropsZone | pandasutils/timeutil.py:338-339 | with four or more fraction digits the match ends after three, so a following zone is ignored |
| Iso8601.ParseLongFraction | pandasutils/timeutil.py:338-357 | text with more than three fraction digits parses as the stamp of its first three, in UTC |
| Iso8601.DigitFreePrefix | pandasutils/timeutil.py:342 | the search is unanchored: digit-free text in front of a stamp changes nothing |
| Iso8601.ShortTextRejected | pandasutils/timeutil.py:342-344 | a text shorter than fourteen characters, such as a bare date, gives -1 |
| Iso8601.SameSearchSameParse | pandasutils/timeutil.py:342-357 | the result depends only on the match the search finds |
| Iso8601.FormatIso8601 | pandasutils/timeutil.py:362-372 | rendering succeeds exactly for milliseconds inside `datetime`'s years 1 to 9999 |
| Iso8601.FormattedLayout | pandasutils/timeutil.py:366-372 | for every `ms` the model renders (for the source: where `ms / 1000.0` is exact to the microsecond), the rendered text is the UTC date and clock of `ms`, a six-digit fraction when the milliseconds are not zero, and `+00:00` |
| Iso8601.FormatThenParse | pandasutils/timeutil.py:329-372 | `parse_iso8601str(to_iso8601str(ms)) == ms` for every `ms` the model renders (for the source: where `ms / 1000.0` is exact to the microsecond) |
| TimeUtil.TimedeltaToSeconds | pandasutils/timeutil.py:49-57 | the three duration kinds give their total seconds, and anything else raises `TypeError` |
| TimeUtil.DefaultUnits | pandasutils/timeframestr.py:20-27 | every unit of the default table is a positive number of seconds, so rendering over it never divides by zero |
| TimeUtil.ZeroUnitError | pandasutils/timeutil.py:65 | dividing by a zero unit raises `ZeroDivisionError` for a Python number; a `numpy.timedelta64` gives `ValueError` when nothing remains and `OverflowError` otherwise |
| TimeUtil.TimedeltaToFreq | pandasutils/timeutil.py:61-69 | the loop's result is the greedy label over the whole table: `TypeError` for a non-duration; the error of dividing by the first zero unit; otherwise `<q><label>` for every unit whose quotient of what remains is positive |
| TimeUtil.Conservation | pandasutils/timeutil.py:64-68 | the emitted counts times their units, plus what remains, add up to the input |
| TimeUtil.LeftoverBelowUnits | pandasutils/timeutil.py:64-68 | over positive units what remains is below every unit, at most the input, and not negative for a non-negative input |
| TimeUtil.NonPositiveFreq | pandasutils/timeutil.py:61-69 | a zero or negative duration gives the empty label |
| TimeUtil.TotalBounded | pandasutils/timeutil.py:64-68 | the emitted parts never account for more than a non-negative input |
| TimeUtil.AppendUnit | pandasutils/timeutil.py:64-68 | one more unit at the end of the table appends exactly that unit's `<q><label>` and reduces what remains modulo the unit |
| TimeUtil.DefaultLabel | pandasutils/timeframestr.py:20-27 | over the default table a duration of y years, w weeks, d days, h hours, m minutes and s seconds (each below the next unit) renders exactly its positive fields |
| TimeUtil.DefaultZero | pandasutils/timeframestr.py:90-98 | zero seconds give `""`, not `"0s"` |
| TimeUtil.DefaultHourMinuteSecond | pandasutils/timeframestr.py:90-98 | 3661 seconds give `"1h1m1s"` |
| TimeUtil.DefaultSkipsZeroUnits | pandasutils/timeframestr.py:90-98 | 90000 seconds give `"1d1h"`: units with a zero quotient are left out |
| TimeUtil.DefaultYearIs365Days | pandasutils/timeframestr.py:21 | a year is 365 days, so 366 days give `"1Y1d"` |
| TimeUtil.ScanIsRewrite | pandasutils/timeutil.py:376-379 | the substitution as the regex engine scans it equals the character-by-character rewrite |
| TimeUtil.ReplaceM2Min | pandasutils/timeutil.py:375-379 | an `m` becomes `min` exactly when it starts the text, follows a digit or follows a non-word character, and no ASCII letter follows it; every other character is kept |
| TimeUtil.RewriteDependsOnBlocking | pandasutils/timeutil.py:376 | only whether the preceding character is a letter or underscore decides an `m` |
| TimeUtil.RewriteFirst | pandasutils/timeutil.py:376-379 | the rewrite keeps a text empty or non-empty, and keeps whether it starts with an ASCII letter |
| TimeUtil.RewriteIdempotent | pandasutils/timeutil.py:376-379 | rewriting twice is rewriting once, from any preceding character |
| TimeUtil.ReplaceM2MinIdempotent | pandasutils/timeutil.py:375-379 | `replace_m2min` is idempotent |
| TimeUtil.RewriteWithoutM | pandasutils/timeutil.py:376-379 | a text without `m` is unchanged |
| TimeUtil.ReplaceM2MinExamples | pandasutils/timeutil.py:375-379 | `5m`, `m` and `1h30m` become `5min`, `min` and `1h30min` |
| TimeUtil.ReplaceM2MinKeeps | pandasutils/timeutil.py:375-379 | `min`, `ms` and `1M` are unchanged |
| TimeUtil.MinLabel | pandasutils/timeutil.py:307 | `index.min()` skips missing labels: none when all are missing, otherwise a present label no larger than any other |
| TimeUtil.MaxLabel | pandasutils/timeutil.py:308 | `index.max()` skips missing labels: none when all are missing, otherwise a present label no smaller than any other |
| TimeUtil.StepRange | pandasutils/timeutil.py:310-316 | `date_range(start, end, freq)` has `(end - start) / freq + 1` values for `start <= end`, the k-th being `start + k * freq` |
| TimeUtil.StepRangeEnds | pandasutils/timeutil.py:310-316 | the range starts at `start`, and its last value is at most `end` and within one step of it |
| TimeUtil.StepRangeMembers | pandasutils/timeutil.py:310-316 | a value is in the range exactly when it lies between the ends on the grid of the step |
| TimeUtil.CompleteIndex | pandasutils/timeutil.py:300-316 | `ValueError` exactly when every label is missing; otherwise a non-range index of present labels, unnamed, with the same time zone |
| TimeUtil.Reindex | pandasutils/timeutil.py:322 | `ValueError` exactly when the old index repeats a label; otherwise a valid table on the new index with the same columns |
| TimeUtil.CompleteTimeIndex | pandasutils/timeutil.py:318-326 | a table is reindexed onto the grid named like its index; an index becomes the grid; anything else raises `TypeError` |
| TimeUtil.CompletedIndexGrid | pandasutils/timeutil.py:300-316 | a completed index runs from the smallest present label in steps of `freq`, has `(max - min) / freq + 1` labels, and ends within one step of the largest |
| TimeUtil.CompletedFrameShape | pandasutils/timeutil.py:318-322 | a completed table keeps its index name, time zone, column names and order, and its labels are the grid; a repeated label raises `ValueError` |
| TimeUtil.CompletedFrameCell | pandasutils/timeutil.py:322 | a grid row carries the cells of the old row with that timestamp, and is all missing when no row has it |
| TimeUtil.CompletionKeepsGridRows | pandasutils/timeutil.py:318-322 | an old row survives exactly when its timestamp is on the grid: `(t - min) % freq == 0` |
| TimeUtil.CompleteRejectsOtherTypes | pandasutils/timeutil.py:325-326 | a `Series` or any other argument raises `TypeError` |
| TimeFrames.LabelOf | pandasutils/timeframestr.py:32-34 | `self[key]`: the stored label when the key is present, `KeyError` otherwise |
| TimeFrames.AssignThenRead | pandasutils/timeframestr.py:36-38 | after `self[key] = label` the key reads back `label` |
| TimeFrames.AssignLeavesOthers | pandasutils/timeframestr.py:36-78 | a setter leaves every other key's label as it was |
| TimeFrames.AssignShape | pandasutils/timeframestr.py:36-78 | a setter keeps the keys and their order and changes only its key's entry, or appends a new key; no key repeats |
| TimeFrames.TimeFrameStr.constructor | pandasutils/timeframestr.py:17-30 | the new table holds the given entries and the duration |
| TimeFrames.TimeFrameStr.WithDefaultUnits | pandasutils/timeframestr.py:17-30 | with no table given, the default table is copied in |
| TimeFrames.SettersLeaveDefault | pandasutils/timeframestr.py:17-30 | `update` copies the entries, so a setter on one instance leaves another instance and the default table unchanged |
| TimeFrames.TimeFrameStr.Year | pandasutils/timeframestr.py:32-34 | `year` reads the label of 31536000 seconds, or raises `KeyError` |
| TimeFrames.TimeFrameStr.Week | pandasutils/timeframestr.py:40-42 | `week` reads the label of 604800 seconds, or raises `KeyError` |
| TimeFrames.TimeFrameStr.Day | pandasutils/timeframestr.py:48-50 | `day` reads the label of 86400 seconds, or raises `KeyError` |
| TimeFrames.TimeFrameStr.Hour | pandasutils/timeframestr.py:56-58 | `hour` reads the label of 3600 seconds, or raises `KeyError` |
| TimeFrames.TimeFrameStr.Min | pandasutils/timeframestr.py:64-66 | `min` reads the label of 60 seconds, or raises `KeyError` |
| TimeFrames.TimeFrameStr.Sec | pandasutils/timeframestr.py:72-74 | `sec` reads the label of 1 second, or raises `KeyError` |
| TimeFrames.TimeFrameStr.SetYear | pandasutils/timeframestr.py:36-38 | the `year` setter assigns the label of 31536000 seconds and keeps the keys distinct |
| TimeFrames.TimeFrameStr.SetWeek | pandasutils/timeframestr.py:44-46 | the `week` setter assigns the label of 604800 seconds |
| TimeFrames.TimeFrameStr.SetDay | pandasutils/timeframestr.py:52-54 | the `day` setter assigns the label of 86400 seconds |
| TimeFrames.TimeFrameStr.SetHour | pandasutils/timeframestr.py:60-62 | the `hour` setter assigns the label of 3600 seconds |
| TimeFrames.TimeFrameStr.SetMin | pandasutils/timeframestr.py:68-70 | the `min` setter assigns the label of 60 seconds |
| TimeFrames.TimeFrameStr.SetSec | pandasutils/timeframestr.py:76-78 | the `sec` setter assigns the label of 1 second |
| TimeFrames.TimeFrameStr.ToString | pandasutils/timeframestr.py:90-98 | `str(tf)` is `timedelta2freq(tf.freq, tf)` over the instance's own table |
| DfUtil.LowerBound | utils/dfutil.py:42 | `searchsorted(side="left")`: every key before the result sorts before `t`, and the key at it does not |
| DfUtil.LowerBoundSplits | utils/dfutil.py:33-42 | on ascending keys the result is the leftmost insertion point: keys before it are `< t`, keys from it on are `>= t` |
| DfUtil.ColumnPosition | utils/dfutil.py:37-38 | the position of the first column of that name, and `None` exactly when no column has it |
| DfUtil.SearchTimeIdx | utils/dfutil.py:15-44 | `ValueError` exactly when the name is neither the index's nor a column's; otherwise the insertion point, or with `isclamp` a row position (-1 for an empty table) |
| DfUtil.SearchPrefersIndex | utils/dfutil.py:35-36 | the index wins over a column of the same name |
| DfUtil.SearchClamped | utils/dfutil.py:42-43 | with `isclamp` the result is `min(max(idx, 0), len(df) - 1)` of the insertion point, which lies in `[0, len(df)]` |
| DfUtil.ShiftedBack | utils/dfutil.py:89-91 | a shift by `p` and back by `p` restores every cell that did not fall off the end, and the rest come back missing |
| DfUtil.ShiftedDown | utils/dfutil.py:56-66 | a shift down by `p` puts `p` missing cells first and keeps the order of the rest, as in the docstring example |
| DfUtil.Included | utils/dfutil.py:70-74 | the names present on the axis, in the given order |
| DfUtil.IncludedAll | utils/dfutil.py:80-83 | every name is included exactly when none is missing from the axis |
| DfUtil.ShiftAsWritten | utils/dfutil.py:67-91 | as the code is written: nothing to shift gives the unchanged copy, and with `must_include_names` off a `columns` selection of which some but not all names are present raises `KeyError` |
| DfUtil.Shift | utils/dfutil.py:47-91 | `shift` with the intended selection: raises only `ValueError`, and a result keeps the index and the number of columns |
| DfUtil.ShiftGuards | utils/dfutil.py:67-78 | `periods == 0` or no names return the copy even for an unknown axis; only then does an unknown axis raise `ValueError` |
| DfUtil.ShiftMissingNameRejected | utils/dfutil.py:80-84 | with `must_include_names`, a name missing from the axis raises `ValueError` |
| DfUtil.ShiftColumnsEffect | utils/dfutil.py:69-72 | on columns, exactly the named columns present move down by `periods`; names, index and other columns are kept |
| DfUtil.ShiftRowsEffect | utils/dfutil.py:73-76 | on the index, the values in exactly the named rows move `periods` columns on; other rows are kept |
| DfUtil.ShiftAsWrittenAgrees | utils/dfutil.py:69-91 | the code as written and the intended selection differ only when `must_include_names` is off and some, but not all, names are columns |
| DfUtil.ShiftMissingColumnAsWritten | utils/dfutil.py:71 | a missing column with `must_include_names=False` raises `KeyError` as written, and the intended version shifts the present column |
| DfUtil.IsDefaultIndex | utils/dfutil.py:94-97 | true exactly for a `RangeIndex` equal to `0 .. len(df) - 1`, which is then unique and ascending |
| DfUtil.MissingCount | utils/dfutil.py:240-243 | `isna().sum()` of a line is at most its length, and zero exactly when no cell is missing |
| DfUtil.Collect | utils/dfutil.py:241-244 | the comprehension keeps exactly the labels with a positive count, each mapped to a positive count |
| DfUtil.CollectDistinct | utils/dfutil.py:241-244 | with distinct labels each kept label maps to its own count |
| DfUtil.SumNone | utils/dfutil.py:225-246 | an empty table gives `{}`; an axis other than `index` or `columns` leaves `result` unbound; every value is positive |
| DfUtil.SumNoneColumns | utils/dfutil.py:242-244 | a column with a missing cell is a key; a key is the name of such a column; with distinct names the value is that column's count |
| DfUtil.SumNoneRows | utils/dfutil.py:239-241 | with distinct row labels, a row is a key exactly when it has a missing cell, mapped to its count |
| DfUtil.Rename | utils/dfutil.py:100-119 | the frame and the caller's mapping become what `RenameSpec` describes |
| DfUtil.RenameEffect | utils/dfutil.py:113-119 | rows and cells are kept; the index is renamed exactly when its name is a key, and that key is popped; columns take their names from what is left, and a column named like the popped key keeps its name |
| DfUtil.SetIndex | utils/dfutil.py:122-130 | the answer and the frame become what `SetIndexSpec` describes |
| DfUtil.SetIndexEffect | utils/dfutil.py:122-130 | a column key becomes the index named `key` and leaves the columns, the other columns staying in order; the answer is true; rows are kept; a key naming only the index answers true with no change; otherwise false with no change |
| PathUtil.SanitizeFilename | pandasutils/pathutil.py:136-148 | `sanitize_filename`: each of the nine forbidden characters becomes `repl` and every other character is kept, in order; the lemmas below state what it gives |
| PathUtil.SanitizeKeepsClean | pandasutils/pathutil.py:136-148 | a name with none of the nine characters is returned unchanged |
| PathUtil.SanitizeAppend | pandasutils/pathutil.py:144-146 | sanitising works character by character |
| PathUtil.SanitizeOneForOne | pandasutils/pathutil.py:144-146 | with a one-character `repl` the length is kept, each forbidden character is replaced in place and every other character stays |
| PathUtil.SanitizeCleans | pandasutils/pathutil.py:144-146 | with a `repl` free of the nine characters none of them remains |
| PathUtil.SanitizeIdempotent | pandasutils/pathutil.py:136-148 | with such a `repl`, sanitising twice is sanitising once |
| PathUtil.ConvertLowstr | pandasutils/pathutil.py:34-35 | the result is no longer than the input and holds only lower-case letters |
| PathUtil.ConvertLowstrAppend | pandasutils/pathutil.py:35 | conversion works character by character, keeping order |
| PathUtil.ConvertLowstrFixed | pandasutils/pathutil.py:35 | a string of lower-case letters is unchanged |
| PathUtil.ConvertLowstrIdempotent | pandasutils/pathutil.py:34-35 | converting twice is converting once |
| PathUtil.LastDot | pandasutils/pathutil.py:43 | the position of the last `.` of a name, or none when it has no dot |
| PathUtil.Suffix | pandasutils/pathutil.py:43 | `Path.suffix` is the name's tail from its last dot, when that dot is neither the first nor the last character |
| PathUtil.SuffixExists | pandasutils/pathutil.py:43-46 | a name has a suffix exactly when a non-leading dot has at least one character and no further dot after it |
| PathUtil.IsFile | pandasutils/pathutil.py:38-46 | `isfile`: the file system's answer for an existing path, otherwise whether the name has a suffix |
| PathUtil.IsDir | pandasutils/pathutil.py:49-58 | `isdir`: the file system's answer for an existing path, otherwise whether the name has no suffix |
| PathUtil.FileOrDir | pandasutils/pathutil.py:38-58 | for a path that does not exist, `isdir` is the negation of `isfile`; an existing path is never both, and is neither when it is another kind of entry |
| PathUtil.SuffixExamples | pandasutils/pathutil.py:43-58 | a missing `data/report.csv` is a file; a missing `data/archive`, `.bashrc` or `notes.` is a directory |
| PathUtil.FilteredMembers | pandasutils/pathutil.py:99-112 | the kept paths are exactly the globbed paths that pass the hidden filter and the kind filter |
| PathUtil.FilteredAppend | pandasutils/pathutil.py:99-112 | filtering keeps glob order |
| PathUtil.GetPaths | pandasutils/pathutil.py:96-118 | the loop returns the kept paths, or `TypeError` for an unknown `filedirtype` once some path gets past the hidden filter |
| PathUtil.GetPathsEdges | pandasutils/pathutil.py:96-118 | an empty glob gives `[]` for any `filedirtype`, and `include_hidden` with `"all"` returns every globbed path in order |
| PathUtil.GetPathsDropsHidden | pandasutils/pathutil.py:101-102 | without `include_hidden`, a path with any part starting with `.` is dropped, the base directory's parts included |
| TimeFormats.Strftime | utils/timeformat.py:197-204 | `Timestamp.strftime`: `%Y`, `%m`, `%d`, `%H`, `%M` and `%S` become zero-padded fields, `%%` becomes `%`, and every other character is copied; the lemmas below state what it gives |
| TimeFormats.StrftimeLiteral | utils/timeformat.py:197-204 | text without `%` is copied and what follows it is formatted on its own |
| TimeFormats.TimeFormat.Yymmdd | utils/timeformat.py:197-208 | for a join without `%`, `yymmdd(join)` is the zero-padded year, month and day joined by `join` |
| TimeFormats.TimeFormat.Hhmmss | utils/timeformat.py:200-212 | for a join without `%`, `hhmmss(join)` is the zero-padded hour, minute and second joined by `join` |
| TimeFormats.TimeFormat.Dt | utils/timeformat.py:203-224 | for joins without `%`, `dt(datej, join, timej)` is the date text, `join`, then the time text |
| TimeFormats.PercentPercentJoin | utils/timeformat.py:197-208 | a join of `%%` is itself a directive: the fields come out separated by a single `%` |
| TimeFormats.PercentJoinExample | utils/timeformat.py:197-208 | `yymmdd("%%")` of 2024-03-15 is `2024%03%15` |
| TimeFormats.LonePercentJoin | utils/timeformat.py:197-208 | a join of `%` pairs with the next directive's `%`, so `yymmdd("%")` shows the year followed by the literal `%m%d` |
| TimeFormats.DefaultPatterns | utils/timeformat.py:206-224 | the defaults are `"%Y-%m-%d"`, `"%H:%M:%S"` and `"%Y-%m-%d %H:%M:%S"` |
| TimeFormats.DtDetermines | utils/timeformat.py:203-204 | for given joins without `%`, two timestamps with the same `dt` text are equal (with a `%` join this fails, as LonePercentJoin shows) |
| Enums.Scan | pandasutils/enum.py:23-27 | the table built from a class's attributes has at most one entry per attribute |
| Enums.ScanAppend | pandasutils/enum.py:24-27 | the table keeps declaration order |
| Enums.ScanMembers | pandasutils/enum.py:25-27 | a pair is in the table exactly when an attribute with that name and value is not callable and its name does not start with `__` |
| Enums.ScanExample | pandasutils/enum.py:25 | `_red` is kept; `__doc__` and a method are not |
| Enums.Resolve | pandasutils/enum.py:22 | `cls.__kv__` is the table of the first class on the resolution order that has one of its own |
| Enums.Initialize | pandasutils/enum.py:17-27 | while `cls.__kv__` is empty, the class gets a fresh table of its own attributes; once it is non-empty nothing changes; no other class changes |
| Enums.Dict | pandasutils/enum.py:29-38 | `dict()` returns the table object itself, the same object with the same entries once it is non-empty |
| Enums.Keys | pandasutils/enum.py:55-64 | the names of the table, in table order |
| Enums.Values | pandasutils/enum.py:66-75 | the values of the table, in table order |
| Enums.Items | pandasutils/enum.py:40-53 | the pairs of the table, in table order |
| Enums.SubclassInherits | pandasutils/enum.py:22-27 | a subclass of a class with a filled table reads that same table and never scans its own attributes |
| Enums.EmptyClassRescans | pandasutils/enum.py:22-27 | a class without members re-scans on every call and gets a fresh empty table each time |

## Left out

- Floating point is not modelled. Durations are whole seconds and timestamps whole milliseconds. The float branch of `to_iso8601str` and `datetime2ms` are left out.
- `to_iso8601str` divides by `1000.0` in floating point, and `datetime.fromtimestamp` rounds the fraction to microseconds, half to even. The model divides exactly. The two agree only while `|ms / 1000|` is below 2^33 seconds, roughly the years 1698 to 2242. For example, `253402300799999` (9999-12-31T23:59:59.999) becomes the double 253402300799.99899…, renders as `…59.998993+00:00` and parses back as `253402300799998`. `8589934592123`, just past 2^33 seconds, renders `.122999`.
- Iso8601.FormattedLayout: the `.mmm000` fraction holds for the source only inside that band; outside it the float rounding changes the microseconds.
- Iso8601.FormatThenParse: the round trip holds for the source only inside that band; outside it the parsed value can be one millisecond short.
- TimeUtil.TimedeltaToSeconds: sub-second parts of a duration and NaT durations are not modelled.
- TimeUtil.ReplaceM2Min: `\d` and `\b` are read over ASCII characters. Python's `str` patterns are Unicode-aware, so a non-ASCII letter or digit before `m` is treated differently: Python keeps `"ém"` unchanged, and the model gives `"émin"`.
- Iso8601.FormatIso8601: every millisecond count outside years 1 to 9999 gives `ValueError`. CPython raises `ValueError` only while the platform's `gmtime` can still represent the year; past that it raises `OSError`, or `OverflowError` beyond `time_t`. Those platform-dependent bands are not modelled.
- TimeUtil.ZeroUnitError: which exception a zero unit raises follows Python and numpy float rules. For a `numpy.timedelta64` this is `OverflowError`, or `ValueError` when nothing remains. Any warning numpy prints is not modelled.
- `TimeFrameStr.timedelta2s` (pandasutils/timeframestr.py:80-88) is the same conversion as `timedelta2s` in timeutil.py and is modelled once, by TimeUtil.TimedeltaToSeconds.
- Time zones and dtype conversion are not modelled. `to_utctz` inside `search_timeidx` and `pd.to_datetime` inside `complete_timeindex` are the identity on integer UTC timestamps. A time zone is kept only as a name.
- TimeUtil.CompleteTimeIndex: only a positive fixed step is modelled. Calendar offsets (`M`, `MS`, `B`, `W`), string frequencies, `normalize=True` and non-positive steps are left out.
- DfUtil.SearchTimeIdx: with a repeated column name the model searches the first such column; pandas would search a frame. On keys that are not ascending, `searchsorted` is unspecified; the model returns the linear lower bound.
- DfUtil.Shift: repeated names, repeated index labels and the float upcast of shifted integer columns are not modelled. The copy is a new value.
- DfUtil.SetIndex: `set_index` on a repeated column name is not modelled, and the new index carries no time zone.
- DfUtil.RenameSpec: mapping keys and names are strings only, so a `None` key that would match an unnamed index is not modelled.
- DfUtil.SumNone: the result is a map, so the insertion order of the returned `dict` is not modelled. Counts are natural numbers, not numpy integers.
- PathUtil.SanitizeFilename: a `repl` with a backslash goes through `re`'s template expansion, which is not modelled, so the model requires `repl` without one.
- PathUtil.ConvertLowstr: only ASCII letters are modelled; Unicode `isalpha` and `lower` are not.
- PathUtil.FsPath: paths are given as their parts. Joining several components, parsing a path string, and the newer rule that a trailing dot is a suffix are not modelled.
- PathUtil.GetPaths: glob matching is an input sequence; `is_dir` and `is_file` read the file-system map; symbolic links are not modelled.
- TimeFormats.TimeFormat.Yymmdd: the text is stated only for a join without `%`; a join with `%` is formatted as part of the pattern, which PercentPercentJoin and LonePercentJoin show for two such joins.
- TimeFormats.TimeFormat.Hhmmss: the text is stated only for a join without `%`, as for Yymmdd.
- TimeFormats.TimeFormat.Dt: the text is stated only for joins without `%`, as for Yymmdd.
- TimeFormats.Strftime: only `%Y %m %d %H %M %S %%` are expanded. Other directives, including the locale-dependent and `%-d`-style ones, are copied as written. The constructor's `pd.to_datetime` is replaced by a timestamp given by its fields.
- Enums.Keys: the model returns snapshot sequences, not live iterators. Attribute values are abstract, and whether one is callable is a flag. Multiple inheritance is not modelled.
- `now`, `strNow`, `datetime2str` (clock and locale); `resample`, `readpd`, `writepd`, `set_timeidx` and the timezone converters (pandas I/O and tz database); `create_dir`, `delete_dir`, `getsubdir`, `getsubfiles` (file system side effects).

## Findings

| source | as written | input that shows it | evidently intended | confidence | as-written member | corrected member |
|---|---|---|---|---|---|---|
| utils/dfutil.py:71 | with `axis="columns"` the selection key is built from all of `names`, so with `must_include_names=False` a missing name reaches `.loc` and raises `KeyError` | a table with column `A`, `names=["A", "B"]`, `periods=1`, `must_include_names=False` | shift the names that are present, as the `index` branch does | high, not executed | DfUtil.ShiftMissingColumnAsWritten | DfUtil.ShiftColumnsEffect |
