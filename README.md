# temp_streak in Dafny

temp_streak is a set of Node.js scripts and browser pages for two weather
stations (Tartu and Tõravere). They collect temperature readings, compact
them to one row per hour, and find **streaks**. A streak is a run of time-ordered readings that
all stay at or below a threshold (or at or above it), with no hole longer
than one day. The longest streaks of every winter are then shown.

This project models in Dafny the parts of the scripts that compute something. It proves what
they guarantee:

* **the streak segmenter** (`Segmenter`): one forward pass that opens a
  streak on a qualifying reading, extends it, and closes it on a failing
  reading or on a gap of more than 24 h. It is shared by the two
  scripts below, whose finishing rules differ;
* **`generate_streaks.js`** (`StreakGeneration`): 26 passes over the
  hourly file (thresholds 0, −1, …, −25, "below" mode), a 48 h ongoing
  window, the `current` entry, the top ten, and one interval row per
  streak. It is modelled as a `ThresholdScan` class holding the loop's locals;
* **`analyze_temps.js`** (`AnalyzeTemps`): the mode-aware variant with a
  24 h window that stretches an ongoing streak to `now`. Its
  `formatDuration` is proved to read back to the whole minutes, also
  through a strict reader that accepts only non-zero parts in unit
  order with the right singular or plural;
* **the stable sort and top ten** (`Ranking`): `Array.prototype.sort` is
  stable, so it is modelled as an insertion sort. It is proved sorted, a
  permutation, and order-keeping among equal durations;
* **hourly compaction** (`HourlyBuckets`, `CompactData`, `RefreshData`):
  the bucket machine of `compact_data.js` and of the `compactData` in
  `refresh_data.js`, as a specification fold plus the loops;
* **`refresh_data.js`** (`RefreshData`): the line filter, the year-chunk plan
  and the stop at the first failed fetch, the search for the latest stored
  date, and the three outcomes of `refreshData`;
* **`common.js`** (`Common`): the short `formatDuration` ("2p 3h 5m"),
  proved to read back to the whole minutes;
* **`formatDate`** (`DateFormat`): proved to read back to its calendar
  fields;
* **`convert_toravere.js`** (`ConvertToravere`): the row filter and
  transform, and `formatDateTime`;
* **`graph.js`** (`Graph`): `downsample`, the tooltip's binary search,
  `getTopStreaks`, and the rule that clips a streak to a year's chart;
* **`streaks.js`** (`StreaksView`): the interval-table cache, the winter
  keys, the grouping and its ascending key order, and when the current
  streak gets a card of its own.

Shared pieces:

* `Text`: `split`, `join`, `trim`, `startsWith`, `padStart`, and integer
  `String()`;
* `JsNumber`: JavaScript's truncating `%`;
* `Wrappers`: `Option`.

Timestamps are integer milliseconds. Temperatures are integers in tenths of a
degree Celsius, the unit `parseTemp` reads them in; a station reports one
decimal, so −5.0 is −50. The thresholds of `generate_streaks.js` are whole
degrees and are multiplied by 10 before they are compared. The threshold of
`analyze_temps.js` is taken in tenths. A file is a sequence of lines. A missing file is
`None`. An output file is the sequence of records written to it. `now`,
date parsing, number parsing and the local calendar are parameters.

## Model

| member | source | states |
|---|---|---|
| Segmenter.SegmentSnoc | generate_streaks.js:53-95 | segmenting one more reading is one more `Step`, so the specification fold is the loop body |
| Segmenter.OpenTracksLastRow | generate_streaks.js:76-94 | after a pass a streak is open exactly when the last reading qualified, and it then ends at that reading's date |
| Segmenter.OpenIsTrailingRun | analyze_temps.js:57-64 | the open streak's count is the number of qualifying readings it absorbed (the trailing run), and it starts at that run's first reading |
| Segmenter.ClosedNotOngoing | generate_streaks.js:67-74 | every streak closed inside the loop is not ongoing and has `durationMs = end − start` |
| Segmenter.SegmentClosedAndOpen | generate_streaks.js:67-94 | the closed streaks end exactly at the inner run ends; the closed starts, plus the open start, are exactly the run starts |
| Segmenter.StreaksAreMaximalRuns | generate_streaks.js:67-94 | the streaks' starts and ends are exactly the starts and ends of the maximal runs of qualifying readings, where a gap over 24 h splits a run, defined independently of the loop |
| Segmenter.CountsAddUp | analyze_temps.js:58-64 | the counts of all streaks add up to the number of qualifying readings |
| Segmenter.WellOrderedSnoc | generate_streaks.js:88 | appending a streak keeps the list well ordered iff the list was, the new streak has `start ≤ end` and its duration, and it starts no earlier than the previous end |
| Segmenter.StepKeepsOrder | generate_streaks.js:67-94 | one step on a reading no earlier than the last keeps the streaks ordered and the open streak ending at that reading |
| Segmenter.OrderedPrefix | generate_streaks.js:53-95 | on time-ordered readings the segmenter's state is ordered up to the last reading's date |
| Segmenter.StreaksInTimeOrder | generate_streaks.js:79-88 | on time-ordered readings every streak has `start ≤ end`, `durationMs = end − start`, and follows the previous one |
| Segmenter.SingleRow | generate_streaks.js:80 | a single qualifying reading gives one streak with `start = end` and duration 0 |
| Segmenter.GapOfExactlyOneDay | generate_streaks.js:67 | a gap of exactly 24 h does not split a streak |
| Segmenter.GapOverOneDay | generate_streaks.js:67-73 | a gap of 24 h plus 1 ms splits a streak in two |
| StreakGeneration.ObserveMonotone | generate_streaks.js:76 | observing keeps every reading's date, and a reading that qualifies at one threshold qualifies at every higher one |
| StreakGeneration.ThresholdInDegrees | generate_streaks.js:76 | −0.5 °C does not meet −1 °C, −1.0 °C does, and −4.8 °C does not meet −5 °C |
| StreakGeneration.TwoColumnRow | generate_streaks.js:59-64 | a `date, temp` row reads its date and its second field |
| StreakGeneration.FourColumnRow | generate_streaks.js:59-64 | a four-field row takes its temperature from field 4 when that is non-empty, otherwise from field 2 |
| StreakGeneration.ThresholdScan.constructor | generate_streaks.js:48-51 | a fresh scan has seen no readings |
| StreakGeneration.ThresholdScan.Feed | generate_streaks.js:62-94 | the loop body adds one reading; the scan's fields stay equal to the segmenter over all readings so far, with the interval rows of the closed streaks |
| StreakGeneration.ThresholdScan.FeedLine | generate_streaks.js:59-65 | a line adds what the row reader makes of it (nothing for a row with fewer than two fields) |
| StreakGeneration.ThresholdScan.Finish | generate_streaks.js:97-130 | the trailing streak is pushed with its ongoing flag and its row is written; the result is `Summary` of the state before |
| StreakGeneration.ScanLines | generate_streaks.js:53-95 | the `for await` loop skips the header and has fed exactly the readings of the remaining lines |
| StreakGeneration.FindStreaksForThreshold | generate_streaks.js:41-131 | the method's result and rows are the specification `FindStreaks` |
| StreakGeneration.FinishedMatchesAll | generate_streaks.js:110-111 | the pushed list has the segmenter's streaks with the same start, end, count and duration; the trailing one gets only its ongoing flag |
| StreakGeneration.IntervalRowsAreRuns | generate_streaks.js:67-114 | the interval rows of a threshold are exactly the maximal qualifying runs, element for element, the trailing one included |
| StreakGeneration.SummaryInIntervalTable | generate_streaks.js:112-129 | every top-ten entry and the current entry has its `threshold,start,end` row |
| StreakGeneration.TopRowsListed | generate_streaks.js:117-125 | each top-ten streak of a list is among the list's rows |
| StreakGeneration.CurrentStreakRule | generate_streaks.js:97-115 | `current` is present iff the last reading qualifies and is less than 48 h older than `now`; it is then the last streak, flagged ongoing, and ends at the last reading, never at `now`; no earlier streak is ongoing |
| StreakGeneration.TopTenRule | generate_streaks.js:117-125 | `top10` has min(10, n) entries in non-increasing duration, each one of the streaks, and no streak it leaves out lasts longer than any entry |
| StreakGeneration.StreaksWellFormed | generate_streaks.js:87-110 | on time-ordered readings every pushed streak has `start ≤ end` and `durationMs = end − start` |
| StreakGeneration.HourlyExample | generate_streaks.js:76-115 | readings −5.0, −6.0, then +3.0 one hour apart give one closed 1 h streak and no current streak |
| StreakGeneration.RowsLabelled | generate_streaks.js:71 | every row written by a pass carries that pass's threshold |
| StreakGeneration.Thresholds | generate_streaks.js:17-20 | the thresholds are 0, −1, …, −25 in that order |
| StreakGeneration.RowsOfConcat | generate_streaks.js:23-33 | selecting one threshold's rows distributes over writing one pass after another |
| StreakGeneration.IntervalTableByThreshold | generate_streaks.js:26-33 | with distinct thresholds, the rows of one threshold in the whole table are exactly that pass's rows, or none for a threshold not run |
| StreakGeneration.TableComplete | generate_streaks.js:17-33 | for each of the 26 thresholds, its rows in the interval file are exactly its own pass's rows |
| StreakGeneration.RunPasses | generate_streaks.js:26-33 | after the loop `streakData` has exactly the keys −25…0, each with its pass's `{top10, current}`, and the interval file holds the passes' rows in threshold order |
| StreakGeneration.GenerateStreaks | generate_streaks.js:9-39 | no output without an input file; otherwise one entry per threshold −25…0 equal to `findStreaksForThreshold`'s result; the interval file is the passes' rows in threshold order 0, −1, …, −25 and nothing else, so each threshold's rows are exactly that pass's rows |
| AnalyzeTemps.ObserveModes | analyze_temps.js:55 | observing keeps every reading's date; any mode other than "above" acts as "below"; a non-numeric reading meets neither; a numeric one meets at least one, and both exactly when it equals the threshold |
| AnalyzeTemps.StreakSearch.constructor | analyze_temps.js:31-33 | a fresh search has seen no readings, for the given threshold and mode |
| AnalyzeTemps.StreakSearch.Feed | analyze_temps.js:44-72 | the loop body adds one reading and keeps `currentStreak` and `streaks` equal to the segmenter over all readings so far |
| AnalyzeTemps.StreakSearch.FeedLine | analyze_temps.js:41-45 | a line adds its reading, or nothing when the date or the temperature field is missing |
| AnalyzeTemps.StreakSearch.Finish | analyze_temps.js:76-101 | the trailing streak is pushed under the 24 h rule and the result is the top ten of the list |
| AnalyzeTemps.ScanLines | analyze_temps.js:35-73 | the loop skips the header and has fed exactly the readings of the remaining lines |
| AnalyzeTemps.FindLongestStreaks | analyze_temps.js:24-102 | the method's result is the specification `LongestStreaks` |
| AnalyzeTemps.FinishedVsAll | analyze_temps.js:76-96 | the pushed list equals the segmenter's streaks except possibly the last, which is the trailing streak closed under the 24 h rule |
| AnalyzeTemps.FinishedRuns | analyze_temps.js:48-96 | the pushed streaks start at the maximal runs' starts; the streaks that are not ongoing end at the runs' ends with `durationMs = end − start`; only the last can be ongoing |
| AnalyzeTemps.StreaksAreRuns | analyze_temps.js:35-96 | the same, for the streaks found in a file |
| AnalyzeTemps.TrailingStreakRule | analyze_temps.js:76-96 | a trailing run makes a last streak with the run's start and count; it is ongoing iff `now − end < 24 h`, and then `end = now` and `durationMs = now − start`, otherwise it ends at the last reading |
| AnalyzeTemps.RowsCounted | analyze_temps.js:58-64 | the streaks' counts add up to the number of qualifying readings |
| AnalyzeTemps.TopTenRule | analyze_temps.js:99-101 | at most 10 results, min(10, n) of them, in non-increasing duration, a sub-multiset of the streaks, and no streak left out lasts longer than any result |
| AnalyzeTemps.Breakdown | analyze_temps.js:8-11 | for `ms ≥ 0`: `days·1440 + hours·60 + minutes = floor(ms / 60000)` with `hours < 24` and `minutes < 60`; all parts are zero iff `ms < 60000` |
| AnalyzeTemps.PartReadsBack | analyze_temps.js:14-16 | a part "n unit(s)" reads back to n times its unit and holds no ", "; a positive part is accepted by the strict reader, so its unit is singular exactly when n is 1 |
| AnalyzeTemps.StrictWordIff | analyze_temps.js:14-16 | the strict reader accepts after the number n exactly "day", "hour" or "minute" followed by `s` unless n is 1 |
| AnalyzeTemps.StrictPartOfNumber | analyze_temps.js:14-16 | after a positive number written in decimal, a part is read by its unit word alone |
| AnalyzeTemps.LeadingZeroRefused | analyze_temps.js:14-16 | a part whose number starts with 0, a zero part included, is refused |
| AnalyzeTemps.FormatDurationReadsBack | analyze_temps.js:7-19 | reading the formatted duration back (split on ", ", sum of parts) gives `floor(ms / 60000)`; the strict reader gives it too, so zero components are left out, the units come in the order days, hours, minutes, hours are below 24, minutes below 60, and each unit is singular exactly when its number is 1 |
| AnalyzeTemps.FormatDurationStrict | analyze_temps.js:13-18 | for `ms ≥ 60000` the text is accepted by the strict reader with value `floor(ms / 60000)` |
| AnalyzeTemps.ZeroMinutesIff | analyze_temps.js:18 | the text is "0 minutes" exactly when `ms < 60000` |
| Ranking.InsertKeepsElements | generate_streaks.js:117-118 | inserting into the sorted prefix adds exactly that element |
| Ranking.InsertSorted | generate_streaks.js:118 | inserting into a list sorted by descending duration keeps it sorted |
| Ranking.InsertStable | generate_streaks.js:117-118 | among streaks of one duration, insertion keeps their order, the inserted one first |
| Ranking.SortIsStableSort | generate_streaks.js:117-118 | the sort is sorted by descending duration, a permutation, and stable: for every duration the subsequence of streaks with it is unchanged |
| Ranking.DroppedNoLonger | generate_streaks.js:117-119 | every streak the top ten drops, counted with multiplicity, lasts no longer than every streak it keeps |
| Ranking.TopTenFacts | generate_streaks.js:117-119 | the top ten has min(10, n) elements, is sorted, a sub-multiset and a prefix of the sorted list, and lasts at least as long as every streak it leaves out |
| Ranking.PrefixFacts | analyze_temps.js:99-101 | a prefix of a sorted list is sorted, a sub-multiset, and no shorter than anything after it |
| Common.Breakdown | common.js:27-29 | for `ms ≥ 0`: `days = floor(ms / 86400000)`, `hours < 24`, `minutes < 60`, and the whole minutes lie in `(ms − 60000, ms]` |
| Common.DecomposeMs | common.js:27-29 | the decomposition's minutes sum is at most `ms` and within 60000 of it |
| Common.TrimmedIsJoin | common.js:31-35 | the trimmed text is the non-zero tokens `p`, `h`, `m` in that order, joined by single spaces |
| Common.ShownReadsBack | common.js:31-35 | splitting the text on spaces gives back the tokens, and reading them gives the minutes of the breakdown |
| Common.FormatDurationReadsBack | common.js:26-36 | reading the short duration back gives `floor(ms / 60000)` |
| Common.BreakdownMinutes | common.js:27-29 | the breakdown's minutes are `floor(ms / 60000)` |
| Common.ShownZero | common.js:35 | the text is "0m" exactly when no part is positive |
| Common.ZeroMinutesIff | common.js:35 | the text is "0m" iff `ms < 60000`, and it has no leading or trailing space |
| Common.ShownUnpadded | common.js:35 | the shown text never starts or ends with white space |
| JsNumber.JsRem | common.js:28-29 | JavaScript `%` with a positive divisor: the dividend minus a multiple of the divisor, smaller than the divisor in size and never of the opposite sign to the dividend |
| JsNumber.JsRemUnique | common.js:28-29 | those properties determine the remainder, so they characterize truncated `%` completely |
| DateFormat.ReadDate | compact_data.js:7-15 | a text that reads as a date is in range |
| DateFormat.TwoDigits | compact_data.js:9-13 | `padStart(2, '0')` of a number below 100 is two digits with that value |
| DateFormat.DigitsRoundTrip | compact_data.js:8 | the digits of a number without a leading zero read back to that text |
| Text.IntToStringReadsBack | compact_data.js:8-14 | `String(n)` reads back: a minus sign exactly when negative, then the digits of the size without leading zeros |
| DateFormat.Layout | compact_data.js:14 | the text is 19 characters with `-`, `-`, space, `:`, `:` at fixed places and the padded fields between them |
| DateFormat.FormatDateReadsBack | compact_data.js:7-15 | reading back `YYYY-MM-DD HH:mm:ss` gives the same date, month one-based in the text |
| DateFormat.ReadDateIsFormatted | compact_data.js:7-15 | every text that reads as a date is that date formatted |
| DateFormat.ReadDateIff | refresh_data.js:11-19 | a text reads as a date iff it is its formatting and the date is in range |
| DateFormat.NoComma | compact_data.js:14 | a formatted date holds no comma, so it stays one CSV field |
| HourlyBuckets.HourMark | compact_data.js:63-67 | the mark is a whole hour and the ceiling to the hour of the reading's time with the milliseconds dropped |
| HourlyBuckets.HourMarkOfFullHour | compact_data.js:61-67 | a reading at exactly HH:00:00 is its own mark |
| HourlyBuckets.HourMarkMonotone | compact_data.js:63-67 | later readings never get earlier marks |
| HourlyBuckets.PendingHasLatestMark | compact_data.js:69-97 | a bucket is pending iff any reading was accepted, and its mark is the latest record mark |
| HourlyBuckets.MarksAreRecords | compact_data.js:73-91 | the emitted marks are exactly the running record marks of the readings, the last being the latest |
| HourlyBuckets.RecordsBelowLatest | compact_data.js:73 | every record mark is at most the latest one |
| HourlyBuckets.RecordsIncrease | compact_data.js:73 | the record marks strictly increase |
| HourlyBuckets.MarksIncrease | compact_data.js:73-91 | the emitted rows' marks strictly increase |
| HourlyBuckets.NoFillerRows | compact_data.js:79-85 | there are at most as many rows as readings, and every row's mark is the mark of some reading, so gaps get no rows |
| HourlyBuckets.RowsSound | compact_data.js:87-97 | in every row `min ≤ last ≤ max`, each one the temperature of some reading |
| HourlyBuckets.RowsCover | compact_data.js:92-97 | every reading lies between some row's min and max, in a row whose mark is at or after its own |
| HourlyBuckets.LastRowEndsWithLastReading | compact_data.js:96-109 | the last row's `last` is the last reading's temperature |
| HourlyBuckets.TempsInMembers | compact_data.js:87-97 | a temperature is among a bucket's readings iff some reading folded into that bucket (the latest mark up to and including it equals the bucket's mark) has it |
| HourlyBuckets.RowsHoldTheirReadings | compact_data.js:87-97 | every row's min and max are the minimum and maximum of exactly the readings folded into its bucket, and its last is the last of them in input order |
| HourlyBuckets.EveryReadingHasRow | compact_data.js:69-108 | every reading is folded into a written row, the one whose mark is its bucket mark |
| HourlyBuckets.FoldsIntoPending | compact_data.js:92-97 | a reading whose mark is not later than the current one, out of order ones included, only widens the pending bucket |
| HourlyBuckets.RowsExactlyWhenReadings | compact_data.js:106-109 | there is a row iff some reading was accepted |
| CompactData.AcceptReading | compact_data.js:69-97 | one loop step moves the locals from the fold's state to the state after absorbing the reading, writing a row exactly when a bucket closes |
| CompactData.CompactLines | compact_data.js:42-109 | the loop and the final write produce the rows of the specification fold over the accepted readings, with `rowsProcessed` and `hoursWritten` |
| CompactData.CompactFile | compact_data.js:17-113 | no output without an input file, otherwise the specification report |
| CompactData.HeaderIgnored | compact_data.js:43-46 | the first line never affects the result |
| CompactData.LineWithoutSeparatorSkipped | compact_data.js:48-49 | a line without ", " is skipped |
| CompactData.WellFormedLine | compact_data.js:48-58 | a `date, temp` line is accepted iff its temperature is a number, with that date and temperature |
| CompactData.ReportFacts | compact_data.js:99-109 | `hoursWritten` is the number of rows, at most `rowsProcessed`, which counts the accepted readings; there is a row iff some reading; `min ≤ last ≤ max`; the last row ends with the last reading |
| CompactData.ReportOfFacts | compact_data.js:99-109 | the same, for the report of any sequence of readings |
| CompactData.RowDateReadsBack | compact_data.js:76-107 | each written row's date reads back to its bucket's calendar date |
| RefreshData.NextReading | refresh_data.js:95-111 | one step after the first: a strictly later mark writes the bucket and opens a new one; otherwise min, max and last are updated |
| RefreshData.FirstReading | refresh_data.js:86-93 | the first accepted reading opens a bucket with `min = max = last = temp` and writes nothing |
| RefreshData.AcceptReading | refresh_data.js:86-113 | a step keeps the locals equal to the fold over the accepted readings, with the counters |
| RefreshData.CompactStored | refresh_data.js:50-122 | the loop and the final write produce the specification report of the accepted readings |
| RefreshData.CompactFile | refresh_data.js:24-132 | no output without the data file, otherwise the specification report |
| RefreshData.DateFromComponents | refresh_data.js:64-76 | a `YYYY-MM-DD HH:mm:ss` text is a valid date iff all six fields are numbers; it is then the local time built from them with the month made zero-based |
| RefreshData.BuildFromThree | refresh_data.js:67-71 | building from three date and three time fields succeeds iff all six are numbers |
| RefreshData.FilterCounts | refresh_data.js:219-222 | the filter keeps every kept line as often as it occurs and no other line |
| RefreshData.DataLinesAppend | refresh_data.js:218-222 | filtering distributes over concatenation |
| RefreshData.DataLinesExactly | refresh_data.js:219-222 | the fetched lines kept are exactly those non-empty after trimming that start with neither `Aeg` nor `<` |
| RefreshData.LastIndex | refresh_data.js:166-171 | the last index of a line that counts, or −1: it counts and no later line does |
| RefreshData.LatestDate | refresh_data.js:160-176 | a latest date is only found in an existing file |
| RefreshData.GetLatestDateInFile | refresh_data.js:160-176 | the loop finds the specification's latest date |
| RefreshData.LatestDateSnoc | refresh_data.js:167-171 | a new line that counts becomes the latest date's line; one that does not count changes nothing |
| RefreshData.LatestDateNone | refresh_data.js:173 | there is no latest date iff no line is non-blank and free of an `Aeg` prefix |
| RefreshData.PlanFacts | refresh_data.js:199-235 | the chunks are empty iff the start is not before `now`; they start at the start, end at `now`, are contiguous, and each ends one year later, capped at `now` |
| RefreshData.AttemptedFacts | refresh_data.js:216-233 | the fetched chunks are a prefix of the plan; all but the last succeeded; stopping early means the last one failed |
| RefreshData.AppendData | refresh_data.js:218-226 | appending a fetched text adds exactly its kept lines |
| RefreshData.FetchChunks | refresh_data.js:199-237 | the loop fetches the attempted chunks and appends their kept lines |
| RefreshData.Refresh | refresh_data.js:178-241 | the method's outcome is the specification `Refreshing` |
| RefreshData.StartFrom | refresh_data.js:182-196 | starting from the latest date, the method's outcome is `RefreshFrom` |
| RefreshData.ResumeFrom | refresh_data.js:193-240 | from a start date, the outcome is `Resume`: up to date, or fetched and then compacted |
| RefreshData.SavedAreKept | refresh_data.js:219-225 | every appended line passes the filter |
| RefreshData.ResumeFacts | refresh_data.js:199-240 | the file keeps its old lines plus kept lines only; the report is the compaction of the new file; the chunks start at the start date, are contiguous, all but the last fetched, and reach `now` when the last succeeded |
| RefreshData.AppendedFacts | refresh_data.js:224-226 | appending keeps the old lines as a prefix and adds only kept lines |
| RefreshData.RequestFacts | refresh_data.js:199-237 | the attempted chunks start at the start date, stay before `now`, are contiguous, stop at the first failure, and reach `now` otherwise |
| RefreshData.RefreshCases | refresh_data.js:178-241 | refreshing stops iff the latest date is invalid; it is up to date iff start ≥ `now`, where the start is latest + 300000 ms or 1999-11-01; the old file is kept as a prefix; a new file starts with its header; the chunks start at the start |
| RefreshData.RefreshFromCases | refresh_data.js:182-240 | the same from a given latest date |
| RefreshData.ResumeShape | refresh_data.js:193-237 | resuming never stops; it is up to date iff the start is not before `now`; the old lines stay a prefix |
| ConvertToravere.DigitFields | convert_toravere.js:7-12 | for digit fields `formatDateTime` gives the same text as `formatDate` of that date, seconds 00 |
| ConvertToravere.FormatDateTimeIsFormatDate | convert_toravere.js:7-12 | with padded fields matching a date, `formatDateTime` is `formatDate` of it |
| ConvertToravere.TimeWithoutMinutes | convert_toravere.js:10-11 | a time without `:` puts `undefined` where the minutes go |
| ConvertToravere.ConvertLines | convert_toravere.js:34-64 | the loop writes the rows of the data lines, in order, and `rowsProcessed` counts them |
| ConvertToravere.ConvertFile | convert_toravere.js:14-68 | no output without an input file, otherwise the header and the converted rows |
| ConvertToravere.FirstThreeIgnored | convert_toravere.js:35-36 | the first three lines never affect the result |
| ConvertToravere.CollectAppend | convert_toravere.js:34-64 | converting distributes over concatenated lines |
| ConvertToravere.CollectFromLines | convert_toravere.js:50-60 | every output row comes from some line, and every accepted line's row is output |
| ConvertToravere.ConversionFacts | convert_toravere.js:27-60 | the header is written first; `rowsProcessed` counts the rows; every row comes from a line after the third; every accepted line is written, in order |
| ConvertToravere.CollectedFacts | convert_toravere.js:34-60 | the same, for any line reader |
| ConvertToravere.FieldsLine | convert_toravere.js:38-56 | a row with fewer than 12 fields is skipped; otherwise it is written iff field 9 is a number, with the formatted date, that temperature, and min and max from fields 10 and 11, falling back to the temperature |
| Graph.Step | graph.js:72 | `step = ceil(len / maxPoints)`: `step·maxPoints ≥ len`, and `step − 1` is too small |
| Graph.TakenBound | graph.js:72-77 | stepping by `ceil(len / maxPoints)` takes at most `maxPoints` points |
| Graph.Stepped | graph.js:75-77 | the loop takes `data[0], data[step], data[2·step], …` in index order |
| Graph.Downsample | graph.js:69-84 | at most `maxPoints` points come back unchanged; otherwise every step-th point from the first, then the last appended when it was not already taken; the last point is always last, and there are at most `maxPoints + 1` |
| Graph.PointAt | graph.js:429-435 | the index stays within the data; on date-sorted data every point before it is earlier than the target, and it is at or after the target unless it is the last |
| Graph.TopStreaksOfPass | graph.js:58-66 | nothing without data or without threshold 0; for the threshold-0 pass's data, at most ten rows, numbered from 1, longest streak first, each one of the pass's streaks with its start, end and label |
| Graph.ClipFacts | graph.js:137-153 | a streak is drawn iff it shares an instant with the chart; the drawn part is exactly the intersection; it is labelled iff the drawn part is at least half the streak; a streak inside the chart is drawn whole and labelled |
| StreaksView.TableOfSnoc | streaks.js:17-26 | one more line appends its row to its threshold's list, or changes nothing when blank |
| StreaksView.TableByKey | streaks.js:17-26 | a threshold's list is its rows in file order; a threshold has a list iff some row names it |
| StreaksView.RowLine | streaks.js:18-25 | a `threshold,start,end` line gives that threshold with the two parsed dates |
| StreaksView.IntervalCache.constructor | streaks.js:2 | the cache starts empty |
| StreaksView.IntervalCache.Record | streaks.js:21-25 | recording a row appends its interval to its threshold's list |
| StreaksView.IntervalCache.Load | streaks.js:15-26 | loading skips line 0 and fills the cache with the file's table |
| StreaksView.IntervalCache.LoadWith | streaks.js:16-26 | the same loop for any row reader |
| StreaksView.SeasonKeyInjective | streaks.js:56 | two winter keys are equal iff their years are |
| StreaksView.WinterKeysAgree | streaks.js:56-64 | two intervals share a winter key iff both lack a date, or both start in the same season (January–April count to the previous year) |
| StreaksView.SeededFacts | streaks.js:50-58 | the threshold-0 pass opens exactly the winters of the threshold-0 intervals, all empty |
| StreaksView.GroupedKeys | streaks.js:60-67 | after grouping the winters are the seeded ones plus those of the chosen intervals, without duplicates |
| StreaksView.GroupedList | streaks.js:65-66 | each winter's list is its seeded list plus the chosen intervals of that winter, in input order |
| StreaksView.BelowTotal | streaks.js:70 | string order is total |
| StreaksView.BelowTransitive | streaks.js:70 | string order is transitive |
| StreaksView.InsertFacts | streaks.js:70 | inserting a key keeps the keys ascending and adds exactly that key |
| StreaksView.SortKeysFacts | streaks.js:70 | the sorted keys are ascending and a permutation of the keys |
| StreaksView.SeedWinters | streaks.js:50-58 | the loop builds the seeded grouping |
| StreaksView.FillWinters | streaks.js:60-67 | the loop builds the grouping of the chosen intervals |
| StreaksView.SortWinters | streaks.js:69-72 | the winters come out in sorted key order with their lists |
| StreaksView.AnalyzeStreaks | streaks.js:29-75 | the method computes the specification `Analyzed` from the cache |
| StreaksView.AnalyzedStreaks | streaks.js:30-48 | an unknown threshold gives an empty top ten and no current streak; otherwise one view per entry with its times and duration, not current; a current view exists iff one was precomputed, and is tagged current |
| StreaksView.SortedWinters | streaks.js:69-72 | the winters are in strictly ascending key order, exactly the grouping's keys, each with its list |
| StreaksView.WintersFacts | streaks.js:50-74 | the winters ascend; a winter appears iff a threshold-0 or a chosen interval falls in it; each holds exactly the chosen intervals of that winter, in order |
| StreaksView.MatchingMembers | streaks.js:60-67 | an interval is in a winter's list iff it is a chosen interval of that winter |
| StreaksView.FirstSameStart | streaks.js:111 | `find` returns the first view with that start, or none when no view has it |
| StreaksView.ShowCurrentSeparately | streaks.js:111 | the current streak gets its own card iff it exists and no top-ten entry starts at the same time |

## Left out

- Network: `fetchDataRange` and all of `fetch_data.js` are HTTPS I/O. The model takes the fetch as a function from a chunk to its text, or to a failure.
- The fetch request's calendar fields are left out: the year, month and day sent for a chunk's start and end (refresh_data.js:205-214) are not modelled, only the chunk's timestamps.
- File and stream plumbing: `fs`, `readline`, `existsSync`, `appendFileSync` and stream writes. Files are sequences of lines, a missing file is `None`, and written files are sequences of records.
- `toFixed(1)` output and the `avgTemp` division of `analyze_temps.js` are floating point and are not modelled. Temperatures are integers in tenths, which the code only compares and copies. A reading with more than one decimal is not modelled: `parseTemp` gives tenths.
- JavaScript `Date`: string parsing, the local time zone, DST, and `setFullYear` / `setHours` rollover. Date parsing, the local calendar, `toISOString` and "one year later" are parameters.
- HourlyBuckets.HourMark: it is stated on millisecond timestamps, with the local time zone's offset assumed to be whole hours. DST transitions are out of scope.
- StreakGeneration.LineSample, StreakGeneration.Samples and AnalyzeTemps.LineReading: the date parser always returns a number, so the invalid `Date` of generate_streaks.js:63 and analyze_temps.js:44 is not modelled. In the code a NaN date never closes a streak on a gap, but a qualifying reading with it still opens or extends one. `generate_streaks.js` then throws from `toISOString` when it writes that streak's row, which ends the run. `analyze_temps.js` gives that streak a NaN duration, which breaks the order of the ranking.
- CompactData.LineReading: the date parser always returns a number. The invalid `Date` of `compact_data.js`, whose NaN mark fails every comparison, is not modelled. In `refresh_data.js` an invalid date is skipped, and that is modelled.
- The wall clock (`new Date()`) and the one-second wait between fetches: `now` is a parameter, and the wait does not change the result.
- StreakGeneration.RunPasses and StreakGeneration.GenerateStreaks: one instant `now` serves all 26 passes. The code reads the clock again in every pass (generate_streaks.js:99), so its passes can differ by the milliseconds between them at the 48 h freshness test.
- Console output and the progress messages.
- `updateNavLinks` in `common.js`, all DOM, SVG and D3 rendering, `heatmap.js`, `server.js` and `config.js`: these are presentation, configuration or a file server.
- `parseCSV` in `graph.js`: the `continue` for rows after April skips the cursor advance, so as written it never terminates on such a row. A terminating version would not be faithful, so it is not modelled.
- The zero-crossing interpolation and the chart scales of `graph.js` are floating point.
- Graph.Downsample: it requires `maxPoints > 0`. The only call passes 3000, and 0 would make the step infinite.
- The `!==` object test in `downsample` is modelled as a test on the index of the last taken point. The points are distinct objects, so the two agree.
- StreaksView.SortKeys: JavaScript's default `sort` compares UTF-16 code units. The model compares characters, which agrees for the ASCII digits, `-` and `/` of winter keys.
- The thresholds of the streak JSON are looked up in the interval table by their decimal text (`IntToString`), as JavaScript's object keys are.
- The JSON and CSV encodings of the outputs are not modelled. `streakData` is a map from threshold to result, and interval rows are records of integers.
- The `lastDataPoint` of `generate_streaks.js` is assigned before a row's temperature is checked, so it is the last row read even when that row does not qualify. The model keeps it so.
- `async` / `await`, `Promise.all` and the timer yields are sequential in the model.

## The ongoing streak's end

In `generate_streaks.js` an ongoing streak's `end` stays at the last reading,
both in the streak list and in the interval file. `end` is never moved, and
`durationMs` is set again to `end − start` before the push
(generate_streaks.js:110). So the ongoing streak ends at the last reading,
like `current` (see `StreakGeneration.CurrentStreakRule`).
`analyze_temps.js` does extend the end to `now` (analyze_temps.js:86-89),
and `AnalyzeTemps.TrailingStreakRule` states that.
