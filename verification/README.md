# Appraise annotator analytics, in Dafny

Appraise is a Django framework for human evaluation of machine translation.
This project models the part of it that turns annotators' completed results
into analytics. It also models the two management commands that export
system scores.

- **Campaign status rows** (`Campaign/views.py`). For each team member the
  status page reads the member's completed results and normalises them
  into data rows. From those it derives:
  - the number of distinct items annotated;
  - the first and last modification times;
  - a coarse time span and a busy ("real") time;
  - a reliability p-value computed from `TGT` against `BAD` control items;
  - a progress text and one of five status symbols.

  The rows are then sorted by a column the visitor picks. A separate page,
  shown when a campaign has the `esa` option, computes its own progress
  cell, status symbol and two time cells.
- **CSV export** (`ExportSystemScoresToCSV`). It can limit the export to
  the *shadow accounts* left behind by task-agenda resets. Those are
  inactive users named `{original}-{two hex digits}`. It concatenates the
  scores of every task type the campaign has, writes one row per score
  tuple and reports the count.
- **JSONL export** (`ExportSystemScoresToJSONL`). It exports document
  results one line per result. With the `contrastiveesa` campaign option
  it instead groups them by (annotator, document) into one line carrying
  every target variant. Pairwise results go one line per result, with a
  second target only when one exists.

The modules follow the program:

| module | file | what |
|---|---|---|
| `Base` | base.dfy | Python idioms the code leans on: `map`, list filtering, `min`/`max`, `set(...)`, `str.lower`, `str.split(';')`/`join`, decimal and `str(int)`/`int(str)` text |
| `Grouping` | grouping.dfy | the insertion-ordered `defaultdict(list)` group-by, as a loop over a `map` |
| `Duration` | duration.dfy | `_format_duration` and the ESA page's inline rendering |
| `Status` | status.dfy | `_derive_status_emoji`, the progress cell, the ESA page's symbol and progress |
| `Timing` | timing.dfy | first/last epoch, coarse span, busy time, MQM per-document time pairs |
| `Records` | records.dfy | the normalised data row and the distinct-annotation count |
| `Reliability` | reliability.dfy | `stat_reliable_testing` |
| `StatusRows` | statusrows.dfy | `_collect_campaign_status_rows` and the ESA page's time cells |
| `RowSort` | rowsort.dfy | `_sort_campaign_rows`, as a stable insertion sort on an array |
| `CsvExport` | csvexport.dfy | the shadow-account pattern, the reset filter, the accumulation loop |
| `JsonlExport` | jsonlexport.dfy | the document, ContrastiveESA and pairwise exports and their dispatch |

The code's loops are modelled as methods: the group-by, the reliability
partition, the matched-means loop, the row collection, the in-place sort,
the reset filter and the export loops. Most are proved equal to a function
that states the result, and the properties are lemmas about those
functions. Three are tied to a specification of another kind:
`Reliability.Partition` to the `IsScoreMap` predicate, `Reliability.MatchedMeans`
to the properties of its keys and means, and `StatusRows.CollectStatusRows`
to the `Describes` relation, member by member.

## Model

| member | source | states |
|---|---|---|
| Duration.Trunc | Campaign/views.py:40 | `int()` on a float truncates toward zero: the result is within one of `x` on the side of zero |
| Duration.ClockOf | Campaign/views.py:40-42 | negative seconds clamp to 00h00m; otherwise minutes < 60 and `hours*3600 + minutes*60 <= s < that + 60` (truncation, never rounding) |
| Duration.FormatDuration | Campaign/views.py:36-44 | `None` maps to `None`; otherwise the text parses back to exactly the clock reading of the seconds and the chosen separator, and below 100 hours it is zero-padded to two digits before `h` (6 characters, 7 with the space) |
| Duration.Render | Campaign/views.py:43-44 | the `{hours:0>2d}h{sep}{minutes:0>2d}m` text; ParseRender reads it back to the same clock reading and separator |
| Duration.ParseRender | Campaign/views.py:44 | the `{hours:0>2d}h{sep}{minutes:0>2d}m` rendering is read back to the same hours, minutes and separator choice |
| Duration.FlooredClock | Campaign/views.py:603 | the ESA page's `floor(t/3600)` and `floor((t % 3600)/60)` give minutes in [0,60) bracketing `t` for any sign of `t` |
| Duration.EsaRender | Campaign/views.py:603 | the ESA page's inline rendering; EsaRenderAgrees equates it with `_format_duration(t, with_space=True)` on non-negative times |
| Duration.PadInt | Campaign/views.py:603 | `{n:0>2d}` is at least two characters for any integer |
| Duration.EsaRenderAgrees | Campaign/views.py:603 | on non-negative times the ESA page's inline rendering equals `_format_duration(t, with_space=True)` |
| Duration.ClockUnique | Campaign/views.py:41-42 | a whole-minute reading bracketing a time is unique |
| Status.DeriveStatus | Campaign/views.py:98-115 | the five symbols are characterised one by one (blocked iff inactive; error iff active with annotations and no total; complete iff a non-zero total is reached; and so on), so they are exhaustive and mutually exclusive |
| Status.ProgressOf | Campaign/views.py:256-262 | `Task not found` iff there is no total and there are annotations; `0/0` iff the total is 0; otherwise a fraction whose ratio is `annotations/total` capped at 1, and equals 1 iff the total is reached |
| Status.ProgressText | Campaign/views.py:256-262 | the progress cell text of each case; ProgressOf and StatusMatchesProgress state which case applies |
| Status.StatusMatchesProgress | Campaign/views.py:255-266 | for an active member the symbol and progress never disagree: error iff `Task not found`, complete iff 100%, in progress against a total strictly between 0% and 100% |
| Status.EsaStatus | Campaign/views.py:555-590 | ESA page: no data gives 💤 with `No task assigned` or `0/total`; data without a task gives ❌ `Task not found`; otherwise ✅ iff the distinct count equals the total exactly, an uncapped ratio, and a failing division when the total is 0; agrees with `_derive_status_emoji` whenever `0 < count <= total` |
| Status.EsaOverCount | Campaign/views.py:586-590 | with more distinct items than the task holds, the status page says ✅ while the ESA page says 🛠️ with a ratio above 100% |
| Records.AnnotationCount | Campaign/views.py:212 | the number of distinct item ids is at most the number of rows, and zero iff there are none |
| Timing.FirstEpoch | Campaign/views.py:213-215 | `None` iff there are no rows; otherwise a start time that is at most every start time |
| Timing.LastEpoch | Campaign/views.py:214-216 | `None` iff there are no rows; otherwise an end time that is at least every end time |
| Timing.CoarseSeconds | Campaign/views.py:230-232 | `None` iff either epoch is missing; otherwise `max(int(last - first), 0)`: zero when last precedes first, else the truncated difference |
| Timing.Insert | Campaign/views.py:607 | inserting into a sorted list keeps it sorted and adds exactly the element |
| Timing.SortTimes | Campaign/views.py:607 | `sorted(...)`: the result is sorted and a permutation of the input |
| Timing.AllTimes | Campaign/views.py:607 | all starts followed by all ends: twice as many times as intervals |
| Timing.SortedUnique | Campaign/views.py:607 | two sorted permutations of the same times are equal, so `sorted` has one answer |
| Timing.SortedSameLast | Campaign/views.py:607 | two sorted permutations share their largest element |
| Timing.SortedLastIsMax | Campaign/views.py:607 | the last element of a sorted list is its maximum |
| Timing.SortedFirstIsMin | Campaign/views.py:607 | the first element of a sorted list is its minimum |
| Timing.GapSumBounds | Campaign/views.py:608 | the sum of kept neighbour gaps of a sorted list lies between 0 and last minus first |
| Timing.GapSum | Campaign/views.py:608 | the sum of neighbour gaps shorter than 600 s; GapSumBounds bounds it by 0 and last minus first |
| Timing.BusyTimeBounds | Campaign/views.py:607-608 | `0 <= busy <= max(times) - min(times)` |
| Timing.BusyTime | Campaign/views.py:607-608 | the gap sum over the sorted starts and ends; BusyTimeBounds, BusyTimeWithinCoarseSpan, BusyTimeOrderIndependent and BusyTimeSingle characterise it |
| Timing.BusyTimeWithinCoarseSpan | Campaign/views.py:602-608 | when every interval ends after it starts, busy time never exceeds last end minus first start, the coarse column |
| Timing.BusyTimeOrderIndependent | Campaign/views.py:607-608 | the busy time depends only on the multiset of intervals, not their order |
| Timing.BusyTimeSingle | Campaign/views.py:607-608 | a single interval counts in full when shorter than 600 s, and not at all otherwise |
| Timing.Span | Campaign/views.py:177-183 | `(min start, max end)` of a group: bounds every row, attained by some row, and start <= end when every row's is |
| Timing.DocKey | Campaign/views.py:175 | the `documentID ||| targetID` key; DocTimePairs groups by it |
| Timing.SpansAlong | Campaign/views.py:177-183 | one time pair per key, in key order |
| Timing.SpansAlongAt | Campaign/views.py:177-183 | the i-th time pair is the span of the i-th key's rows |
| Timing.DocTimePairs | Campaign/views.py:173-183 | the `defaultdict` loop and comprehension give the keys `documentID ||| targetID` in first-appearance order and exactly the per-key spans |
| Timing.DocSpans | Campaign/views.py:173-183 | one time pair per distinct document key; DocSpanOfKey states the i-th is that key's span |
| Timing.DocSpanOfKey | Campaign/views.py:173-183 | there is exactly one time pair per distinct key, and the i-th is the span of the i-th key |
| Timing.DocTimePairOrdered | Campaign/views.py:173-183 | every key has rows, and its pair has start <= end when every row does |
| Grouping.KeyOrder | Campaign/views.py:173-175 | the distinct keys, each exactly once, and exactly those occurring; their order is first appearance (KeyOrderFirstAppearance) |
| Grouping.FirstIndex | Campaign/views.py:173-175 | the position of a key's first occurrence: it holds the key and no earlier position does |
| Grouping.KeyOrderFirstAppearance | Campaign/views.py:173-175 | keys earlier in `d.keys()` first occur earlier in the input |
| Grouping.GroupBy | Campaign/management/commands/ExportSystemScoresToJSONL.py:218-225 | the `defaultdict(list)` loop yields the keys in first-appearance order, without repeats, each mapped to exactly its rows in input order |
| Grouping.MembersSnoc | Campaign/management/commands/ExportSystemScoresToJSONL.py:225 | appending a row extends its own key's group and no other |
| Grouping.MembersAbsent | Campaign/management/commands/ExportSystemScoresToJSONL.py:225 | a key that never occurs has an empty group |
| Grouping.MembersHead | Campaign/management/commands/ExportSystemScoresToJSONL.py:230 | an occurring key's group is non-empty and starts with an input row of that key |
| Grouping.GroupSizesSnoc | Campaign/management/commands/ExportSystemScoresToJSONL.py:225 | one more row adds one to the total size of the groups whose key it has |
| Grouping.GroupSizesAppend | Campaign/management/commands/ExportSystemScoresToJSONL.py:228 | the group sizes over a key list grow by the size of each key's group |
| Grouping.GroupsPartitionRows | Campaign/management/commands/ExportSystemScoresToJSONL.py:221-228 | the groups together hold every row exactly once |
| Grouping.GroupMapSnoc | Campaign/views.py:174-175 | appending `f(row)` to its key's list keeps the map equal to the grouping of the rows seen so far |
| Reliability.UserStdev | Campaign/views.py:620-628 | σ is 1 when at most one distinct item was annotated; otherwise it is the raw deviation `RawStdev` unless that truncates to 0, in which case it is reset to 1; so it is never strictly between -1 and 1 |
| Reliability.RawStdev | Campaign/views.py:622-625 | `sqrt` of the sum of squared deviations over `count - 1`; UserStdev resets it to 1 when it truncates to 0 |
| Reliability.UserMean | Campaign/views.py:620-621 | the metric sum over the distinct-item count (1 when there are none); MeanOverDistinct gives the ordinary average for distinct ids |
| Reliability.MeanOverDistinct | Campaign/views.py:620-621 | with distinct item ids the mean is the ordinary average of the metric |
| Reliability.ConstantMetricZeroZ | Campaign/views.py:620-641 | when every metric is the same and ids are distinct, the mean is that value and every z-score is 0 |
| Reliability.ZScore | Campaign/views.py:641 | `(x[2] - mean) / σ`; ConstantMetricZeroZ shows constant metrics give 0 |
| Reliability.ConstantMetricUnitStdev | Campaign/views.py:622-628 | when every metric is the same, σ comes out as 1 |
| Reliability.SumConstant | Campaign/views.py:621 | the sum of n copies of c is n·c |
| Reliability.ClassOf | Campaign/views.py:633-639 | an item is a target iff its type is exactly `TGT`, a control iff it is `BAD` or starts with `BAD.`, otherwise skipped |
| Reliability.RemoveBad | Campaign/views.py:650-651 | `str.replace('#bad', '')`, left to right without overlap: never longer than its input; RemoveBadNoOccurrence and RemoveBadSuffix characterise it |
| Reliability.RemoveBadNoOccurrence | Campaign/views.py:650-651 | a key without `#bad` is left unchanged |
| Reliability.RemoveBadSuffix | Campaign/views.py:650-651 | removing `#bad` from `s + "#bad"` is the same as from `s` |
| Reliability.MatchKey | Campaign/views.py:645-651 | `targetID` for data assessment, `itemID-targetID` otherwise, `#bad` removed under `esa`; BadVariantMatchesTarget states a control meets its target |
| Reliability.BadVariantMatchesTarget | Campaign/views.py:645-651 | with `esa`, a control whose target id is the target's plus `#bad` gets the target's key (`itemID-targetID`, or `targetID` for data assessment) |
| Reliability.Partition | Campaign/views.py:630-652 | the loop fills the target and control maps with, per key, exactly the z-scores of that class's rows in input order |
| Reliability.ScoreListsNonEmpty | Campaign/views.py:652 | every key in either map has at least one z-score, so the `or 1` never applies |
| Reliability.ScoreMapStep | Campaign/views.py:652 | one row appends its z-score to its key's list in its own class's map and leaves the rest unchanged |
| Reliability.ScoreMapUnique | Campaign/views.py:630-652 | the maps are determined by the rows |
| Reliability.MatchedMeans | Campaign/views.py:654-658 | the keys in both maps, without repeats; X and Y have one entry per such key, and X[i], Y[i] are the control and target means of the same key |
| Reliability.Mean | Campaign/views.py:657-658 | the average of a non-empty score list; MatchedMeans places the control and target means of each key |
| Reliability.Verdict | Campaign/views.py:660-675 | `n/a` when X or Y is empty, when the test fails or when the p-value is 0; otherwise the p-value |
| Reliability.ScoringOf | Campaign/views.py:620-628 | the mean and σ used for z-scores, with σ non-zero |
| Reliability.StatReliableTesting | Campaign/views.py:619-676 | the result is the verdict on the matched means of the partition, for some order of the matched keys |
| Reliability.ReliabilityDeterministic | Campaign/views.py:654-676 | when the test does not depend on the order of the pairs, the set iteration order does not change the result |
| Reliability.NoTargetOrNoControlNotAvailable | Campaign/views.py:630-676 | without any target row, or without any control row, the result is `n/a` |
| Reliability.NoMatchedKeyNotAvailable | Campaign/views.py:656-661 | when no key is in both maps, the result is `n/a` |
| Reliability.VerdictIndependentOfKeyOrder | Campaign/views.py:656-665 | any two orders of the matched keys give the same verdict, for an order-blind test |
| RowSort.LexIrreflexive | Campaign/views.py:298 | no string sorts before itself |
| RowSort.LexTrichotomy | Campaign/views.py:298 | two strings are equal or exactly one sorts first |
| RowSort.LexTransitive | Campaign/views.py:298 | string order is transitive |
| RowSort.KeyTotalOrder | Campaign/views.py:297-313 | the keys of one sort function are totally ordered, +∞ included |
| RowSort.ReliabilitySortValue | Campaign/views.py:118-122 | `n/a` sorts as +∞; a p-value sorts as its six-decimal rendering `Round6`, within half a millionth of the p-value |
| RowSort.Micros | Campaign/views.py:672-673 | `{p:1.6f}` in millionths: within half a millionth of `p`, ties to the even count |
| RowSort.Round6 | Campaign/views.py:672-673 | the value `float(f'{p:1.6f}')` reads back: Micros millionths; Round6Monotone and SixDecimalTie characterise it |
| RowSort.Round6Monotone | Campaign/views.py:672-673 | the six-decimal rendering keeps the order of p-values (ties possible) |
| RowSort.SixDecimalTie | Campaign/views.py:672-673 | p-values 0.0000004 and 0.0000001 render as `0.000000` and sort as equal |
| RowSort.EpochKey | Campaign/views.py:301-306 | a missing epoch sorts as +∞, a present one as itself |
| RowSort.SortKeyOf | Campaign/views.py:297-313 | only index 0 (the lower-cased username) is a text key; the others are numbers |
| RowSort.SortIndex | Campaign/views.py:310-324 | an integer key within the list is used as given; no key, a non-integer key, a negative key or one past the end select 2; index 6 (reliability) exists only for staff |
| RowSort.SortIndexOfNumber | Campaign/views.py:315-324 | the rendered number k selects k exactly when k is within the list, and 2 otherwise |
| RowSort.RowOrder | Campaign/views.py:326 | the row comparison is irreflexive, asymmetric and its negation transitive, as `list.sort` requires |
| RowSort.InsertStable | Campaign/views.py:326 | inserting a row adds one row |
| RowSort.SortedBy | Campaign/views.py:326 | sorting keeps the number of rows |
| RowSort.InsertStableOrdered | Campaign/views.py:326 | inserting into an ordered list keeps it ordered and adds exactly the row |
| RowSort.SortedByOrdered | Campaign/views.py:326 | the sorted rows are ordered by the chosen key |
| RowSort.SortedByPermutes | Campaign/views.py:326 | the sorted rows are a permutation of the input |
| RowSort.RowsWithKeyAppend | Campaign/views.py:326 | the rows with a given key value in a concatenation are those of each part, in order |
| RowSort.InsertStableStable | Campaign/views.py:326 | insertion puts the new row after every existing row with the same key value |
| RowSort.SortedByStable | Campaign/views.py:326 | stability: the rows sharing any key value keep their input order |
| RowSort.InsertAt | Campaign/views.py:326 | shifting one array element down into the sorted prefix leaves the prefix equal to the stable insertion, the rest untouched |
| RowSort.SortRows | Campaign/views.py:326 | the in-place sort leaves the array equal to the stable sort of its old contents |
| RowSort.SortCampaignRows | Campaign/views.py:296-326 | `_sort_campaign_rows` sorts the rows in place by the sort function the key selects |
| StatusRows.BranchOf | Campaign/views.py:143-209 | pairwise result types take the pairwise branch; otherwise `mqm` as a whole option selects the MQM branch; else the plain one |
| StatusRows.DataResults | Campaign/views.py:137-141 | document result types drop complete-document items, others keep every result |
| StatusRows.DataRowsOf | Campaign/views.py:143-208 | the normalised data rows of each branch; the MQM metric is minus the issue count; TimePairsIffData relates them to the time pairs |
| StatusRows.TimePairsOf | Campaign/views.py:158-209 | start and end per row, or per document key in the MQM branch; TimePairsIffData states there are pairs iff there is data |
| StatusRows.TimePairsIffData | Campaign/views.py:158-209 | there are time pairs iff there are data rows, in every branch |
| StatusRows.AnnotationTimeOf | Campaign/views.py:225-229 | no time pairs give an annotation time of 0 |
| StatusRows.TimestampStrings | Campaign/views.py:47-54 | `None` gives `('Never', '')`; otherwise the full text is a prefix of the rendering that stops at its end or exactly at its first `.`, and the trimmed one drops its last `:`-field |
| StatusRows.BusyCells | Campaign/views.py:234-240 | `n/a` and empty iff the annotation time is 0; otherwise both texts parse back to its clock reading, without and with the space |
| StatusRows.ExtentOf | Campaign/views.py:212-232 | first/last epoch and the coarse span are present iff there is data, bound every row, are attained, and the span is the truncated difference |
| StatusRows.CoarseCells | Campaign/views.py:242-246 | both coarse texts are present iff the span is, and parse back to its clock reading |
| StatusRows.AssembleRow | Campaign/views.py:211-290 | every field of the row dictionary in terms of the member's data: count, epochs, coarse and busy cells, the MQM `busy--coarse` join, reliability, symbol and progress |
| StatusRows.BuildRow | Campaign/views.py:130-290 | one member's row is the assembled row of its data rows, with its reliability as `stat_reliable_testing` computes it |
| StatusRows.RowDeterministic | Campaign/views.py:130-290 | a member's row is determined by its results, for an order-blind test |
| StatusRows.EmptyMemberRow | Campaign/views.py:212-266 | a member without data has no epochs, no span, annotation time `n/a`, reliability `n/a` and 💤 (🚫 when inactive) |
| StatusRows.CollectStatusRows | Campaign/views.py:125-293 | one row per member, in member order, each describing that member |
| StatusRows.CollectedRowDescribes | Campaign/views.py:125-293 | the i-th row describes the i-th member |
| StatusRows.EsaTimes | Campaign/views.py:591-608 | on well-ordered data, 0 <= busy time <= coarse time on the ESA page |
| StatusRows.EsaTimeCells | Campaign/views.py:602-611 | on well-ordered data, the ESA time cells are `_format_duration(t, with_space=True)` of the coarse and busy times |
| CsvExport.ShadowPatternMeaning | Campaign/management/commands/ExportSystemScoresToCSV.py:32 | the pattern accepts exactly a non-empty hyphen-free prefix, a hyphen, two lower-case hex digits and optionally one final newline |
| CsvExport.ShadowPattern | Campaign/management/commands/ExportSystemScoresToCSV.py:32 | `^[^-]+-[0-9a-f]{2}$`, with `$` also matching before a final newline; ShadowPatternMeaning and SpellingAccepted characterise it |
| CsvExport.ShadowCoreSpelling | Campaign/management/commands/ExportSystemScoresToCSV.py:32 | a name matching without the newline is spelled by its own prefix and last two characters |
| CsvExport.SpellingCore | Campaign/management/commands/ExportSystemScoresToCSV.py:32 | every prefix/hyphen/two-hex spelling matches |
| CsvExport.SpellingAccepted | Campaign/management/commands/ExportSystemScoresToCSV.py:32 | every spelling, with or without the newline, matches |
| CsvExport.ShadowOfUsername | Campaign/management/commands/ExportSystemScoresToCSV.py:30-32 | `{original}-{hex}` is recognised iff the original name is non-empty and has no hyphen |
| CsvExport.ShadowUsers | Campaign/management/commands/ExportSystemScoresToCSV.py:27-35 | exactly the inactive users whose username matches the pattern |
| CsvExport.ValidateResetAccounts | Campaign/management/commands/ExportSystemScoresToCSV.py:38-57 | `None` iff there is no shadow user; otherwise the shadow users and a message starting with their count |
| CsvExport.Usernames | Campaign/management/commands/ExportSystemScoresToCSV.py:77 | the set of usernames of the given users |
| CsvExport.ResetScores | Campaign/management/commands/ExportSystemScoresToCSV.py:60-99 | the filter keeps, in order, exactly the non-empty score tuples whose first element is a shadow user's name |
| CsvExport.NoShadowKeepsNothing | Campaign/management/commands/ExportSystemScoresToCSV.py:73-75 | without shadow users the result is empty, as the early return gives |
| CsvExport.StrOfInt | Campaign/management/commands/ExportSystemScoresToCSV.py:196 | `str()` of an integer cell reads back to the integer |
| CsvExport.CsvRow | Campaign/management/commands/ExportSystemScoresToCSV.py:196 | a CSV row has one field per tuple element, each its `str()` |
| CsvExport.Handle | Campaign/management/commands/ExportSystemScoresToCSV.py:159-202 | reset mode without shadow users stops before writing; otherwise the rows are the CSV rows of the concatenated per-pair scores, and the reported total equals their number |
| CsvExport.ExportedScores | Campaign/management/commands/ExportSystemScoresToCSV.py:173-192 | the scores of every pair that has tasks, concatenated in pair order; Handle writes exactly these and ExportedCount bounds their number |
| CsvExport.WriteRows | Campaign/management/commands/ExportSystemScoresToCSV.py:195-196 | one row per score, in order |
| CsvExport.ResetExportOnlyShadows | Campaign/management/commands/ExportSystemScoresToCSV.py:186-192 | in reset mode every exported score belongs to a shadow account |
| CsvExport.ExportedCount | Campaign/management/commands/ExportSystemScoresToCSV.py:176-192 | the count never exceeds the sum of the per-pair counts, and equals it when every pair has tasks |
| JsonlExport.ControlVariantsNotExported | Campaign/management/commands/ExportSystemScoresToJSONL.py:96 | the item-type filter is exact: `BAD.x` types are not exported |
| JsonlExport.Duration | Campaign/management/commands/ExportSystemScoresToJSONL.py:153 | `None` iff start or end is falsy (missing or 0); otherwise start plus duration is end |
| JsonlExport.Falsy | Campaign/management/commands/ExportSystemScoresToJSONL.py:153 | a missing time or 0 is falsy; Duration is `None` exactly then |
| JsonlExport.ExportDocumentLines | Campaign/management/commands/ExportSystemScoresToJSONL.py:92-167 | one line per admitted result (completed, exported item type, active unless inactive users are included), in order |
| JsonlExport.DocumentLinesAdmitted | Campaign/management/commands/ExportSystemScoresToJSONL.py:93-165 | every line comes from an admitted result, has an exported item type, carries context iff asked, and has a duration iff both times are truthy |
| JsonlExport.DocumentLineOf | Campaign/management/commands/ExportSystemScoresToJSONL.py:135-165 | the document line of one result; DocumentLinesAdmitted states its item type, context and duration |
| JsonlExport.LinesAlong | Campaign/management/commands/ExportSystemScoresToJSONL.py:228 | one line per key |
| JsonlExport.LinesAlongAt | Campaign/management/commands/ExportSystemScoresToJSONL.py:228-270 | the i-th line is the i-th key's group line |
| JsonlExport.LineOfMembers | Campaign/management/commands/ExportSystemScoresToJSONL.py:228-268 | a group is non-empty, and its line is built from its first row and its targets |
| JsonlExport.LineOfGroup | Campaign/management/commands/ExportSystemScoresToJSONL.py:228-245 | the shared fields from the group's first row, with its targets; ContrastiveLineContents states which |
| JsonlExport.TargetOf | Campaign/management/commands/ExportSystemScoresToJSONL.py:248-266 | one target entry per row, context iff asked; GroupTargets puts them in row order |
| JsonlExport.GroupTargets | Campaign/management/commands/ExportSystemScoresToJSONL.py:247-268 | the `targets` loop gives one target entry per row of the group, in row order |
| JsonlExport.GroupLines | Campaign/management/commands/ExportSystemScoresToJSONL.py:216-270 | the grouping loop and the per-group loop give exactly the ContrastiveESA lines |
| JsonlExport.ExportContrastiveEsa | Campaign/management/commands/ExportSystemScoresToJSONL.py:169-270 | the grouped lines of the admitted results |
| JsonlExport.ContrastiveLinesPerGroup | Campaign/management/commands/ExportSystemScoresToJSONL.py:214-228 | exactly one line per distinct (annotator, document), in first-appearance order, none repeated, every row's pair present |
| JsonlExport.ContrastiveLineContents | Campaign/management/commands/ExportSystemScoresToJSONL.py:228-268 | each line's targets are its group's rows in order; shared fields come from the group's first row |
| JsonlExport.TargetCountAlong | Campaign/management/commands/ExportSystemScoresToJSONL.py:247-268 | the number of targets over the lines of some keys is the total size of those keys' groups |
| JsonlExport.ContrastiveTargetsCoverRows | Campaign/management/commands/ExportSystemScoresToJSONL.py:221-268 | the total number of targets equals the number of input rows |
| JsonlExport.PairwiseLineFor | Campaign/management/commands/ExportSystemScoresToJSONL.py:320-361 | target 1 always; a second target iff both `target2ID` and `score2` are present; target context iff asked, and the second target's only when there are two |
| JsonlExport.PairwiseLineOf | Campaign/management/commands/ExportSystemScoresToJSONL.py:320-361 | the pairwise line of one result; PairwiseLineFor states its targets and context |
| JsonlExport.ExportPairwiseLines | Campaign/management/commands/ExportSystemScoresToJSONL.py:272-363 | one line per admitted pairwise result, in order |
| JsonlExport.Handle | Campaign/management/commands/ExportSystemScoresToJSONL.py:42-90 | no document output iff there are no document tasks; grouped iff `contrastiveesa` is an option, regular otherwise; pairwise output iff there are pairwise tasks |
| JsonlExport.ContrastiveSwitchIsWholeToken | Campaign/management/commands/ExportSystemScoresToJSONL.py:82-83 | for lower-case `;`-separated options, the switch is on iff one whole option is `contrastiveesa` |
| Base.Filter | Campaign/management/commands/ExportSystemScoresToCSV.py:34 | a list comprehension with a condition keeps exactly the elements satisfying it, in order (FilterAppend, FilterSingle) |
| Base.FilterAppend | Campaign/management/commands/ExportSystemScoresToCSV.py:34 | filtering distributes over concatenation |
| Base.FilterSingle | Campaign/management/commands/ExportSystemScoresToCSV.py:34 | one element is kept iff it satisfies the condition |
| Base.MinOf | Campaign/views.py:215 | `min` of a non-empty list is an element at most every element |
| Base.MaxOf | Campaign/views.py:216 | `max` of a non-empty list is an element at least every element |
| Base.Elements | Campaign/views.py:212 | `set(...)` of a list holds exactly its elements |
| Base.ElementsBound | Campaign/views.py:212 | a list has at most as many distinct elements as entries |
| Base.DistinctCardinality | Campaign/views.py:620 | a list without repeats has as many distinct elements as entries |
| Base.Lower | Campaign/views.py:360 | `str.lower` keeps the length and lowers each character |
| Base.LowerChar | Campaign/views.py:298 | ASCII upper-case letters are lowered, all else is kept |
| Base.Split | Campaign/views.py:360 | `split(';')` gives at least one piece, none containing `;` |
| Base.HasOption | Campaign/views.py:360 | membership of a whole token in the lower-cased `;`-split options; ContrastiveSwitchIsWholeToken states it for `contrastiveesa` |
| Base.JoinSplit | Campaign/views.py:53 | joining the pieces of a split gives back the string |
| Base.SplitJoin | Campaign/views.py:360 | splitting a join of `;`-free pieces gives back the pieces |
| Base.SplitFirstPrefix | Campaign/views.py:52 | the first piece of a split is a prefix of the string |
| Base.SplitFirstStops | Campaign/views.py:52 | the first piece ends at the end of the string or exactly at the first separator |
| Base.Decimal | Campaign/views.py:260 | a natural number's decimal text is all digits and has one digit iff the number is below 10 |
| Base.DecimalRoundTrip | Campaign/views.py:260 | a decimal text reads back to its number |
| Base.Pad2 | Campaign/views.py:44 | `{n:0>2d}` is all digits, reads back to `n`, and has exactly two digits when `n < 100` |
| Base.IntText | Campaign/management/commands/ExportSystemScoresToCSV.py:196 | `str(i)` starts with `-` iff `i` is negative |
| Base.ParseInt | Campaign/views.py:318 | `int(s)` succeeds iff the text is digits with an optional leading sign and at least one digit; its value is the decimal value, negated after `-` |
| Base.IntTextRoundTrip | Campaign/views.py:318 | `int(str(i)) == i` |

## Left out

- The Mann–Whitney U test is a library call. It is a function parameter that returns a p-value or a failure. Only its `ValueError` and a zero p-value are modelled.
- `sqrt` is a function parameter. The float arithmetic of the mean and the z-scores is done on exact reals.
- Float rendering is modelled only where it decides an order: the six-decimal p-value `{p:1.6f}`, which the reliability sort reads back, is `RowSort.Round6` on exact reals. The `:.0%` percentage, `round(…, 1)` durations and `str()` of floats are not modelled (carried as given text). NaN and infinities are not modelled as inputs.
- `_compute_user_total_annotation_time` is not part of this model. It is a function parameter; only its zero default for no time pairs is stated.
- Datetime rendering in `_format_timestamp_strings` is a parameter. Only the cut at the first `.` and the trimming at the last `:` are modelled.
- The ORM is not modelled: querysets, `values_list`, team and member iteration, the agenda and task lookups, and `_estimate_total_items`. The total item count and the member lists are inputs.
- `json.loads` of the MQM payload is not modelled: the issue count is an input and the metric is its negation.
- HTML, plain-text, CSV and JSON output, HTTP responses, argument parsing and `stderr` messages are not modelled; only the validation message's opening is stated. `campaign_status`, `campaign_status_plain` and `campaign_status_new` only render rows and dispatch, and are not modelled.
- The JavaScript widgets and the Dashboard test are outside the analytics and are not modelled.
- `str.lower` is modelled on ASCII letters only.
- `int(str)` is modelled on optional sign and digits only: no surrounding whitespace or `_` separators.
- Reliability.StatReliableTesting: the order of the matched keys comes from iterating a Python set, which is not fixed. The contract therefore says the result is the verdict for *some* order. ReliabilityDeterministic and VerdictIndependentOfKeyOrder show that the order does not matter when the test is order-blind.
- Reliability.UserStdev: the mean divides the sum over all rows by the number of *distinct* item ids. It is modelled as written; the constant-metric lemmas assume distinct ids for that reason.
- CsvExport.Handle: the iteration order of `CAMPAIGN_TASK_PAIRS`, a set, is taken as the given order of the pairs.
- JsonlExport.ExportContrastiveEsa: the database ordering by (annotator, document, item) is taken as the given order of the results.
- StatusRows.CollectStatusRows: states each row through the `Describes` relation member by member (CollectedRowDescribes), not as one function of the members.
- Timing.SpansAlong: the ensures states only the length; the content of each position is in SpansAlongAt. The same holds for JsonlExport.LinesAlong and LinesAlongAt.
- Timing.BusyTimeSingle: follows the code. A single interval shorter than 600 s counts in full, because its start and end are neighbours in the sorted list.
- StatusRows.EsaTimes: the ESA page's time cells are stated only when every result ends after it starts. Otherwise a negative coarse time is rendered with `PadInt` as the code does, with no further claim.
- CsvExport.ShadowOfUsername: states that shadows of hyphenated usernames are not recognised. The model keeps this behaviour of the pattern rather than correcting it.
