# RainDetect event finder: a verified model

RainDetect's `EventFinder.py` turns an hourly precipitation series into
numbered rainfall events. It then summarises and filters those events and
builds a normalized cumulative-rainfall curve for each event it keeps. This
project models that engine in Dafny and proves what it does. The model has
five stages:

- **Series** (`series.dfy`): a sample is a timestamp (whole seconds) and a
  depth (an exact real). This stage also holds the reductions used later: total
  depth, earliest time and latest time.
- **Segmentation** (`segmentation.dfy`): `identify_events`, with one pass and
  two counters.
  - The value of each counter after the first k samples is a recursive
    function of that prefix (`DryRunBefore`, `OpenedBefore`). Each sample's id
    (`Label`) is defined from them.
  - The loop in `IdentifyEvents` is proved to produce exactly those ids.
  - Lemmas state how events form: ids never decrease and no id is skipped, the
    gap tolerance boundary, and what the first event looks like.
- **Aggregation** (`aggregation.dfy`): `get_filtered_events`.
  - The labelled series is grouped by id in ascending order. Each group becomes
    its earliest and latest time, its inclusive duration in hours and its total
    depth.
  - Both thresholds are then applied, and both are inclusive.
  - The contract of `GetFilteredEvents` says the filtered table holds exactly
    the qualifying events, by ascending id. Lemmas prove that the event totals
    add up to the depth of all assigned samples, and that raising a threshold
    never keeps more events.
- **Normalization** (`normalization.dfy`): `save_normalized_comparison_data`.
  - `SaveNormalizedComparisonData` keeps the source's two nested loops. It is
    proved equal to the functional `NormalizedAll`.
  - An event is skipped when its time span or its total depth is zero.
  - For every other event, the time column lies in [0, 100]. It is 0 at the
    earliest sample and 100 at the latest.
  - When no depth is negative, the cumulative column lies in [0, 100], never
    decreases and ends at exactly 100. A negative depth can push it outside
    that range.
- **Pipeline** (`pipeline.dfy`): the driver's loop that cuts out each retained
  event's samples, plus a lemma from the raw series to the final table. Every
  normalized row belongs to an event that meets both thresholds and has a
  non-zero time span and depth.
- **Scenarios** (`scenarios.dfy`): worked examples on concrete series.

## Behaviour of the code as written

These points follow from the code and are proved in the model.

- **Gaps are counted in samples, not hours.** `identify_events` never looks at
  timestamps. A missing hour in the series does not count as a dry hour.
- **The first event may get id 0.** The event counter starts at 0. It only
  rises when a wet sample follows more than `gap_hours` dry samples.
  - When a series starts with at most `gap_hours` dry samples before its first
    wet one, that event gets id 0. The leading dry samples join it
    (`FirstEvent`).
  - When there are more leading dry samples, the first wet sample opens
    event 1.
- **A dry start forms an event 0 with no wet sample.** Hourly series often
  start dry, so this is a common case. Suppose `gap_hours` is at least 1
  and the series begins with more than `gap_hours` dry samples. Then:
  - the first `gap_hours` of those samples carry id 0 (`LeadingDry`);
  - the dry samples after them carry None;
  - the first wet sample opens event 1.

  So event 0 exists, and every sample in it is below the wet threshold
  (`Pipeline.DryStartEventZero`). On `[0, 0, 0, 0.5]` with gap 1, the ids
  are 0, None, None, 1 (`Scenarios.LongDryStart`). A lone dry sample also
  forms a zero-depth event 0 (`Scenarios.DryStartFormsEventZero`).

  The cumulative threshold removes such an event unless that threshold is
  at most its depth. If the event does get through, the normalizer skips it
  when its depth is zero (`Pipeline.NormalizedRowsFromRetained`).
- **Tolerated trailing dry samples belong to the event.** After the last wet
  hour of an event, up to `gap_hours` dry samples still carry its id. They move
  the event's end time and lengthen its duration. Take
  `[0.05, 0, 0, 0.06, 0, 0]` with threshold 0.04 and gap 1. The code gives
  ids 0, 0, None, 1, 1, None, so both events last two hours
  (`Scenarios.TrailingDryExtendsEvent`, `Scenarios.TrailingDrySummaries`).
- **The percentage of time is measured from the earliest and latest times.**
  The code uses `time.min()` and `time.max()`, not the first and last rows.
  For a series sorted by time, as the loader leaves it, the two agree
  (`NormalizedDurationShape`).

## Model

| member | source | states |
|---|---|---|
| Series.IsWet | EventFinder.py:43 | no contract of its own (a predicate): a sample is wet when its depth reaches the rainfall threshold, inclusive |
| Series.Depth | EventFinder.py:74 | no contract of its own; `Series.DepthNonNegative` and `Normalization.CumSumIsPrefixDepth` state it |
| Series.MinTime | EventFinder.py:71 | the start time is a time of some sample of the group and no sample is earlier |
| Series.MaxTime | EventFinder.py:72 | the end time is a time of some sample of the group and no sample is later |
| Series.EndpointsOfAscending | EventFinder.py:71-72 | with ascending times the earliest time is the first sample's and the latest the last sample's |
| Series.DepthPrefixMonotone | EventFinder.py:146 | with no negative depth a longer prefix holds at least as much depth |
| Series.DepthNonNegative | EventFinder.py:74 | a group with no negative depth has a non-negative total |
| Segmentation.DryRunBefore | EventFinder.py:45-55 | the gap counter after k samples: the samples it counts are all dry, and the sample before them is wet or the series start |
| Segmentation.OpenedBefore | EventFinder.py:44-51 | the event counter after k samples is at most k |
| Segmentation.Label | EventFinder.py:48-59 | no contract of its own; `Segmentation.IdentifyEvents` proves the loop computes it, and `Segmentation.GapBoundary`, `Segmentation.DryAfterWet`, `Segmentation.LeadingDry`, `Segmentation.FirstEvent` and `Segmentation.EveryIdIsOpened` describe it |
| Segmentation.Segment | EventFinder.py:61 | no contract of its own; `Segmentation.IdentifyEvents` states it is the loop's result |
| Segmentation.IdentifyEvents | EventFinder.py:42-62 | the loop gives every sample the id `Label` defines; a wet sample carries the event counter; a dry sample carries None exactly when its dry run exceeds the gap tolerance; the samples are unchanged |
| Segmentation.DryRunInStretch | EventFinder.py:52-55 | inside a dry stretch the gap counter rises by one per sample |
| Segmentation.NoOpeningInDryStretch | EventFinder.py:49-51 | no event opens during a dry stretch |
| Segmentation.OpenedMonotone | EventFinder.py:50-51 | the event counter never decreases and rises by at most one per sample |
| Segmentation.LabelsNonDecreasing | EventFinder.py:48-59 | event ids never decrease along the series |
| Segmentation.NeighboursShareEvent | EventFinder.py:48-59 | with a non-negative gap tolerance, two neighbouring samples that both carry an id carry the same id |
| Segmentation.HoleSeparatesEvents | EventFinder.py:48-59 | helper towards EventsContiguous: after a sample with no id, every later sample either follows the opening of a new event or is still in the over-long dry run |
| Segmentation.EventsContiguous | EventFinder.py:48-59 | any sample between two samples carrying the same id carries that id too, so each event is a contiguous run of samples |
| Segmentation.EveryIdIsOpened | EventFinder.py:49-53 | every id from 1 up to the final counter is carried by a wet sample that opened it, and no earlier sample carries it, so no id is skipped |
| Segmentation.DryAfterWet | EventFinder.py:54-59 | a dry sample after a wet one keeps its event while within the gap tolerance and carries None after that |
| Segmentation.GapBoundary | EventFinder.py:49-59 | between two wet samples, a dry run of at most gap_hours keeps one event and a longer one opens the next id; an in-between sample is None exactly beyond the tolerance |
| Segmentation.LeadingDry | EventFinder.py:44-59 | dry samples at the start of the series join event 0 while within the tolerance and carry None after that |
| Segmentation.FirstEvent | EventFinder.py:44-53 | the first wet sample gets id 0 (with the leading dry samples) when at most gap_hours dry samples precede it, and id 1 otherwise |
| Aggregation.Group | EventFinder.py:68-69 | the group of an id is no longer than the series |
| Aggregation.GroupMembers | EventFinder.py:68-69 | a sample is in group e exactly when some row pairs it with id e, so rows with None are dropped |
| Aggregation.GroupAscending | EventFinder.py:68-69 | grouping keeps the series order, so the groups of a strictly increasing series are strictly increasing |
| Aggregation.Assigned | EventFinder.py:68 | no contract of its own; `Aggregation.Conservation` and `Aggregation.BandCoversAssigned` state it |
| Aggregation.IdBound | EventFinder.py:69 | every id present lies below the bound |
| Aggregation.Summarize | EventFinder.py:70-75 | the summary keeps the id, its start is at most its end, its duration is at least one hour and its total is the group's depth |
| Aggregation.SummaryTimes | EventFinder.py:71-72 | start and end bound every sample time of the event and are both attained |
| Aggregation.DurationInclusive | EventFinder.py:73 | the duration is 1 hour exactly when all samples share one time; with strictly increasing times, exactly for a one-sample event |
| Aggregation.PresentIds | EventFinder.py:69 | the ids listed lie in range and strictly ascend |
| Aggregation.PresentIdsExact | EventFinder.py:69 | the listed ids are exactly those in range whose group is non-empty |
| Aggregation.Aggregate | EventFinder.py:67-77 | one summary per present id, ascending by id: every entry is the summary of an id whose group is non-empty, and every such id has its summary in the table |
| Aggregation.SummariesOfPresentIds | EventFinder.py:69-75 | helper towards `Aggregation.Aggregate`: summaries listed in present-id order are ascending, sound and complete |
| Aggregation.GetFilteredEvents | EventFinder.py:66-81 | the filtered table is ascending by id; each entry is the summary of a present id and meets both thresholds; every present id whose summary meets them is in it |
| Aggregation.FilterEvents | EventFinder.py:78-81 | the result keeps exactly the summaries that reach both inclusive thresholds, and is no longer than the input |
| Aggregation.FilterKeepsOrder | EventFinder.py:78-81 | filtering keeps ascending id order |
| Aggregation.Conservation | EventFinder.py:68-74 | the event totals sum to the depth of all samples that carry an id |
| Aggregation.FilterMonotone | EventFinder.py:78-81 | raising either threshold keeps a subsequence of what the looser filter keeps, never more |
| Aggregation.BandSplit | EventFinder.py:69-74 | helper towards `Aggregation.Conservation`: the depth of a band of ids is its lowest id's group depth plus the depth of the band above it |
| Aggregation.BandCoversAssigned | EventFinder.py:68 | helper towards `Aggregation.Conservation`: the band of all ids below the bound is every assigned sample |
| Aggregation.TotalOfSummaries | EventFinder.py:74 | helper towards `Aggregation.Conservation`: summed summary totals equal the summed group depths |
| Aggregation.PresentIdsDepth | EventFinder.py:69-74 | helper towards `Aggregation.Conservation`: the group depths of the present ids add up to the band's depth |
| Aggregation.BandEmpty | EventFinder.py:69 | helper towards `Aggregation.Conservation`: an empty id range selects no sample |
| Normalization.CumSum | EventFinder.py:146 | the running total has one entry per sample |
| Normalization.CumSumIsPrefixDepth | EventFinder.py:146 | entry i of the running total is the depth of samples 0 through i |
| Normalization.CumSumLast | EventFinder.py:148 | the last running total is the event's total depth |
| Normalization.CumSumBounds | EventFinder.py:146-151 | with no negative depth, the running total is non-negative, never decreases and never exceeds the total |
| Normalization.Percent | EventFinder.py:150-151 | no contract of its own; `Normalization.PercentBounds`, `Normalization.PercentEnds` and `Normalization.PercentMonotone` state it |
| Normalization.NormalizedPoint | EventFinder.py:150-158 | no contract of its own; `Normalization.DurationAt` and `Normalization.RainfallAt` give the values of its two columns |
| Normalization.IsDegenerate | EventFinder.py:147-149 | no contract of its own (a predicate); `Normalization.NormalizeEvent` emits no row exactly for it, and `Pipeline.FramesAgreeWithSummaries` restates it as start equals end or total is zero |
| Normalization.NormalizeEvent | EventFinder.py:145-158 | a zero time span or zero total gives no rows; otherwise one row per sample, each with the event's id |
| Normalization.NormalizedAll | EventFinder.py:143-158 | no contract of its own; `Normalization.SaveNormalizedComparisonData` proves the loops compute it and `Pipeline.NormalizedRowSource` describes its rows |
| Normalization.SaveNormalizedComparisonData | EventFinder.py:142-158 | the nested loops produce exactly the rows of every event in turn, with degenerate events skipped |
| Normalization.PercentBounds | EventFinder.py:150-151 | helper towards the percentage bounds: a part between 0 and the whole is between 0 and 100 percent |
| Normalization.PercentEnds | EventFinder.py:150-151 | helper towards the percentage bounds: 0 is 0 percent and the whole is 100 percent |
| Normalization.PercentMonotone | EventFinder.py:151 | helper towards the percentage bounds: a larger part is a larger percentage |
| Normalization.DurationAt | EventFinder.py:150 | row i's time percentage lies in [0, 100]; it is 0 at the earliest time and 100 at the latest |
| Normalization.RainfallAt | EventFinder.py:146-151 | row i's cumulative percentage lies in [0, 100], is at most row j's for i <= j, and is 100 on the last row |
| Normalization.NormalizedRainfallShape | EventFinder.py:146-151 | for a kept event with no negative depth, the cumulative percentage lies in [0, 100], never decreases and ends at exactly 100 |
| Normalization.NormalizedDurationShape | EventFinder.py:147-150 | the time percentage lies in [0, 100]; it is 0 at the earliest and 100 at the latest sample, which are the first and last when times ascend |
| Pipeline.CollectEventData | EventFinder.py:174-180 | one frame per filtered event, in order, with that event's id and exactly the samples carrying it |
| Pipeline.FramesAgreeWithSummaries | EventFinder.py:175-177 | every frame is non-empty and has its summary's start, end and total, so the normalizer skips an event exactly when its start equals its end or its total is zero |
| Pipeline.NormalizedRowSource | EventFinder.py:143-158 | every row of the table comes from an event that was not skipped and carries its id |
| Pipeline.DryStartEventZero | EventFinder.py:44-59 | with a tolerance of at least one and more leading dry samples than it, event 0 exists, holds no wet sample, and the first wet sample gets id 1 |
| Pipeline.RowFromRetained | EventFinder.py:174-184 | helper towards `Pipeline.NormalizedRowsFromRetained`: one table row traced to a retained event that meets both thresholds and has non-zero span and total |
| Pipeline.NormalizedRowsFromRetained | EventFinder.py:169-184 | from series to table: every normalized row carries the id of an event that meets both thresholds and has a non-zero time span and total |
| Scenarios.TrailingDryExtendsEvent | EventFinder.py:42-62 | on `[0.05, 0, 0, 0.06, 0, 0]` with threshold 0.04 and gap 1 the ids are 0, 0, None, 1, 1, None |
| Scenarios.LabelledGroups | EventFinder.py:68-69 | the two groups of that labelled series and its id bound |
| Scenarios.LabelledSummaries | EventFinder.py:69-75 | the present ids of that labelled series are 0 and 1, with the summaries (0, 0, 3600, 2.0, 0.05) and (1, 10800, 14400, 2.0, 0.06) |
| Scenarios.TrailingDrySummaries | EventFinder.py:66-77 | that series gives two events of two hours each, with totals 0.05 and 0.06 |
| Scenarios.TrailingDryFilter | EventFinder.py:78-81 | a total equal to the threshold is kept, a larger threshold drops it, and a 6-hour minimum drops both |
| Scenarios.DryStartFormsEventZero | EventFinder.py:44-59 | a lone dry sample forms event 0 with zero depth and a one-hour duration |
| Scenarios.LongDryStart | EventFinder.py:42-62 | on `[0, 0, 0, 0.5]` with threshold 0.04 and gap 1 the ids are 0, None, None, 1 |
| Scenarios.TrailingDryNormalized | EventFinder.py:142-158 | the first event's curve is (0, 100) then (100, 100) |

## Left out

- Loading (`load_rainfall_data`, EventFinder.py:33-38) is left out. It reads the CSV, parses times, turns unparseable depths into 0 and sorts by time. The model takes the series as given. Segmentation does not use the times, and the summaries and percentages use the earliest and latest time rather than positions, so sortedness is assumed only where a lemma says so. The loader keeps negative depths. The bounds and monotonicity of the cumulative percentage (`NormalizedRainfallShape`, `RainfallAt`, `CumSumBounds`) assume that no depth is negative.
- The hyetograph, cumulative and comparison plots (EventFinder.py:85-139) are left out: they are rendering and file output. The cumulative sum they draw is `CumSum`.
- The CSV writes (EventFinder.py:98, 118, 160, 172) are left out. So are the console messages and the output directory setup (EventFinder.py:13-29). They are file-system and console I/O.
- The module-level configuration is replaced by parameters. In particular, the duration threshold that `get_filtered_events` reads from a global is passed in.
- The driver (EventFinder.py:166-186) is not a member of its own. The only step it adds between the modelled functions is the frame assembly `CollectEventData`. `NormalizedRowsFromRetained` states the chain as a whole.
- Rain.py is not part of this model.
- `round(..., 2)` on the two percentage columns (EventFinder.py:156-157) is left out. The model keeps the exact percentages, so its bounds and end values hold before rounding.
- Depths are exact reals, not IEEE doubles. Rounding in sums and divisions is not modelled.
- Timestamps are whole seconds, not pandas datetimes. Time zones and sub-second parts are out of scope.
- The `is_wet` column that `identify_events` adds to the frame is not kept. The `IsWet` predicate computes the same test.
- Normalization.SaveNormalizedComparisonData: requires every frame to be non-empty. The source reads `iloc[-1]` and would fail on an empty frame. The driver never passes one (`Pipeline.FramesAgreeWithSummaries`).
- Normalization.NormalizeEvent: requires a non-empty frame, for the same reason.
