# Note timeline and groove radar

A Dafny model of the core of a StepMania chart converter. The converter turns a chart's measure strings into a timeline of divisions: rhythmic instants carrying arrows, each timestamped in seconds. It folds hold ends into their holds. It then scores the chart on the five groove-radar axes.

Modules, one per concern of the source:

- `Wrappers`: the `Result` type. Every `Err` of the source is an `Err` value, and so are the panics of `make_arrows`, `int_to_direction` and the `assert_ne!` of `str_to_notes`. The other panics (`unwrap` on an empty list, `bpms[0]`) are preconditions.
- `Strings`: the string operations the parsers rely on:
  - `split`, `join`, `trim` and `trim_matches`;
  - the UTF-8 byte length that `make_arrows` checks.
- `Arrows` (`src/arrow.rs`): lanes, arrow kinds, `int_to_direction`, `ArrowType::from_str`, `Arrow::is_freeze_end` and `make_arrows`.
- `Gimmick` (`src/gimmick.rs`): the `Stop` and `Bpm` records.
- `Timing` (`src/chart.rs`, `offset_to_time`): from a rhythmic offset (192 units per measure, 48 per beat) to seconds, under piecewise-constant tempos and stops.
- `Chart` (`src/chart.rs`): the chart-type and difficulty lookups, and `parse_chart_props`.
- `Timeline` (`src/chart.rs`, `str_to_notes`): measures laid end to end, hold ends resolved, and kept divisions timestamped.
- `Radar` (`src/groove_radar.rs`): note density per tempo section, the average tempo, and the stream, voltage, air, freeze and chaos scores.

## How the model is built

The loops of the source are methods with `while` loops:
- `make_arrows`;
- `offset_to_time`;
- `parse_chart_props`;
- `str_to_notes`;
- `count_subsequent_notes`;
- `calc_average_bpm`.

Each method is proved equal to a specification function that follows the loop's own steps. The properties the source promises are lemmas about those functions. The iterator chains and pure expressions of the source are functions.

Seconds, tempos and scores are `real`. The `as i32` conversion of a score is `Radar.AsI32`: truncation toward zero, saturating at the i32 bounds, as Rust defines it for floats.

Some collaborators are called by the core but are not part of this model:
- `bar_to_divisions`;
- `find_freeze_end`;
- `Division::is_jump` and `Division::is_shock`;
- the colour of a division.

They are function-typed parameters (`BarDecoder`, `FreezeEndFinder`, `Division -> bool`). The only fact assumed about any of them is stated as a requirement where it is used (`Timeline.DecodesWithinMeasure`).

## Model

| member | source | states |
|---|---|---|
| Strings.Split | src/chart.rs:160 | `split` yields one more piece than there are separators |
| Strings.SplitPieces | src/chart.rs:162-165 | no piece contains the separator; there are two or more pieces exactly when the separator occurs |
| Strings.JoinSplit | src/chart.rs:167 | joining the pieces of a split with the separator gives the string back |
| Strings.SplitAfterHead | src/chart.rs:162-167 | splitting `head:rest`, with `head` free of ':', yields `head` followed by the pieces of `rest` |
| Strings.TrimStart | src/chart.rs:162 | removes exactly the longest stripped prefix |
| Strings.TrimEnd | src/chart.rs:162 | removes exactly the longest stripped suffix |
| Strings.Utf8Length | src/arrow.rs:64 | the byte length is at least the character count, and equals it exactly when every character is ASCII |
| Arrows.IntToDirection | src/arrow.rs:13-21 | succeeds exactly on 0..3, giving the lane of that column (Left, Down, Up, Right); any other index is an error |
| Arrows.DirectionRoundTrip | src/arrow.rs:13-21 | every lane is returned for its own column |
| Arrows.ArrowTypeFromStr | src/arrow.rs:35-44 | succeeds exactly on the five one-character codes "0" "1" "2" "3" "M", with the matching kind; every other string is an error naming it |
| Arrows.ArrowTypeRoundTrip | src/arrow.rs:35-44 | every kind is parsed back from its own code |
| Arrows.FreezeEndLane | src/arrow.rs:56-58 | `is_freeze_end(d)` holds only in the arrow's own lane, and it holds there exactly when the arrow is a FreezeEnd |
| Arrows.MakeArrows | src/arrow.rs:62-80 | the loop computes `DecodeRow`: the length check first, then the columns left to right, stopping at the first bad code |
| Arrows.DecodeColumnsErrSticks | src/arrow.rs:67-69 | once a column fails to decode, every longer prefix fails with the same error |
| Arrows.DecodeColumnsShape | src/arrow.rs:67-78 | a decoded prefix has one arrow per non-'0' column, in column order, in that column's lane and of that column's kind, never None, with end 0 and end time 0 |
| Arrows.DecodeColumnsAllCodes | src/arrow.rs:67-69 | a prefix of valid codes always decodes |
| Arrows.MakeArrowsOkIff | src/arrow.rs:62-80 | `make_arrows` succeeds exactly on rows of four valid step codes |
| Arrows.MakeArrowsShape | src/arrow.rs:62-80 | the result has at most four arrows, one per non-'0' column, in column order, in pairwise distinct lanes, none of kind None, all with end 0 and end time 0 |
| Arrows.NonBlankAtMost | src/arrow.rs:70-77 | no more arrows than columns |
| Arrows.MakeArrowsRegression | src/arrow.rs:82-101 | "0012" yields an Up tap and a Right hold |
| Timing.OffsetToTime | src/chart.rs:126-152 | the tempo loop, the extrapolation and the stop loop compute `TimeOf` |
| Timing.WalkTempos | src/chart.rs:127-140 | the tempo loop, with its `break`, computes `TempoWalk` |
| Timing.AddStops | src/chart.rs:145-150 | the stop loop, with its `break`, computes `StopWalk` |
| Timing.WalkIsSegments | src/chart.rs:129-144 | on sorted tempos, the loop state plus the extrapolation equals the segment-by-segment integral of the tempo |
| Timing.TempoTimeIsSegments | src/chart.rs:129-144 | on sorted tempos, the tempo part of `offset_to_time` is the segment-by-segment integral |
| Timing.SegmentSplit | src/chart.rs:129-140 | on sorted tempos, between breakpoint k and the next one, time advances at tempo k |
| Timing.LastTempoExtrapolates | src/chart.rs:141-144 | on sorted tempos, past the last breakpoint, the remaining offset is converted at the last tempo |
| Timing.ElapsedMonotone | src/chart.rs:132-133 | at a positive tempo, seconds grow with the target offset |
| Timing.SegmentNonNegative | src/chart.rs:129-144 | with positive sorted tempos, the integral up to a later offset is non-negative |
| Timing.SegmentMonotone | src/chart.rs:129-144 | with positive sorted tempos, the integral is non-decreasing in the offset |
| Timing.NoStopsBefore | src/chart.rs:145-150 | with no stop strictly before the offset, no stop time is added |
| Timing.StopWalkIsStopsBefore | src/chart.rs:145-150 | on sorted stops, the stop loop adds exactly the stops strictly before the offset, each in full |
| Timing.StopWalkAppendLate | src/chart.rs:146-148 | a stop at or after the offset, appended to the list, changes nothing |
| Timing.StopAtTargetIgnored | src/chart.rs:146-148 | a stop exactly at the target offset does not delay that offset |
| Timing.StopsBeforeMonotone | src/chart.rs:145-150 | with non-negative stop times, the stop part is non-decreasing in the offset |
| Timing.TimeOfSortedStops | src/chart.rs:126-152 | on sorted stops, `offset_to_time` is the tempo part plus every stop strictly before the offset |
| Timing.OffsetToTimeMonotone | src/chart.rs:126-152 | non-decreasing in the offset, given positive sorted tempos and sorted non-negative stops |
| Timing.SingleTempoTime | src/chart.rs:126-144 | with one tempo from offset 0 and no stops, time is 60/bpm seconds per 48 units |
| Timing.SingleTempoOneBeat | src/chart.rs:132-133 | in that setting, offset 0 is at time 0 and one beat takes 60/bpm seconds |
| Timing.TimeAtZero | src/chart.rs:126-152 | offset 0 is at time 0 when the first tempo starts there and no stop lies before it |
| Chart.ChartTypeFromStr | src/chart.rs:18-27 | accepts exactly "dance-single" and "dance-double"; every other name is an error naming it |
| Chart.ChartTypeRoundTrip | src/chart.rs:18-27 | every chart type is parsed back from its name |
| Chart.DifficultyFromStr | src/chart.rs:39-52 | accepts exactly the six tier names, case-sensitively; every other name is an error naming it |
| Chart.DifficultyRoundTrip | src/chart.rs:39-52 | every tier is parsed back from its name |
| Chart.ParseChartProps | src/chart.rs:157-176 | the loop computes the fold `Collect` of the parsed statements |
| Chart.StatementSkippedIff | src/chart.rs:162-165 | a statement is skipped exactly when its trimmed text has no ':' |
| Chart.StatementKeepsColons | src/chart.rs:162-167 | the key ends at the first ':' and loses its leading and trailing '#' characters; every later ':' stays in the value |
| Chart.PropsKeys | src/chart.rs:169-173 | a key is in the map exactly when it is not NOTES and some statement defines it |
| Chart.PropsLastWins | src/chart.rs:169-173 | for every key but NOTES, the map holds the value of the last statement defining it |
| Chart.NotesLastWins | src/chart.rs:169-171 | the NOTES value is that of the last NOTES statement |
| Chart.NotesAbsent | src/chart.rs:159-171 | without a NOTES statement, the NOTES value stays empty |
| Timeline.NonEmpty | src/chart.rs:89 | a line is kept exactly when it occurs and is non-empty; never more lines than given |
| Timeline.NonEmptyIndices | src/chart.rs:89 | the positions of the non-empty lines: ascending, and every non-empty line's position is among them |
| Timeline.NonEmptyInOrder | src/chart.rs:89 | the kept lines are the lines at those positions, in order and with repeated lines kept |
| Timeline.MeasureRows | src/chart.rs:89 | the rows of a measure are non-empty and hold no newline |
| Timeline.LayMeasures | src/chart.rs:85-92 | measure k is decoded from offset k * 192, and the measures are concatenated in order |
| Timeline.StrToNotes | src/chart.rs:84-123 | the two loops compute `StrToNotesSpec` |
| Timeline.ResolveTimeline | src/chart.rs:94-122 | fails when some division has no arrow; otherwise it resolves every division and keeps those with a surviving arrow |
| Timeline.AllNonEmptyIff | src/chart.rs:95-96 | the front-to-back check passes exactly when every division has an arrow |
| Timeline.AllNonEmptyExtends | src/chart.rs:95-96 | one division without arrows fails the check |
| Timeline.ResolveOne | src/chart.rs:96-120 | one iteration of the outer loop: the resolved, timestamped division when an arrow survives, nothing otherwise |
| Timeline.ResolveDivisionArrows | src/chart.rs:97-111 | the inner loop computes `ResolveArrows` with the `offset_to_time` clock |
| Timeline.Survivors | src/chart.rs:103 | an arrow survives exactly when it is among the division's arrows and is not a FreezeEnd; never more arrows than given |
| Timeline.SurvivorIndices | src/chart.rs:103 | the positions of the non-FreezeEnd arrows: ascending, and exactly those positions |
| Timeline.SurvivorsInOrder | src/chart.rs:103 | the survivors are the arrows at those positions, so surviving arrows keep their relative order and repeats |
| Timeline.ResolveArrowsShape | src/chart.rs:98-111 | resolution keeps exactly the non-FreezeEnd arrows, in order. A hold ends where `find_freeze_end` says; every other arrow ends at 0; every end time is the clock at the end |
| Timeline.KeptIndices | src/chart.rs:113 | the indices of the divisions with a surviving arrow: ascending, and none missed |
| Timeline.ResolvedNonEmptyIff | src/chart.rs:103-113 | a resolved division is pushed exactly when its original arrows include a non-FreezeEnd |
| Timeline.ResolveDivisionsCount | src/chart.rs:113-120 | one output division per kept index |
| Timeline.ResolveDivisionsShape | src/chart.rs:95-121 | output division k is input division `KeptIndices[k]`, with its offset and colour, its arrows resolved, and its time the clock at its offset |
| Timeline.ResolvedArrows | src/chart.rs:94-121 | for any clock, every output division has arrows and is timed by the clock. No arrow is a FreezeEnd; holds end where `find_freeze_end` says, other arrows at 0; every end time is the clock at the end |
| Timeline.StrToNotesArrows | src/chart.rs:84-123 | fails exactly when a decoded division has no arrows. Otherwise: no more divisions than decoded, each with arrows and `time = offset_to_time(offset)`; no FreezeEnd; holds end at `find_freeze_end(notes, offset, lane)`, other arrows at 0; `end_time = offset_to_time(end)` |
| Timeline.ResolvedKeeps | src/chart.rs:94-121 | for any clock, the kept divisions are exactly those with a surviving arrow, in input order, with offset, colour and the relative order of their arrows preserved |
| Timeline.StrToNotesKeeps | src/chart.rs:84-123 | `str_to_notes` keeps a division exactly when one of its arrows is not a FreezeEnd. It preserves input order, offset, colour and the order of surviving arrows |
| Timeline.DecodedIncreasing | src/chart.rs:86-92 | if the decoder keeps each measure's divisions inside the measure and in order, the laid-out timeline is strictly increasing in offset and lies within the measures |
| Timeline.ResolvedIncreasing | src/chart.rs:113-120 | dropping divisions keeps an increasing timeline increasing |
| Timeline.StrToNotesOrdered | src/chart.rs:84-123 | under that decoder condition, the output is strictly increasing in offset and lies within the measures. With positive sorted tempos and sorted non-negative stops, its times never decrease |
| Radar.CountSubsequentNotes | src/groove_radar.rs:18-30 | the loop, with `continue` and `break`, computes `SubsequentNotes` |
| Radar.SubsequentAtMostAfter | src/groove_radar.rs:18-30 | only divisions after the offset are counted: never more than there are, and 0 exactly when there are none |
| Radar.NoneBetweenPastBound | src/groove_radar.rs:20-28 | divisions all at or past the bound lie in no window before it |
| Radar.SubsequentOnSorted | src/groove_radar.rs:20-27 | on sorted input, the count is every division strictly within one measure after the offset, plus the first one a measure or more past it when there is one |
| Radar.CountAfterOwnOffset | src/groove_radar.rs:20-23 | a division never counts itself, so the count from one of the list's own offsets is below the list's length |
| Radar.CountAfterAtMost | src/groove_radar.rs:20-23 | at most the whole list lies after an offset |
| Radar.SectionOf | src/groove_radar.rs:40 | a division is in the section exactly when it is in the list and its offset lies in `[lo, hi)` |
| Radar.WindowIndices | src/groove_radar.rs:40 | the positions of the divisions with offset in `[lo, hi)`: ascending, and every such position is among them |
| Radar.SectionOfIndices | src/groove_radar.rs:40 | the section is the list taken at those positions: input order and repeated divisions are kept |
| Radar.CreateBpmSectionList | src/groove_radar.rs:35-42 | exactly one section per tempo. Section k holds exactly the divisions from tempo k's offset up to the next tempo's offset, or up to the last division's offset for the last section |
| Radar.BpmSectionIndices | src/groove_radar.rs:35-42 | section k is the list taken at the ascending positions of the divisions from tempo k's offset up to its boundary, in input order |
| Radar.LastOffsetInNoSection | src/groove_radar.rs:36-40 | when no tempo starts after the last division, a division at the last division's offset lies in no section |
| Radar.MaxSubsequent | src/groove_radar.rs:48 | the maximum of the subsequent-note counts: attained by some division and at least every one |
| Radar.CalcMaxNotesInBpmSection | src/groove_radar.rs:44-50 | 0 on an empty section; otherwise the maximum count of subsequent notes from one of the section's own divisions, which is below the section's size |
| Radar.MaxSectionDensity | src/groove_radar.rs:54 | the maximum section density: attained by some section and at least every one |
| Radar.CalcMaxNoteDensity | src/groove_radar.rs:52-55 | the density of the densest tempo section, which is below the number of divisions |
| Radar.TruncateTowardZero | src/groove_radar.rs:61 | rounds toward zero: the result is the whole part of its argument |
| Radar.AsI32 | src/groove_radar.rs:61-63 | the result lies within the i32 bounds |
| Radar.AsI32Monotone | src/groove_radar.rs:61-63 | the conversion is non-decreasing |
| Radar.AsI32AtLeast | src/groove_radar.rs:61-63 | for a positive whole threshold up to I32_MAX, the converted score reaches it exactly when the real score does |
| Radar.AsI32NonNegative | src/groove_radar.rs:61-63 | a non-negative real score converts to a non-negative score |
| Radar.StreamRemapShape | src/groove_radar.rs:60-64 | both pieces give 100 at 300 notes per minute; the remap is non-decreasing, below 100 exactly below 300, and never negative on a non-negative rate |
| Radar.CalcStream | src/groove_radar.rs:57-65 | never negative, and at least 100 exactly when the chart has 300 or more divisions per minute between its first and last division |
| Radar.CalcAverageBpm | src/groove_radar.rs:67-79 | the windowed loop computes `AverageBpm` |
| Radar.AverageBpmSingleTempo | src/groove_radar.rs:67-79 | with one tempo from offset 0, no stops, and the last division timed by `offset_to_time` at a positive time, the average is that tempo |
| Radar.WeightedBeatsTelescope | src/groove_radar.rs:73-77 | when every window weighs 60 times its beats, the sum is 60 times the beats from the first tempo to the end |
| Radar.WindowCountsBeats | src/groove_radar.rs:73-76 | without stops, on sorted tempos none of which starts after the end offset, each window weighs 60 times the beats it spans |
| Radar.WindowTime | src/groove_radar.rs:74-75 | without stops, on sorted tempos, a window's seconds are those at its own tempo |
| Radar.ElapsedTimesTempo | src/groove_radar.rs:76 | seconds at a tempo, times that tempo, are 60 times the beats covered |
| Radar.AverageBpmIsBeatRate | src/groove_radar.rs:67-79 | without stops, on sorted tempos from offset 0 with none after the last division, the average is the beats up to the last division per minute of its time |
| Radar.VoltageRemapShape | src/groove_radar.rs:85-89 | both pieces give 100 at 600; the remap is non-decreasing and below 100 exactly below 600 |
| Radar.CalcVoltage | src/groove_radar.rs:81-91 | at least 100 exactly when the peak density per minute reaches 600 |
| Radar.CountWhere | src/groove_radar.rs:94-95 | a filter count is at most the number of divisions |
| Radar.AirRemapShape | src/groove_radar.rs:98-102 | both pieces give 100 at 55; the remap is non-decreasing, below 100 exactly below 55, and never negative on a non-negative rate |
| Radar.CalcAir | src/groove_radar.rs:93-103 | never negative, and at least 100 exactly when jumps plus shocks reach 55 per minute |
| Radar.CalcFreeze | src/groove_radar.rs:105-107 | always 0 |
| Radar.CalcChaos | src/groove_radar.rs:109-111 | always 0 |
| Radar.GetGrooveRadar | src/groove_radar.rs:113-121 | the five scores come from their own calculations. Freeze and chaos are 0; stream and air are never negative |

## Left out

- `src/main.rs` is not part of this model. It does directory walking, file reads, JSON output and display formatting.
- `create_chart`, `sm_to_chart` and `ssc_to_chart` are not modelled. They read files and chain `unwrap`s around the helpers modelled here.
- The string parsing of `Bpm::from_str`, `Stop::from_str` and the display types in `src/gimmick.rs` is not modelled. Only the `Stop` and `Bpm` records are kept.
- The bodies of `bar_to_divisions`, `find_freeze_end`, `Division::is_jump`, `Division::is_shock` and the division colour logic are not part of this model. They are parameters, so every result holds for any such functions, except where a lemma requires `Timeline.DecodesWithinMeasure` of the decoder (`Timeline.DecodedIncreasing` and `Timeline.StrToNotesOrdered`).
- f32 rounding is not modelled: all arithmetic on seconds, tempos and scores is exact `real` arithmetic. NaN and infinities do not arise in the model. The `as i32` cast is modelled exactly on reals.
- The serde derives are not modelled.
- Division by zero is excluded by preconditions:
  - stream needs the last division later than the first;
  - air needs the last division at a positive time;
  - the average tempo needs the last division at a non-zero time;
  - the tempo of every breakpoint must be non-zero.

  In f32 these cases give infinities or NaN, which the scores then truncate.
- A panic is an `Err` value in `make_arrows`, `int_to_direction` and the `assert_ne!` of `str_to_notes`. Elsewhere the panic conditions are preconditions:
  - `unwrap` on an empty list in `create_bpm_section_list` and the score functions;
  - `bpms[0]` on an empty tempo list.
- Timeline.StrToNotes: requires a non-empty list of non-zero tempos. The source calls `offset_to_time`, which indexes `bpms[0]`, only for a kept division. So it also accepts an empty tempo list when no division is kept, that is when every decoded division holds only FreezeEnd arrows (including when there are no divisions).
- Timing.OffsetToTime: requires non-zero tempos. The source divides only by the tempos its loop reaches; a zero tempo there gives an infinite time, or NaN when the elapsed beats are 0.
- The loops of `str_to_notes` and `offset_to_time` are split over several methods, with the same steps:
  - `str_to_notes` into `LayMeasures`, `ResolveTimeline`, `ResolveOne` and `ResolveDivisionArrows`;
  - `offset_to_time` into `WalkTempos` and `AddStops`.
- The example comment at `src/groove_radar.rs:32-34` shows a section before the first tempo. The code has none, and has exactly one section per tempo; the model follows the code.
- Offsets and counts are `i32` in the source and unbounded `int` in the model, so integer overflow is not modelled.
