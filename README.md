# Flight schedule densification, in Dafny

This project models the data pipeline of `update_graph` in `app.py`, the callback
of a Dash application that animates a flight schedule on a map. Once a CSV file
has been decoded, the callback runs these steps:

1. It strips the header and reports any missing required columns.
2. It spreads `total_frames` evenly spaced instants between the earliest
   departure and the latest arrival.
3. For every instant, in order, and every flight, in row order, it appends one
   interpolated position for each flight that is airborne at that instant.
4. It shows an empty-state message when no position was produced.
5. It colours each airport code by its first-appearance position, cycling
   through a 15-entry palette.
6. It builds the static airport layer: origins then destinations, deduplicated
   by code, keeping the first row.
7. It keys a heading by flight id and builds the hover label of each row.
8. It groups the rows into one animation frame per distinct instant.
9. It labels the slider steps.

Modules, in pipeline order:

| module | file | what it holds |
|---|---|---|
| `Seqs` | seqs.dfy | order-preserving deduplication (`pd.unique`) and first-occurrence facts |
| `Header` | header.dfy | `str.strip` on column names; the missing-column list |
| `Schedule` | schedule.dfy | the `Flight` and `Point` rows; the activity window; ratio and interpolation |
| `Timeline` | timeline.dfy | window bounds; frame count; `pd.date_range(start, end, periods=n)` on whole seconds |
| `Densify` | densify.dfy | the nested loops as two methods, proved equal to `Densified`; properties of the points |
| `Colours` | colours.dfy | the palette, the airport order and the colour map |
| `Airports` | airports.dfy | the deduplicated airport layer and its markers |
| `Annotate` | annotate.dfy | bearing map keyed by flight id; hover label and a parser for it |
| `Frames` | frames.dfy | grouping into frames (a loop method proved equal to `GroupByInstant`); partition facts; slider instants |
| `Pipeline` | pipeline.dfy | the whole run as `Render`, the method `UpdateGraph`, and end-to-end lemmas |

How values are represented:

- Instants are whole seconds (`int`) and coordinates are `real`.
- The bearing formula is a function parameter `bearing`.
- The outcome of a run is one of four values:
  - `Missing(columns)`: the red error message;
  - `Failed(EmptyDataset)`: an empty table, whose `NaT` minimum makes `int(...)`
    raise into the generic handler;
  - `NoFlightsInRange`: the orange empty-state message;
  - `Animated(...)`: the figure's timeline, frames, airport markers and slider labels;
    as at app.py:235, slider step `i` is labelled with timeline instant `i`.

The densification and frame-assembly loops are methods. Each is proved equal to a
function, and the properties are proved about that function.

## Model

| member | source | states |
|---|---|---|
| Header.Strip | app.py:86 | the result is the input with its leading and trailing whitespace removed: a slice after the leading blanks, followed only by blanks, with non-blank ends |
| Header.StripIdempotent | app.py:86 | stripping a stripped name changes nothing |
| Header.StripPadded | app.py:86 | a name padded with one space on each side strips back to the name |
| Header.StripAll | app.py:86 | every column name is stripped, position by position |
| Header.Absent | app.py:93 | a name is listed exactly when it is required and not present |
| Header.MissingColumns | app.py:88-95 | the list holds exactly the required names missing from the stripped header, and it is empty iff every required column is present |
| Header.AbsentKeepsOrder | app.py:93 | over distinct required names, the absent names are listed at increasing positions of `required`, the order the comprehension iterates in |
| Header.MissingColumnsInOrder | app.py:93-96 | the missing names are reported in the order of the nine required columns |
| Header.RequiredColumnsDistinct | app.py:88-91 | no required column is named twice |
| Schedule.Progress | app.py:112-114 | the ratio is 0 for a non-positive duration and at departure, 1 at arrival, within [0,1] for an active flight, and ratio × duration = elapsed otherwise |
| Schedule.Lerp | app.py:115-116 | ratio 0 gives the origin, ratio 1 gives the destination, and a ratio in [0,1] stays between the two ends |
| Schedule.Sample | app.py:111-123 | the row carries the flight's id, origin and instant; for a positive duration its offset from the origin is the origin-to-destination offset scaled by elapsed/duration, in latitude and in longitude; it is at the origin at departure and for a zero-duration flight, at the destination at arrival, and within both coordinate ranges while active |
| Timeline.MinDeparture | app.py:102 | the earliest departure: no flight departs before it, and some flight departs at it |
| Timeline.MaxArrival | app.py:103 | the latest arrival: no flight lands after it, and some flight lands at it |
| Timeline.TruncDiv | app.py:105 | `int()` truncation toward zero of a quotient, for either sign of the dividend |
| Timeline.FrameCount | app.py:104-105 | the count is at least 1; it is the integer part of seconds × fph / 3600 once that reaches 1; it is 1 below two frames' worth |
| Timeline.FrameCountAtMostSeconds | app.py:54 | at slider densities (at most one frame per second) the count is 1 or at most the window length in seconds |
| Timeline.SpacedBounds | app.py:106 | each evenly spaced instant lies in the window, the first at the start and the last at the end |
| Timeline.SpacedMono | app.py:106 | the spaced instants never decrease, and strictly increase when the window has at least n−1 seconds |
| Timeline.SpacedValue | app.py:106 | instant k is k/(n−1) of the way through the window, rounded down to a whole second |
| Timeline.DateRange | app.py:106 | exactly n instants; the first at the start and the last at the end when n ≥ 2; instant k is the start plus k/(n−1) of the window, rounded down to a whole second; never decreasing; within the window when it is not negative; strictly increasing when the steps are at least a second |
| Timeline.GenerateTimeline | app.py:102-106 | fails exactly on an empty table; otherwise it is the date range from the earliest departure to the latest arrival with `FrameCount` instants, so it starts at the earliest departure, ends at the latest arrival when it has at least two instants, never decreases, lies within the window on a well-formed table, and is strictly increasing at slider densities |
| Timeline.WindowFacts | app.py:102-105 | the window is negative only when the count is 1, never negative on a well-formed table, and at slider densities it holds at least one second per step |
| Densify.PointsAt | app.py:110-123 | no more rows than flights, all at instant t, and some row exists iff some flight is airborne at t |
| Densify.Densified | app.py:108-123 | every row's instant is a timeline instant |
| Densify.Densify | app.py:108-123 | the nested loops compute exactly `Densified(ts, fs)` |
| Densify.SampleInstant | app.py:110-123 | the inner loop computes exactly `PointsAt(t, fs)` |
| Densify.PointsAtSound | app.py:111-123 | every row at t is the sample of a flight active at t |
| Densify.PointsAtComplete | app.py:111-123 | every flight active at t contributes its sample |
| Densify.DensifiedSound | app.py:108-123 | every row is the sample of some flight at some timeline instant at which it is active |
| Densify.DensifiedComplete | app.py:108-123 | every (instant, active flight) pair contributes its sample |
| Densify.DensifiedMembership | app.py:108-123 | a point is produced iff it is the sample of a flight active at a timeline instant |
| Densify.DensifiedEmpty | app.py:108-125 | no rows are produced iff no flight is airborne at any timeline instant |
| Densify.RowsPerFlight | app.py:109-123 | with distinct flight ids, a flight has exactly as many rows as there are timeline instants in its closed window |
| Densify.PointsAtCount | app.py:110-123 | with distinct ids, a flight has one row at t when active and none otherwise |
| Densify.CountIdAppend | app.py:117 | appending rows adds their per-id counts |
| Densify.Framed | app.py:125-127 | the timeline instants at which some flight is airborne: only those, and all of them |
| Densify.FramedAppend | app.py:109 | the airborne instants of a concatenated timeline are those of each part in order |
| Densify.FramedAllActive | app.py:109-111 | when every instant has an airborne flight, every instant is kept |
| Densify.FramedIsPrefixIff | app.py:109-111 | the airborne instants are a prefix of the timeline iff each of the first that-many instants has an airborne flight |
| Densify.DistinctInstantsFit | app.py:205 | there are never more distinct row instants than timeline instants |
| Densify.DensifiedInstantsNondecreasing | app.py:108-120 | over an ordered timeline the row instants never decrease |
| Densify.DistinctInstantsAreFramed | app.py:205 | over a strictly increasing timeline the distinct row instants are exactly the airborne timeline instants, in timeline order |
| Densify.EarlierInstantsBelow | app.py:108-120 | the last instant of a strictly increasing timeline has no row from the earlier instants |
| Seqs.FirstIndex | app.py:144 | the position of the first occurrence: it holds x and nothing before it does |
| Seqs.Unique | app.py:132 | the same members as the input, each once, and no longer than the input |
| Seqs.UniqueSnoc | app.py:132 | a new element is appended at the end; a repeated one changes nothing |
| Seqs.UniqueMembership | app.py:132 | membership in the deduplicated sequence is membership in the input |
| Seqs.UniqueFollowsFirstAppearance | app.py:132 | the deduplicated elements come in the order of their first appearance |
| Seqs.UniqueOfNondecreasing | app.py:205 | deduplicating a non-decreasing sequence gives a strictly increasing one |
| Seqs.UniqueAppendRun | app.py:205 | a run of one new value adds exactly that value once |
| Colours.AllAirports | app.py:132 | the distinct codes of all origins then all destinations, in first-appearance order; every origin and destination code is among them |
| Colours.AssignColours | app.py:138 | the keys are exactly the listed airports, and over distinct airports position k gets palette entry k mod the palette length |
| Colours.ColourMap | app.py:133-138 | every origin and destination code has a colour, and the keys are exactly the airports |
| Colours.ColourOfPosition | app.py:138 | the airport at first-appearance position k gets `Palette[k % 15]` |
| Colours.SharedColourBeforeWrap | app.py:133-138 | with 14 or more airports, the 10th and 14th airports are different codes with one colour |
| Colours.PaletteRepeats | app.py:135-136 | palette entries 9 and 13 are equal |
| Colours.ColourWraps | app.py:138 | airports 15 positions apart share a colour |
| Airports.DropDuplicateCodes | app.py:144 | the kept codes are exactly the distinct input codes in first-appearance order |
| Airports.DropKeepsFirstRow | app.py:144 | each kept row is the first input row carrying its code |
| Airports.DroppedEntryIsFirstRow | app.py:144 | each kept row is an input row whose code does not occur earlier |
| Airports.CodesOfRows | app.py:140-144 | the concatenated rows' codes are the origin codes followed by the destination codes |
| Airports.FirstCodeOwner | app.py:144 | the first occurrence of a code among origins-then-destinations is the first departure from it, or, if none departs, the first arrival |
| Airports.AirportLayer | app.py:140-144 | its codes are exactly the colour map's airports, in the same order: one entry per distinct code |
| Airports.LayerKeepsFirstOccurrence | app.py:140-144 | each entry has the coordinates of the first flight leaving that airport, or else of the first flight arriving there |
| Airports.AirportMarkers | app.py:187-197 | one marker per airport, in layer order, at that layer entry's coordinates; each has a colour, and it is the palette entry of that airport's position |
| Annotate.BearingMap | app.py:157 | keys are exactly the flight ids; the heading of the last row with an id wins |
| Annotate.Ids | app.py:157 | every row's flight id is a key |
| Annotate.BearingOfUniqueIds | app.py:157-158 | with one row per id, each flight's heading is its own |
| Annotate.DuplicateIdKeepsLast | app.py:157 | with a repeated id, the earlier row's heading is lost to the later one |
| Annotate.HoverText | app.py:161 | the label is `<b>`, then the id, then `</b><br>Origin: `, then the origin code, at the stated offsets |
| Annotate.HoverRoundTrip | app.py:161 | an id without `<` can be read back, together with the origin, from its label |
| Annotate.ParsedHoverIsLabel | app.py:161 | whatever reads back as (id, origin) is exactly that pair's label |
| Annotate.HoverAmbiguousWithTags | app.py:161 | an id containing the separator gives two different (id, origin) pairs one label |
| Frames.RowInstantsOfAnnotated | app.py:158-161 | annotating the rows keeps their instants |
| Frames.Select | app.py:206 | only rows at instant t, each from the input, and every input row at t |
| Frames.SelectAppend | app.py:206 | filtering a concatenation filters each part in order |
| Frames.GroupByInstant | app.py:204-227 | one frame per distinct row instant, in first-appearance order, frame i named i and holding exactly the rows at its instant |
| Frames.AssembleFrames | app.py:204-227 | the loop computes exactly `GroupByInstant` |
| Frames.FramesCoverInstants | app.py:204-227 | no frame is empty, every row's instant has a frame, and no two frames share an instant |
| Frames.FrameMarkerRow | app.py:206-221 | each plane marker of a frame is drawn from a row at that frame's instant: its position, heading, origin colour and hover label |
| Frames.FramesAscend | app.py:205 | over non-decreasing row instants the frames are in strictly ascending time |
| Frames.FramesPartitionRows | app.py:204-227 | the frames' row sets together are a permutation of the rows |
| Frames.GatheredSnoc | app.py:206 | a new row joins the gathering once when its instant is listed, and not otherwise |
| Frames.FramesShowEveryRowOnce | app.py:204-227 | the frames together show exactly as many planes as there are rows |
| Frames.AllPlanesGathered | app.py:204-227 | the planes of the first n frames are the markers of the rows at the first n distinct instants |
| Frames.SliderInstantsAsWritten | app.py:235 | label i is timeline instant i: the position-based pairing of the source |
| Frames.SliderInstants | app.py:235 | the corrected labels: label i is the instant of frame i |
| Pipeline.Render | app.py:86-235 | an animated outcome has at least one frame, one airport marker per distinct airport, no more frames than timeline instants, and as its slider labels the first `\|frames\|` timeline instants, step i labelled with timeline instant i |
| Pipeline.UpdateGraph | app.py:86-235 | the step-by-step run returns exactly `Render` |
| Pipeline.TimelineOf | app.py:102-106 | on a non-empty table the timeline is non-empty and starts at the earliest departure |
| Pipeline.StopsIffColumnMissing | app.py:93-97 | the run stops with the missing names iff a required column is absent after stripping, and the names are exactly those absent |
| Pipeline.FailsIffEmptyTable | app.py:102-106 | with a complete header the run fails iff the table is empty |
| Pipeline.NoFlightsIffNoneAirborne | app.py:125-127 | the empty-state message appears iff no flight is airborne at any timeline instant |
| Pipeline.WellFormedTableAnimates | app.py:102-127 | a non-empty table whose flights land no earlier than they depart always animates |
| Pipeline.FramesAreAirborneInstants | app.py:204-227 | at slider densities the instants the frames show are exactly the airborne timeline instants, in order |
| Pipeline.FramesAscendInTime | app.py:204-227 | the frames are in strictly ascending time, also on a table with a flight that lands before it departs |
| Pipeline.PlaneMatchesAirportColour | app.py:187-216 | every plane's origin has a colour, and it is the colour of that airport's static marker |
| Pipeline.PlaneHasHeading | app.py:157-158 | every plane has a heading, its own flight's when ids are distinct |
| Pipeline.FrameMarkerIsPlane | app.py:204-227 | every plane marker of every frame has a heading and a colour, and is a densified row at that frame's instant: at its position, with its hover label and heading lookup, in the colour of its origin airport's static marker |
| Pipeline.SliderLabelsAgreeIffNoGap | app.py:235 | the slider labels equal the instants the frames show iff each of the first `\|frames\|` timeline instants has an airborne flight |
| Pipeline.AnimatedLabels | app.py:102-227 | a well-formed table at slider densities animates over its timeline, and its frames show exactly the airborne instants |
| Pipeline.GapTimeline | app.py:102-106 | the example table at 30 frames per hour has the timeline 0, 180, 360 |
| Pipeline.GapFramed | app.py:109-111 | in that example only instants 0 and 360 have an airborne flight |
| Pipeline.SliderLabelsMisattributed | app.py:235 | in that example the slider labels are 0 and 180 while the frames show 0 and 360 |

## Left out

- Dash layout, the other callbacks, the template download and `app.run`: these are UI and framework code.
- Base64 and CSV decoding and `pd.to_datetime`: these are I/O and library parsing. Flights arrive with whole-second timestamps.
- Timestamps finer than a second: `pd.Timestamp` has nanosecond resolution, and the model rounds instants to whole seconds, truncating the spaced instants toward the start. A flight that lands inside a truncated second therefore counts as airborne in the model but not in the source, so rows and frames can differ: flights 0–0, 50–50 and 101–101 at 120 frames per hour have the instants 0, 50.5 and 101 s in the source, which draws 2 frames, while the model's instants 0, 50 and 101 give 3.
- `calculate_bearing` (app.py:146-155): a floating-point `sin`/`cos`/`atan2` formula. It is the parameter `bearing`, and only the keyed map is modelled.
- Float rounding of `total_hours * frames_per_hour` (app.py:104-105): the model divides exactly on integers.
- Timeline.FrameCount: it takes any integer density. The lemmas that need more ask for `0 < fph <= 3600`. The slider offers only 30 to 120 (app.py:54).
- The `"Please upload"` branch (`contents is None`) and the generic exception handler (app.py:269-275). An empty table reaches that handler and is modelled as `Failed(EmptyDataset)`. Any other exception is not modelled.
- Plotly figure, traces, the initial-frame trace (app.py:166-184), the slider's other settings, play buttons and `strftime` formatting: these are rendering. Frame names are the numbers `i`, not the strings `str(i)`. Slider labels are instants, not `HH:MM` text.
- Pipeline.Render: its own contract states the shape of an animation and its slider labels; what the frames and airport markers hold is stated by the lemmas of the `Pipeline` module.
- Schedule.Progress: the ratio is exact over the reals; Python's floating-point division and its rounding are not modelled.
- Schedule.Lerp: the endpoint and range facts hold over the reals only. In IEEE doubles `-90.0 + (-31.7 - -90.0) * 1.0` is `-31.700000000000003`, so a plane at its arrival can miss the destination by a rounding step.
- Schedule.Sample: its linear-position, endpoint and range facts are exact over the reals; the source's floating-point positions can differ from them by rounding.
- Frames.Select: its contract states which rows it keeps, not their order. Order within a frame follows from its definition as a filter, and `SelectAppend` states it.

## Findings

| source | as written | input that shows it | evidently intended | confidence | as-written member | corrected member |
|---|---|---|---|---|---|---|
| app.py:235 | slider step `i` is labelled with `animation_timestamps[i]`, the i-th timeline instant, although frame `i` shows the i-th instant that had an airborne flight | flight F1 from 0 s to 60 s and flight F2 from 300 s to 360 s, at 30 frames per hour: the timeline is 0, 180, 360; frames exist for 0 and 360; the second step is labelled 180 but shows 360 | each step labelled with the instant its frame shows | not executed | Pipeline.SliderLabelsMisattributed | Frames.SliderInstants |

`Frames.SliderInstantsAsWritten` models the pairing as written, and
`Pipeline.Render` and `Pipeline.UpdateGraph` label the steps with it, as the
source does. `Pipeline.SliderLabelsAgreeIffNoGap` proves that these labels match
the frames only when no timeline instant before the last frame is empty, and
`Pipeline.SliderLabelsMisattributed` shows an input where they do not.
`Frames.SliderInstants` is the corrected labelling, the instant each frame shows;
`Pipeline.FramesAreAirborneInstants` proves that it is exactly the airborne
timeline instants, in order.

The code needs no interval index, parallelism or resource limit: it scans every
flight at every instant.
