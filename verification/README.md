# Support/resistance zones of `find-forex-SRs.py`, modelled in Dafny

The program reads a series of `(time, close)` price bars. It turns them into
support/resistance zones in three pure stages:

1. **Extrema scan** (`find_extrema`, helper `mymax`). A cursor walks the bars.
   At each cursor, window widths 4 to 11 are tried. At each width a *peak*
   is tried first, then a *valley*. A peak's highest close clears the first
   and last bars of the window by more than `close(cursor) * min_ht / 100`, and
   strictly beats the second and second-to-last bars. A valley is the mirror
   image. A hit records the extreme bar and moves the cursor past the window;
   otherwise the cursor moves on by one. Cursors stop 12 bars before the end.
2. **Per-day zones** (`cluster_zones`). For every day `D` from `from_date` to
   `to_date` inclusive:
   - collect the closes of extrema time-stamped in `[D - period, D]`, and skip
     the day if there are fewer than 25;
   - cluster them, and keep the centres that at least `min_touches` values lie
     within `zone_width / 2` of, each rounded to 4 decimals;
   - append the window's minimum and maximum, and sort;
   - store the list under `D + 1`, or under `D + 2` and `D + 3` when `D` is a
     Friday.
3. **Levels** (`zones_to_levels`). The date-to-zone-list map is walked in
   order. Every price becomes a level `(price, start, end)`, running from the
   day it appears to the day it disappears, or to the last day.

Files:

- `wrappers.dfy`: `Option`.
- `bars.dfy`: bars, days and weekdays.
- `rounding.dfy`: `round(x, 4)`.
- `price_lists.dfy`: sorting, minimum and maximum of price lists.
- `extrema.dfy`: stage 1.
- `zones.dfy`: stage 2.
- `levels.dfy`: stage 3.

Modelling choices:

- **Prices** are `real`.
- **Times** are integer seconds since 1970-01-01 UTC.
- **Days** are integers counting days since that date. Day `d` starts at `d * 86400`, and its weekday is `(d + 3) % 7`, where Monday is 0 and Friday is 4, as in Python's `weekday()`.
- **The clustering step** `cluster_sk` is a function parameter (`Zones.Clusterer`). The cluster count and the mean/median choice that it reads from globals are passed to it explicitly.
- **The zone calendar** is a `map<int, seq<real>>`.
- **The levels** are a set of `Level` values.

Extrema scan:

- **Each width** is modelled twice. The width loop is the method `ScanWidths`. The first width that shows a shape is the function `FirstHit`, and the method is proved to compute it.
- **The whole scan** is described by a table with one entry per cursor, `HitTable`. The cursor walk over that table is `ScanHits` and `ScanBars`, and the method `FindExtrema` is proved to return the bars that walk visits.

Zone calendar:

- **`IsCalendar`** is an independent definition of the map `cluster_zones` returns. A key is present exactly when some processed day targets it with a zone list. It then holds the list of the *last* such day.
- **`ClusterZones`** is proved to build that map.
- **Lemmas** then derive from `IsCalendar` the next-day rule, the weekend rule, where entries come from, and that they are sorted.

Levels:

- **The input** to `zones_to_levels` is a sequence of `Entry(day, prices)` in the dictionary's iteration order. That order is the order keys were first inserted, and `InsertionOrderAscending` shows it is ascending in the day.
- **The output** is characterised by `ZonesToLevelsAreRuns`. There is exactly one level per maximal run of consecutive entries containing a price.

## Model

| member | source | states |
|---|---|---|
| Bars.Weekday | find-forex-SRs.py:112 | the weekday of a day is between 0 and 6 |
| Bars.WeekdayNext | find-forex-SRs.py:112 | consecutive days have consecutive weekdays, Sunday (6) wrapping round to Monday (0) |
| Extrema.MyMax | find-forex-SRs.py:229-244 | the index returned lies inside the scanned slice `[start, start + width)` |
| Extrema.MyMaxIsFirstExtreme | find-forex-SRs.py:229-244 | the returned value is the close at the returned index; no bar of the slice is strictly more extreme; every bar before it is strictly less extreme, so ties go to the first |
| Extrema.ThresholdIsPercent | find-forex-SRs.py:165 | the threshold `th` is `min_ht` percent of the cursor bar's close |
| Extrema.PeakShape | find-forex-SRs.py:171-173 | a window is a peak exactly when some highest bar of it closes more than `th` above the first and last bars and strictly above the second and second-to-last bars |
| Extrema.ValleyShape | find-forex-SRs.py:179-181 | a window is a valley exactly when some lowest bar of it closes more than `th` below the first and last bars and strictly below the second and second-to-last bars |
| Extrema.WidthHit | find-forex-SRs.py:171-184 | a hit at one width has that width and records a position inside the window `[idx, idx + width)` |
| Extrema.FirstWidth | find-forex-SRs.py:168 | the first width in `width..11` passing a test: it passes, every narrower width fails, and no width passes when the result is none |
| Extrema.FirstWidthAfterMisses | find-forex-SRs.py:168-184 | widths that fail can be skipped: the search from after them finds the same first width |
| Extrema.FirstHit | find-forex-SRs.py:168-184 | the hit found from a width has a width between it and 11 and a position inside its window |
| Extrema.FirstHitIsFirstShape | find-forex-SRs.py:165-184 | a hit is at the first width showing a peak or a valley and records the first highest bar of a peak, else the first lowest bar of a valley; no hit means no width shows either shape |
| Extrema.ScanWidths | find-forex-SRs.py:168-184 | the `for width` loop with its `break`s returns the first hit over widths 4..11 |
| Extrema.HitTableAt | find-forex-SRs.py:160-165 | each cursor's table entry is the width loop run with that cursor's own threshold `close * min_ht / 100` |
| Extrema.TryWidths | find-forex-SRs.py:165-184 | the work at one cursor finds a pattern exactly when the cursor's table entry is a hit, and returns that hit's position and width |
| Extrema.ScanHits | find-forex-SRs.py:160-186 | the positions recorded by the cursor walk lie inside the bars and strictly increase |
| Extrema.ExtremaPositions | find-forex-SRs.py:153-187 | no positions are recorded for 12 bars or fewer; the positions are in bounds and strictly increase |
| Extrema.WalkStep | find-forex-SRs.py:174-186 | one cursor move: a hit records its bar and jumps past its window, a miss advances by one, and the rest of the walk is unchanged |
| Extrema.ScanBarsAtPositions | find-forex-SRs.py:174-186 | the bars the walk appends are exactly the bars at the recorded positions, in order |
| Extrema.Walk | find-forex-SRs.py:157-187 | the cursor loop returns the bars the cursor walk over the hit table records |
| Extrema.FindExtrema | find-forex-SRs.py:153-187 | the result is empty for 12 bars or fewer, and is the list of bars at the recorded positions, in scan order |
| Extrema.VisitedCursors | find-forex-SRs.py:160-186 | the cursors the walk visits start at the first cursor, stay below the last cursor and strictly increase |
| Extrema.ExtremaAreWindowExtremes | find-forex-SRs.py:160-186 | every recorded bar lies in the winning window of a cursor among those the scan visits: the first width there with a peak or a valley, at its first extreme bar |
| Extrema.VisitedHitsRecorded | find-forex-SRs.py:160-186 | the walk records the hit of every cursor it visits: no hit it meets is dropped |
| Extrema.FirstShapeIsFirstHit | find-forex-SRs.py:165-184 | when a width is the first to show a shape and a bar is the one chosen for it, the width loop returns exactly that width and bar |
| Extrema.WinnerInTable | find-forex-SRs.py:160-184 | a cursor's winning window is that cursor's table entry |
| Extrema.VisitedWinnersRecorded | find-forex-SRs.py:160-186 | the converse of `ExtremaAreWindowExtremes`: the bar of the winning window at any visited cursor is recorded |
| Rounding.Round4 | find-forex-SRs.py:95 | the rounded value is a multiple of 0.0001 within half a step of its argument |
| PriceLists.Insert | find-forex-SRs.py:107 | inserting into a sorted list keeps it sorted and adds exactly the new element |
| PriceLists.SortAscending | find-forex-SRs.py:107 | `sort()` yields an ascending permutation of its input |
| PriceLists.SortAscendingMembers | find-forex-SRs.py:107 | sorting neither adds nor drops a value |
| PriceLists.SeqMin | find-forex-SRs.py:78 | `min` of a non-empty list is one of its elements and no larger than any of them |
| PriceLists.SeqMax | find-forex-SRs.py:79 | `max` of a non-empty list is one of its elements and no smaller than any of them |
| Zones.WindowValues | find-forex-SRs.py:71-74 | every close of an extremum timed within `[D - period, D]`, bounds inclusive, is collected, and every collected value is such a close |
| Zones.WindowPositions | find-forex-SRs.py:72-73 | the positions of the extrema in the window, each exactly once, in increasing order |
| Zones.WindowValuesInOrder | find-forex-SRs.py:71-74 | the collected values are the closes at the window's positions, one per extremum, in the extrema's order |
| Zones.WindowValuesCount | find-forex-SRs.py:71-75 | the number of collected values is the number of extrema in the window; equal prices are not merged |
| Zones.DayZonesWhenEnough | find-forex-SRs.py:71-76 | a day yields a zone list exactly when at least 25 extrema lie in its window, so 24 means the day is skipped |
| Zones.TouchCount | find-forex-SRs.py:90-94 | the count is zero exactly when no value lies strictly within half a zone width, and is the full length exactly when all do |
| Zones.TouchCountIsTouching | find-forex-SRs.py:90-94 | the count is the number of values, duplicates included, lying strictly within half a zone width of the unrounded centre |
| Zones.KeptZones | find-forex-SRs.py:95-104 | every centre with enough touches contributes its 4-decimal rounding, and every kept price is the rounding of such a centre |
| Zones.KeptPositions | find-forex-SRs.py:101-104 | the positions of the centres with enough touches, each exactly once, in increasing order |
| Zones.KeptZonesInOrder | find-forex-SRs.py:95-104 | the kept prices are the roundings of the centres at those positions, one per kept centre, in the centres' order |
| Zones.KeptZonesCount | find-forex-SRs.py:90-104 | there is one kept price per centre with enough touches; equal roundings are not merged |
| Zones.DayZones | find-forex-SRs.py:66-107 | a day yields a zone list exactly when at least 25 values are collected for it; the list is sorted and has at least two elements |
| Zones.ZoneListContents | find-forex-SRs.py:89-107 | the sorted list holds the minimum, the maximum and every kept centre's rounding, and nothing else; as a multiset it is the kept roundings plus one minimum and one maximum |
| Zones.DayZonesContents | find-forex-SRs.py:71-107 | a day's zone list holds its window's minimum and maximum and the rounding of every centre touched at least `min_touches` times, and nothing else, each with its multiplicity |
| Zones.LastWriter | find-forex-SRs.py:112-116 | the last processed day that targets a key, if any, and that no later processed day targets it |
| Zones.FirstWriter | find-forex-SRs.py:112-116 | the first processed day that targets a key, if any, and that no earlier processed day targets it |
| Zones.Record | find-forex-SRs.py:112-116 | storing a day's list adds exactly its target keys, one day later or, for a Friday, two and three days later; those keys get the list and every other key keeps its value |
| Zones.EmptyCalendar | find-forex-SRs.py:57 | before any day is processed the map is empty |
| Zones.RecordExtends | find-forex-SRs.py:112-116 | storing one more day's list under its target keys extends the calendar to that day |
| Zones.ClusterZones | find-forex-SRs.py:50-117 | the returned map has, for each key, the list of the last processed day in `from..to` inclusive that targets it, and no other keys |
| Zones.CalendarUnique | find-forex-SRs.py:50-117 | the calendar of a day range is determined by the days' zone lists |
| Zones.CalendarEntryOrigin | find-forex-SRs.py:112-116 | every stored list is the list of a processed day one to three days before its key |
| Zones.CalendarEntriesSorted | find-forex-SRs.py:105-116 | every stored list is sorted and has at least two elements |
| Zones.WeekdayStoresNextDay | find-forex-SRs.py:115-116 | a non-Friday day with a list stores it under the next day, where nothing later overwrites it |
| Zones.WritesBefore | find-forex-SRs.py:112-116 | a day only writes keys one to three days after itself |
| Zones.FridayStoresSunday | find-forex-SRs.py:112-116 | a Friday's list lands on Sunday unless the following Saturday produced a list, which then replaces it |
| Zones.FridayStoresMonday | find-forex-SRs.py:112-116 | a Friday's list lands on Monday unless the following Sunday produced a list, which then replaces it |
| Zones.InsertionOrderAscending | find-forex-SRs.py:112-116 | of two stored keys, the smaller one was first written no later than the larger, so the dictionary's insertion order is ascending |
| Levels.Step | find-forex-SRs.py:138-146 | after a date is processed, the open prices are exactly that date's prices |
| Levels.StepOpen | find-forex-SRs.py:142-143 | a price still present keeps its opening date, and a new price opens on the current date |
| Levels.StepLevels | find-forex-SRs.py:144-146 | one date closes exactly the open prices it lacks, from their opening date to itself |
| Levels.ZonesToLevels | find-forex-SRs.py:135-150 | an empty calendar yields no levels |
| Levels.RunStart | find-forex-SRs.py:142-145 | the first entry of the run of consecutive entries holding a price up to a given entry |
| Levels.RunEnd | find-forex-SRs.py:144-146 | the first entry after a given one that no longer holds the price, or the end |
| Levels.CompactOpen | find-forex-SRs.py:137-146 | after `n` dates, the open prices are those of date `n` and each opened on the first day of its current run |
| Levels.ClosedRunStep | find-forex-SRs.py:137-146 | one more date adds exactly the levels of the runs it ends |
| Levels.CompactLevels | find-forex-SRs.py:137-146 | after `n` dates, the closed levels are exactly the runs ended by one of those dates |
| Levels.ZonesToLevelsAreRuns | find-forex-SRs.py:131-150 | the levels are exactly one per maximal run of a price: from the run's first date to the first date without the price, or to the last date when the run reaches the end |
| Levels.LevelsForward | find-forex-SRs.py:143-149 | with ascending dates, every level starts no later than it ends |
| Levels.RunStartShared | find-forex-SRs.py:142-145 | all entries of one run share its first entry |
| Levels.CoveringLevelProduced | find-forex-SRs.py:131-150 | the level of the run through an entry is produced |
| Levels.LevelsCoverEntries | find-forex-SRs.py:131-150 | with ascending dates, every price of every date lies on a produced level at that price whose interval contains the date |

## Left out

- `load_dukascopy` (find-forex-SRs.py:190-223): CSV reading and date parsing are I/O. The model starts from a sequence of bars.
- `save_zones` (find-forex-SRs.py:41-47): pickle output is I/O.
- `parse_args` and `main` (find-forex-SRs.py:249-321): command-line handling, the currency-pair check and plotting are caller glue. This includes the JPY adjustment of `zone_width`.
- `cluster_sk` (find-forex-SRs.py:120-128): the clustering (KMeans or agglomerative) and the centring (numpy mean or median) are foreign library calls. The function is a parameter of `DayZones` and `ClusterZones`. Nothing is assumed about which centres it returns, but as a Dafny function it is total and deterministic, and the real step is neither:
  - unseeded KMeans can return different centres for two equal windows;
  - an sklearn error aborts the whole run, for example when `n_clusters` exceeds the number of values in a 25-value window (find-forex-SRs.py:122). The model always returns a calendar.
- Progress `print` calls are left out.
- Floating point: prices are exact reals. `Rounding.Round4` is round-half-to-even on the exact value. Python's `round` on a binary double can differ from it when the decimal is not exactly representable.
- Time of day: `from_date` and `to_date` are whole days (midnight UTC). The program steps `from_date` by whole days and compares it with bar timestamps, so a non-midnight `from_date` shifts every window by that offset.
- Levels.ZonesToLevels: the program returns a list whose order within one date follows Python's set iteration order, which is unspecified. The model returns the set of levels. No level can appear twice, since each run of a price has its own start date.
- Levels.ZonesToLevels: the entries are taken in dictionary order. `InsertionOrderAscending` shows that order is ascending in the day. Nothing is assumed about it beyond `AscendingDays` where a lemma needs it.

## Notes on the code's behaviour

- **Days processed.** The day cursor starts one day before `from_date` and is incremented before use while it is below `to_date`. So the days processed are `from_date` to `to_date` inclusive (find-forex-SRs.py:62-65).
- **Weekend overwrites.** A Friday's list is written under Sunday and Monday (find-forex-SRs.py:112-114). The loop also processes Saturday and Sunday, which write under Sunday and Monday respectively (find-forex-SRs.py:115-116). So the Friday carry-forward survives on a key only when the day before that key is skipped, because its window holds fewer than 25 extrema, or lies after `to_date`. `Zones.FridayStoresSunday` and `Zones.FridayStoresMonday` state which list ends up under each key.
- **JPY pairs.** For a pair with a JPY leg, `zone_width` is multiplied by 100 before the pipeline runs (find-forex-SRs.py:298-299). This is outside the model.
- **The 12-bar threshold.** The extrema scan's guard `idx < len(bars) - 12` yields nothing for 12 bars or fewer (find-forex-SRs.py:160).
