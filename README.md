# Group Availability Planner — a Dafny model of its scheduling core

The planner lets several people mark their weekly availability on a fixed grid: 7 days (Monday = 0) by 11 one-hour slots (9:00 to 20:00). Each person exports a tab-separated file. One person loads all the files and sees, per slot, how many participants are available, a colour band for that share, and the list of slots where everyone is available.

This project models the logic behind those windows. The widgets are left out.

- `Grid` (`grid.dfy`): the `(day, hour)` cell, grid bounds, `DAYS`, Python's tuple order, and `sorted` on a set of cells.
- `Editor` (`editor.dfy`): pixel-to-cell hit-testing. Also the `ScheduleCanvas` class: a `set<Cell>` schedule plus the three drag fields, with one method per mouse event, and clear / get / set.
- `Coverage` (`coverage.dfy`): `get_color_for_count` as a total function to a `Band` enum.
- `Overlap` (`overlap.dfy`): the participant registry as a sequence, per-cell occurrence counts (the tally), and the sorted full-match list.
- `Loading` (`loading.dfy`): one imported file as already-split rows, and how it becomes a participant. Also the `_1`, `_2`, … renaming when a name is already taken.
- `Decimal` (`decimal.dfy`): `str` on naturals, so the suffixes can be shown distinct.
- `Export` (`export.dfy`): the schedule export and the analysis export, as a header plus records.
- `Planner` (`planner.dfy`): the application state. It holds the registry, the overlap canvas's counts and total, and the dashboard (two counters and the perfect-overlap list). Its invariant `ShowsAnalysis` says the dashboard always shows the analysis of the registry (the perfect-overlap list as far as the day lookup gets), or nothing when the registry is empty.

Behaviour of the code that the model keeps, although a reader might expect otherwise:

- The analysis export with no participants loaded writes nothing and only warns (`planner.py:640-642`). It does not write 77 zero rows.
- Imported `day` and `hour` values are not range-checked. Any integers are accepted, tallied, and can become full matches.
- Such a full match can cut the perfect-overlap list short. `update_overlaps` sets both counters first, then fills the list in ascending order and looks each day up in `DAYS` (`planner.py:620-633`). A day outside -7..6 raises there, so the list keeps only the full matches before it, while the match counter still counts all of them. The model lists `Planner.NamedPrefix` of the full matches and reports whether the list was completed. `Planner.OutOfGridMatchStopsList` shows one participant at day 7 with a match count of 1 and an empty list. `Planner.InGridMatchesAreAllListed` proves that the list is complete whenever every loaded cell lies in the grid.
- Counts are occurrences in each participant's list, not numbers of participants. A file that repeats a row counts that cell twice. `Overlap.FullCountIsEveryone` proves that full match means "every participant" when no list repeats a cell, which holds for every exported file (`Overlap.AscendingHasNoRepeats`). `Overlap.RepeatedRowGivesFalseFullMatch` shows a registry where this fails.
- There is no `toggle` or clamped range operation. Editing happens through the press / drag / release gesture. A press outside the grid is ignored, and a drag never leaves the start day. A press and release on one cell toggles it (`Editor.Click`).

Python's `//` is floor division. Every division in the model has a non-negative dividend, so it agrees with Dafny's `/`.

## Model

| member | source | states |
|---|---|---|
| `Editor.CellAt` | planner.py:146-156 | returns nothing, or a cell inside the 7×11 grid; a point left of the time column or above the header gives nothing |
| `Editor.CellAtIsCellRectangle` | planner.py:146-156 | a pixel hits cell c exactly when c is in the grid and the pixel lies in the rectangle drawn for c |
| `Editor.CellAtCoversGridArea` | planner.py:146-156 | a pixel hits some cell exactly when it lies in the grid area (right of the time column, below the header, inside 7 columns and 11 rows) |
| `Editor.ScheduleCanvas.constructor` | planner.py:35-41 | the schedule starts empty and no drag is in progress |
| `Editor.ScheduleCanvas.OnMouseDown` | planner.py:158-167 | on an editable canvas, pressing a cell starts a drag there. The mode is deselect exactly when that cell is selected, otherwise select. Pressing outside the grid changes nothing |
| `Editor.ScheduleCanvas.OnMouseDrag` | planner.py:169-177 | the current end moves only to a cell on the start's day, and only during a drag; nothing else changes |
| `Editor.ScheduleCanvas.OnMouseUp` | planner.py:179-198 | after a drag, every hour between the two ends on the start day is selected in select mode and absent otherwise. Every other cell keeps its state. All drag fields are reset |
| `Editor.ScheduleCanvas.ClearSchedule` | planner.py:200-203 | the schedule becomes empty (so clearing twice is the same as once); drag fields are untouched |
| `Editor.ScheduleCanvas.GetScheduleData` | planner.py:205-207 | a strictly ascending list (so no duplicates) of exactly the selected cells |
| `Editor.ScheduleCanvas.SetScheduleData` | planner.py:209-212 | afterwards the schedule holds exactly the cells of the list, and the listing is those cells de-duplicated and ascending |
| `Editor.Click` | planner.py:158-198 | a press and release on one cell toggles exactly that cell |
| `Grid.DayName` | planner.py:542 | `DAYS[d]` with Python indexing: defined exactly for -7 <= d < 7, and the day's name for 0 <= d < 7 |
| `Grid.SortedCells` | planner.py:207 | `sorted` on distinct keys: strictly ascending, holding exactly the set's cells, as many as the set has |
| `Grid.AscendingListingIsUnique` | planner.py:207 | two strictly ascending lists with the same cells are equal, so the sorted listing is determined by the set |
| `Grid.SortedCellsIsTheListing` | planner.py:618-619 | any strictly ascending list of a set's cells is `SortedCells` of that set |
| `Coverage.Classify` | planner.py:240-257 | `get_color_for_count` as a band: with participants loaded, the darkest band exactly when count equals total; white exactly when count or total is 0 |
| `Coverage.ClassifyIsCrossMultiplied` | planner.py:240-257 | the ratio tests equal integer cross-multiplication: full when count = total, then 4·count ≥ 3·total, 2·count ≥ total, 4·count ≥ total, else minimal; zero count or zero total give no colour |
| `Coverage.ClassifyMonotone` | planner.py:247-257 | for 0 ≤ c1 ≤ c2 ≤ total, the band of c2 is never lower than the band of c1 |
| `Coverage.ThresholdsAreInclusive` | planner.py:248-257 | for 4k participants, k, 2k, 3k and 4k available give low, medium, high and full; 0 gives none; 1 of 4k+1 gives minimal |
| `Overlap.Occurrences` | planner.py:607-610 | the number of times a cell appears across all participants' lists, repeats included (defined by recursion over the registry; its properties are the lemmas below) |
| `Overlap.Tally` | planner.py:607-610 | `overlap_counts`: one key per listed cell, holding its occurrence count; every entry is positive |
| `Overlap.ListedIffOccurs` | planner.py:607-610 | a cell appears in some participant's list exactly when its occurrence count is positive |
| `Overlap.TallyCounts` | planner.py:607-610 | the counts have a key exactly for the cells that occur, and each entry is the number of occurrences across all lists, repeats included |
| `Overlap.ComputeTally` | planner.py:606-610 | the nested counting loops produce exactly the tally |
| `Overlap.TallyByEntries` | planner.py:607-610 | a map whose keys are the occurring cells and whose entries are their occurrence counts is the tally |
| `Overlap.FullMatches` | planner.py:618-619 | a strictly ascending list of exactly the cells whose count equals the total |
| `Overlap.FullMatchIffCountIsTotal` | planner.py:612-619 | with a non-empty registry, a cell is a full match exactly when its occurrences equal the number of participants |
| `Overlap.FullMatchesAre` | planner.py:618-619 | an ascending list of exactly the cells with count = total is the full-match list |
| `Overlap.NoRepeatsOccursAtMostOnce` | planner.py:609-610 | a list without repeats contributes 1 to a cell it holds and 0 otherwise |
| `Overlap.AscendingHasNoRepeats` | planner.py:205-207 | a strictly ascending listing (what the schedule export writes) repeats no cell |
| `Overlap.FullCountIsEveryone` | planner.py:608-619 | when no list repeats a cell, a cell's count is at most the number of participants, and equals it exactly when every participant lists the cell |
| `Overlap.RepeatedRowGivesFalseFullMatch` | planner.py:607-619 | A lists (0,9) twice and B does not list it, yet (0,9) is a full match of the two |
| `Overlap.OccurrencesOfTwo` | planner.py:607-610 | with two repeat-free lists, a cell's count is the number of the two that hold it |
| `Overlap.TwoParticipantTally` | planner.py:607-612 | A = (0,9),(0,10),(1,9) and B = (0,9),(1,9),(1,10) give counts 2, 1, 2, 1 |
| `Overlap.TwoParticipantFullMatches` | planner.py:618-619 | for the same A and B the full matches are [(0,9), (1,9)] |
| `Loading.NameField` | planner.py:568-569 | a row's proposed name: the base name when the header has no username column; no name only for a row too short to reach that column |
| `Loading.FirstName` | planner.py:567-569 | the name fixed by the row loop: later rows do not change it (defined by recursion over the rows; `FirstNameIsFirstProposed` states what it is) |
| `Loading.FirstNameIsFirstProposed` | planner.py:567-569 | there is no name exactly when no row proposes one; otherwise it is the name of the first row that proposes one |
| `Loading.CellsOf` | planner.py:570-572 | one cell per row, in row order, each made of that row's day and hour |
| `Loading.FileParticipant` | planner.py:564-574 | a file contributes exactly when every row parses, it has rows and its first proposed name is non-empty. It then gives that name and one cell per row, in order |
| `Loading.ReadFile` | planner.py:564-574 | the row loop produces exactly what the file contributes |
| `Loading.OneRowFile` | planner.py:567-574 | a one-row file with a username column gives that participant with that one cell |
| `Loading.Candidate` | planner.py:575-578 | the k-th name tried starts with the base name, and is the base name exactly when k = 0 |
| `Loading.CandidateInjective` | planner.py:575-579 | the names tried (base, base_1, base_2, …) are pairwise different |
| `Loading.CandidatesBelowSize` | planner.py:575-579 | the first k names tried form a set of k names |
| `Loading.SubsetSize` | planner.py:577 | a step in the proof that the renaming loop ends: the names tried in vain form a subset of the taken names, so there are no more of them |
| `Loading.TakenCandidatesBound` | planner.py:577-579 | if the first k names tried are all taken then k is at most the number of taken names, so the renaming loop stops |
| `Loading.FirstFree` | planner.py:576-579 | the first position whose name is free, with every earlier name taken |
| `Loading.FirstFreeIsLeast` | planner.py:576-579 | a free name preceded only by taken ones is the one chosen |
| `Loading.FreshName` | planner.py:575-579 | the name a participant is registered under: not taken, the base name when that is free, and always starting with the base name |
| `Loading.Disambiguate` | planner.py:575-579 | the chosen name is not taken. It is the base name when that is free; otherwise it is base_k for the smallest k ≥ 1 whose name is free |
| `Loading.Register` | planner.py:574-581 | one file appends one participant or nothing. Existing entries are unchanged, and the new key was not taken before. The base name is kept when free. Names stay distinct and non-empty |
| `Loading.RegisterAll` | planner.py:558-581 | loading files in order only appends, at most one participant per file, and keeps names distinct |
| `Loading.SameNameTwice` | planner.py:574-581 | two files that both name Alice are registered as Alice and Alice_1, in load order |
| `Decimal.NatToString` | planner.py:578 | `str(counter)`: at least one character, all decimal digits |
| `Decimal.ParseNatToString` | planner.py:578 | reading back the decimal digits of a counter gives the counter |
| `Decimal.NatToStringInjective` | planner.py:578 | different counters give different suffixes |
| `Export.LeadingSpaces` | planner.py:518 | the length of the longest whitespace run at the start of the entry |
| `Export.TrailingStart` | planner.py:518 | where the longest whitespace run at the end of the entry begins |
| `Export.Strip` | planner.py:518 | `str.strip()`: no longer than the entry, and a non-empty result neither starts nor ends with whitespace |
| `Export.StripIsMiddleSlice` | planner.py:518 | the stripped name is a slice of the entry, with only whitespace before and after it |
| `Export.StripEmptyIffBlank` | planner.py:518-521 | the typed name is refused exactly when it contains only whitespace |
| `Export.ExportSchedule` | planner.py:516-542 | an export with a blank name, or with an empty schedule, is refused. Otherwise the header comes first, then one row per cell in order, with the stripped name, day, day name and hour. A day outside the day list fails the export |
| `Export.SameNameEveryRow` | planner.py:567-569 | when every row proposes the same name, that is the file's name |
| `Export.ExportThenImport` | planner.py:538-572 | reading an exported schedule back gives the same participant: the stripped name and the same cells in the same order. This assumes the file is read with the delimiter it was written with. The loader uses a tab only for names ending in `.tsv` (`planner.py:560`), so a file saved under another name does not load back this way |
| `Export.ReimportedRows` | planner.py:538-572 | each row read back has the username column, parses, and carries the name and the cell it was written for |
| `Export.CellAtIndex` | planner.py:665-666 | row position i describes an in-grid cell whose position is i |
| `Export.IndexOfCell` | planner.py:665-666 | every in-grid cell has a position among the 77, and that position describes it |
| `Export.ExportAnalysis` | planner.py:638-676 | refused exactly when nothing is loaded. Otherwise there are exactly 77 rows. Row i is the i-th cell in day-major, hour-minor order, with its occurrence count (0 when absent) and the participant total |
| `Export.AnalysisRowsCoverGrid` | planner.py:665-667 | each grid cell has its own analysis row, and the rows run in strictly ascending cell order |
| `Planner.OverlapCanvas.constructor` | planner.py:229-231 | no counts and a total of 0 |
| `Planner.OverlapCanvas.SetOverlaps` | planner.py:308-312 | the canvas holds exactly the given counts and total |
| `Planner.GroupSchedulerApp.constructor` | planner.py:323-324 | an empty registry, with the dashboard showing nothing |
| `Planner.GroupSchedulerApp.LoadFile` | planner.py:558-583 | one file is registered as `Register` says; the dashboard is not touched |
| `Planner.GroupSchedulerApp.LoadFiles` | planner.py:558-583 | the file loop: the registry becomes the files registered in order; the dashboard is not touched |
| `Planner.GroupSchedulerApp.LoadSchedules` | planner.py:548-587 | the registry becomes the chosen files registered in order, and the dashboard then shows its analysis. The result says whether the perfect-overlap list was completed. Choosing no file changes nothing |
| `Planner.GroupSchedulerApp.ClearLoadedSchedules` | planner.py:589-599 | the registry, the counts, the total, both counters and the perfect-overlap list are emptied |
| `Planner.GroupSchedulerApp.UpdateOverlaps` | planner.py:601-633 | with nothing loaded nothing changes. Otherwise the canvas holds the tally and the participant total, and the counters show the total and the number of all full matches. The list shows the full matches in order until the first one whose day `DAYS` cannot index. The result is true exactly when the list holds all full matches |
| `Planner.NamedPrefix` | planner.py:629-633 | the longest prefix of the full matches whose days all have a name; the cell after it, if any, has a day `DAYS` cannot index |
| `Planner.NamedPrefixAt` | planner.py:629-633 | a prefix that ends at the end of the list or at the first unnamed day is the named prefix |
| `Planner.FillOverlapList` | planner.py:629-633 | the row-filling loop gives the named prefix, and reports completion exactly when that is the whole list |
| `Planner.InGridMatchesAreAllListed` | planner.py:601-633 | when every loaded cell lies in the grid, the perfect-overlap list holds all full matches |
| `Planner.OutOfGridMatchStopsList` | planner.py:618-631 | one participant listing (7, 9): it is the one full match, yet the list stays empty |
| `Planner.LoadAliceTwice` | planner.py:548-587 | loading one Alice file twice into an empty app gives participants Alice and Alice_1 and a participant count of 2 |

## Left out

- Drawing: grid and preview rectangles, colours as hex strings, text labels and the `HH:00` strings of the perfect-overlap list. All of it is presentation.
- File dialogs, opening files, the CSV reader and writer, `os.path.basename` and message boxes. All of it is I/O. A file is given as its base name, whether its header has a username column, and its rows. A cancelled save dialog is not modelled.
- `int()` parsing is abstracted: a row's day or hour is either an integer or missing. A missing value stands for any exception in that file's row loop, and the file then contributes nothing.
- The `percentage` column of the analysis export is float formatting. The header names the column, but rows carry no value for it.
- Coverage.Classify: the model divides exactly in `real`. Python rounds its floating-point division, which gives the same bands whenever count and total are below 2^52.
- Export.ExportSchedule: on a failure while writing, the source leaves a partly written file behind. The model only reports the failure.
- The application's own `clear_schedule` (`planner.py:512-514`) only calls `Editor.ScheduleCanvas.ClearSchedule`. Its `export_schedule` is `Export.ExportSchedule` applied to the name entry's text and the editing canvas's `GetScheduleData()`.
- Choosing a participant in the list and showing a read-only canvas for them (`planner.py:483-510`). This is presentation, apart from `SetScheduleData`.
- `helper/icon_converter.py` is not part of this model: it wraps image saving and filesystem checks.
