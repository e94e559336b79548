# San Francisco Giants dashboard: a verified model of its data core

This project models, in Dafny, the data logic behind the Giants dashboard and two of its
data-preparation scripts. It leaves out all fetching, drawing and file handling.

- **Standings chart** (`assets/js/dashboard.js`). `calculateCumulativeWins` groups the
  season's games by year. Within each season it numbers the games from 1 and carries the
  running count of wins. `gameStatusText` writes the games-back figure as "N games up",
  "N games back" or, for zero, " games back".
- **Batting tables** (`assets/js/dashboard.js`). `renderTable` computes a min and a max for
  each column. It colours every cell except those in `player`, `postion` and
  `plateAppearances` by interpolating between two `#rrggbb` end colours
  (`getColorScale`, `getColorScaleBlue`, `getColorFromScale`, `interpolateColor`). It then
  picks black or white text by the YIQ luma test (`getContrastYIQ`).
- **Attendance tables** (`assets/js/dashboard.js`). The team with the highest average
  attendance is found by a `reduce`. Each team's bar is its attendance as a percentage of
  the league's highest.
- **Player batting totals** (`02_fetch_process_batting.py`). A parenthesised injury note is
  cut off a player's name and the rest is stripped of whitespace. Then a trailing `*`, `#`
  or `?` is turned into the batter's stance (Left, Both, Unknown; Right when there is no
  marker) and removed.
- **Historic batting game logs**
  (`scripts/09_fetch_process_historic_batting_gamelogs.py`). The current season's counting
  columns are converted to integers. Per-season running totals `c_cum` are added and
  `gtm_cum` is dropped. The current season is stacked on the archive, sorted by year
  (newest first) and then game number, and exact duplicate rows are dropped. Finally the
  game number, the year and six running totals are kept.

Modules, one per file:

| file | module | models |
|---|---|---|
| `common.dfy` | `Common` | `Option`, the first index of a value in a sequence, two quotient facts |
| `cumulative_wins.dfy` | `CumulativeWins` | `calculateCumulativeWins` |
| `game_status.dfy` | `GameStatus` | `gameStatusText`, with a reader that parses the text back |
| `color_scale.dfy` | `ColorScale` | `renderTable`'s scales and cells, the colour helpers, `getContrastYIQ` |
| `attendance.dfy` | `Attendance` | the max-attendance `reduce`, `d3.max`, the bar widths |
| `batter_names.dfy` | `BatterNames` | the injury-note cleanup and `determine_and_clean_bats` |
| `game_logs.dfy` | `GameLogs` | the game-log pipeline from `val_cols` to `optimized_df` |

Modelling choices:

- **Data shapes.**
  - A standings row is a `Game` with a season key, a result code and the untouched
    remaining fields.
  - A game-log row is a map from column to cell. A column a row lacks stands for pandas'
    NaN.
  - Columns are a datatype: `year`, a counting column `Count(s)`, its running total `Cum(s)`
    (header `s + "_cum"`, see `ColumnHeaders`), and any other column by its name.
- **Numbers.** JavaScript numbers are `real`. `Math.round(x)` is `floor(x + 1/2)`.
  Games back is held as a signed count of half games, since standings report whole and
  half games.
- **Error paths.** A source step that raises, reads a field of `undefined`, or produces
  NaN or Infinity yields `None` in the model:
  - `astype(int)` raises on a non-integer count (`ProcessCurrent`, `Combined`, `Optimized`);
  - `name[-1]` raises on a name that is empty after cleanup (`CleanPlayerName`);
  - an empty feed makes `data[0]` `undefined`, and reading `maxAttendanceTeam.team` on the
    next line throws (`MaxAttendanceTeam`);
  - dividing by a zero maximum gives NaN or Infinity widths (`BarWidths`);
  - a colour string that is not `#` plus three hex pairs makes `parseInt` return NaN or
    the value of a valid prefix (`ParseColor`, `InterpolateColor`).
- **No clamping.** `getColorFromScale` uses the ratio `(value - min) / (max - min)` as is
  (`assets/js/dashboard.js:1152-1155`). The model states its range guarantees for values
  inside the column's min and max, which every cell of `renderTable` satisfies.
- **Constant columns.** A column whose min equals its max divides by zero in
  `getColorFromScale`. The model renders such a cell as `Flat`.
- **Wins.** `calculateCumulativeWins` counts a game as a win exactly when its result is
  `'W'`, and it accepts every record.

## Model

| member | source | states |
|---|---|---|
| `CumulativeWins.AnnotateRows` | assets/js/dashboard.js:309-312 | the k-th game of a pass gets game number n + k + 1 and the starting wins plus the wins among games 0..k |
| `CumulativeWins.SeasonRowsSpec` | assets/js/dashboard.js:307-313 | a season's rows are its games in order, numbered 1, 2, … with the count of wins up to and including each game |
| `CumulativeWins.SeasonWinsEnds` | assets/js/dashboard.js:308-311 | the win count restarts each season: the first row counts only its own game, the last row holds the season's total |
| `CumulativeWins.SeasonWinsStep` | assets/js/dashboard.js:310-311 | from one game to the next the count rises by one exactly when the later game is a win, and otherwise stays the same |
| `CumulativeWins.SeasonsPartition` | assets/js/dashboard.js:304 | grouping splits the games into one season and the rest: the two parts' sizes add up to the input's, and as multisets they make up exactly the input's games |
| `CumulativeWins.CalculateCumulativeWins` | assets/js/dashboard.js:303-316 | the function itself; its contract is carried by `CumulativeWinsLength`, `CumulativeWinsBySeason`, `CumulativeWinsContiguous` and `CumulativeWinsSeasonOrder` |
| `CumulativeWins.CumulativeWinsLength` | assets/js/dashboard.js:303-316 | the output has one row per input game |
| `CumulativeWins.CumulativeWinsBySeason` | assets/js/dashboard.js:303-316 | for every season, the output rows of that season are exactly that season's games in input order, numbered and counted from scratch |
| `CumulativeWins.RowYearsOccur` | assets/js/dashboard.js:304-313 | every output row's season is a season of the input |
| `CumulativeWins.CumulativeWinsContiguous` | assets/js/dashboard.js:304-315 | each season's rows form one contiguous block of the output |
| `CumulativeWins.CumulativeWinsSeasonOrder` | assets/js/dashboard.js:304-307 | seasons appear in the order of their first game in the input (`d3.group` key order) |
| `GameStatus.NatToString` | assets/js/dashboard.js:178-180 | a non-negative integer is written as decimal digits without a leading zero |
| `GameStatus.NatToStringValue` | assets/js/dashboard.js:178-180 | the digits written for n read back as n |
| `GameStatus.HalvesToString` | assets/js/dashboard.js:178-180 | `toString()` of a non-negative multiple of one half; `HalvesRoundTrip` shows the text reads back as the same figure |
| `GameStatus.GameStatusText` | assets/js/dashboard.js:176-184 | the text has no minus sign; it is " games back" exactly when the figure is zero and ends in " games up" exactly when the team is ahead |
| `GameStatus.HalvesRoundTrip` | assets/js/dashboard.js:178-180 | a half-game figure written as digits plus an optional ".5" reads back as the same figure |
| `GameStatus.StatusRoundTrip` | assets/js/dashboard.js:176-184 | the status text determines the signed games-back figure: reading it back yields the original in all three branches |
| `ColorScale.ColumnScale` | assets/js/dashboard.js:1107-1114 | a column's scale is its least and greatest value, both taken from the column, and every value lies between them |
| `ColorScale.Ends` | assets/js/dashboard.js:1136-1150 | the Standard callback runs dark-to-grey for `soper` and grey-to-dark otherwise; the Blue callback always runs grey-to-dark |
| `ColorScale.Ratio` | assets/js/dashboard.js:1152-1155 | a value within the scale maps into [0, 1]; min maps to 0 and max to 1, swapped when reversed |
| `ColorScale.ColorFromScale` | assets/js/dashboard.js:1152-1156 | `getColorFromScale` itself; its ends, range and reversal are stated by `ColorFromScaleEnds` and `ReverseSwapsEnds` |
| `ColorScale.ColorFromScaleEnds` | assets/js/dashboard.js:1152-1156 | min gives the first end colour and max the second (swapped when reversed); any value in between gives a canonical colour whose channels lie between the ends' |
| `ColorScale.ReverseSwapsEnds` | assets/js/dashboard.js:1152-1156 | the `reverse` flag gives exactly the colour obtained by swapping the two end colours |
| `ColorScale.ParseColor` | assets/js/dashboard.js:1159-1160 | a colour string reads as three channels exactly when its six characters after the first are hex digits |
| `ColorScale.JsHex` | assets/js/dashboard.js:1161 | `toString(16)` writes at least one lower-case hex digit |
| `ColorScale.FormatChannel` | assets/js/dashboard.js:1161 | one channel written by `toString(16).padStart(2, '0')`; `FormatByte` shows a channel in 0..255 becomes exactly its two lower-case hex digits |
| `ColorScale.FormatByte` | assets/js/dashboard.js:1161 | a channel in 0..255 is padded to exactly two lower-case digits, high digit first |
| `ColorScale.FormatColor` | assets/js/dashboard.js:1161-1163 | `#` followed by the three written channels; `FormatColorRoundTrip` shows channels in range give a canonical colour that parses back to them |
| `ColorScale.FormatColorRoundTrip` | assets/js/dashboard.js:1158-1164 | a colour with channels in range is written as `#` plus six lower-case hex digits that read back as the same channels |
| `ColorScale.Round` | assets/js/dashboard.js:1160 | `Math.round` gives the integer within one half of x, halves rounded up |
| `ColorScale.Lerp` | assets/js/dashboard.js:1160 | a channel interpolated with a factor in [0, 1] lies between the two end channels; factors 0 and 1 give the ends |
| `ColorScale.InterpolateColor` | assets/js/dashboard.js:1158-1164 | defined exactly when both colours parse; for a factor in [0, 1] the result is canonical with each channel between the ends'; factors 0 and 1 give the end colours |
| `ColorScale.ContrastYIQ` | assets/js/dashboard.js:1166-1172 | black text exactly when 299 r + 587 g + 114 b is at least 128000, white otherwise |
| `ColorScale.ContrastMonotone` | assets/js/dashboard.js:1166-1172 | lightening any channel never turns black text white |
| `ColorScale.ContrastExtremes` | assets/js/dashboard.js:1166-1172 | black and near-black backgrounds get white text, white and near-white get black |
| `ColorScale.ContrastOfColor` | assets/js/dashboard.js:1166-1172 | a text colour is chosen exactly for the colour strings that parse |
| `ColorScale.Column` | assets/js/dashboard.js:1108 | a field's column holds that field of every record, in order |
| `ColorScale.RenderTable` | assets/js/dashboard.js:1116-1133 | one row of cells per record and one cell per field |
| `ColorScale.RenderCell` | assets/js/dashboard.js:1118-1130 | one cell of `renderTable`; `RenderCellColours` states when it is plain, flat or coloured and what its background and text are |
| `ColorScale.ScaledCell` | assets/js/dashboard.js:1123-1127 | a value within a non-constant scale gets a canonical background between grey and dark, and text chosen by the YIQ test on it |
| `ColorScale.RenderCellColours` | assets/js/dashboard.js:1118-1130 | a cell is plain exactly for the uncoloured fields and flat exactly for a coloured constant column; otherwise its background is between the palette's ends and its text follows YIQ |
| `ColorScale.RenderTableColours` | assets/js/dashboard.js:1102-1134 | every cell of the rendered table meets the cell guarantee above |
| `Attendance.FirstMaxUnique` | assets/js/dashboard.js:1345 | at most one position holds the first maximum |
| `Attendance.MaxAttendanceTeam` | assets/js/dashboard.js:1345 | a non-empty feed yields the first team with the highest attendance (strict `>` keeps the earlier of equal teams); an empty feed yields none |
| `Attendance.MaxAttendance` | assets/js/dashboard.js:1320 | the league maximum is one of the teams' attendances and no team exceeds it |
| `Attendance.BarWidths` | assets/js/dashboard.js:1319-1332 | one bar per team when the maximum is non-zero |
| `Attendance.BarWidthsBounded` | assets/js/dashboard.js:1319-1332 | with non-negative attendances, widths exist unless every team has zero; each lies in [0, 100] and is 100 exactly for the teams at the maximum |
| `BatterNames.DetermineAndCleanBats` | 02_fetch_process_batting.py:78-92 | the cleaned name is a prefix of the input that loses its last character exactly when that is a marker; the removed suffix is the stance's marker (`*` Left, `#` Both, `?` Unknown, none Right) |
| `BatterNames.CleanBatsRoundTrip` | 02_fetch_process_batting.py:78-92 | the cleaned name followed by the stance's marker is the original name |
| `BatterNames.OneMarkerOnly` | 02_fetch_process_batting.py:89-90 | only the last marker is removed: "X*#" is a switch hitter named "X*" |
| `BatterNames.BeforeParen` | 02_fetch_process_batting.py:72 | `split("(")[0]` is the longest prefix without `(` |
| `BatterNames.TrimStart` | 02_fetch_process_batting.py:72 | `lstrip` removes exactly the leading whitespace |
| `BatterNames.TrimEnd` | 02_fetch_process_batting.py:72 | `rstrip` removes exactly the trailing whitespace |
| `BatterNames.Strip` | 02_fetch_process_batting.py:72 | `str.strip()`; `StripSpec` shows the result is the input with exactly its surrounding whitespace removed |
| `BatterNames.StripSpec` | 02_fetch_process_batting.py:72 | `strip` yields a slice with only whitespace around it that neither starts nor ends with whitespace |
| `BatterNames.StripInjuryNote` | 02_fetch_process_batting.py:71-73 | the injury-note cleanup; `InjuryNoteSpec`, `PlainNameKept` and `StripInjuryNoteIdempotent` state what it keeps and removes |
| `BatterNames.InjuryNoteSpec` | 02_fetch_process_batting.py:71-73 | the cleaned name contains no `(` and is the text before the first `(` with surrounding whitespace stripped |
| `BatterNames.PlainNameKept` | 02_fetch_process_batting.py:71-73 | a name without `(` is only stripped, and a name that is already stripped is kept as is |
| `BatterNames.StripInjuryNoteIdempotent` | 02_fetch_process_batting.py:71-73 | cleaning a cleaned name changes nothing |
| `BatterNames.CleanPlayerName` | 02_fetch_process_batting.py:71-97 | both cleanups in order fail exactly on names that are empty after the injury cleanup; otherwise the stance marker plus the clean name give back the injury-cleaned name |
| `GameLogs.ValColsComplete` | scripts/09_fetch_process_historic_batting_gamelogs.py:77-79 | `val_cols` lists every counting column exactly once |
| `GameLogs.ColumnHeaders` | scripts/09_fetch_process_historic_batting_gamelogs.py:77-100 | the counting columns' headers are the script's `val_cols` list, and the output columns' headers are its output list, in order |
| `GameLogs.CumColumn` | scripts/09_fetch_process_historic_batting_gamelogs.py:86 | one running-total pass keeps the number of rows |
| `GameLogs.CumColumnAt` | scripts/09_fetch_process_historic_batting_gamelogs.py:86 | after one pass, row i's running total is its season's sum up to and including row i, and nothing else in the row changes |
| `GameLogs.AddCumColumns` | scripts/09_fetch_process_historic_batting_gamelogs.py:85-86 | the loop over the counting columns keeps the number of rows; `AddCumColumnsSum` and `AddCumColumnsKeep` state each row's contents |
| `GameLogs.AddCumColumnsKeep` | scripts/09_fetch_process_historic_batting_gamelogs.py:85-86 | the loop leaves every column that is not a running total of a listed column untouched |
| `GameLogs.AddCumColumnsSum` | scripts/09_fetch_process_historic_batting_gamelogs.py:85-86 | after the loop each listed column's running total is computed from the original counts, whatever was added before it |
| `GameLogs.DropColumn` | scripts/09_fetch_process_historic_batting_gamelogs.py:87 | `drop(d, axis=1)` keeps the number of rows; `DropColumnAt` states each row's contents |
| `GameLogs.DropColumnAt` | scripts/09_fetch_process_historic_batting_gamelogs.py:87 | the dropped column is gone from every row and every other column is kept with its value |
| `GameLogs.WithTotals` | scripts/09_fetch_process_historic_batting_gamelogs.py:85-87 | the running totals followed by the drop of `gtm_cum`, keeping the number of rows; `WithTotalsSum` and `WithTotalsKeep` state each row's contents |
| `GameLogs.WithTotalsSum` | scripts/09_fetch_process_historic_batting_gamelogs.py:85-87 | a processed row has no `gtm_cum`, and each other `c_cum` equals the season's sum of c up to and including that row |
| `GameLogs.WithTotalsKeep` | scripts/09_fetch_process_historic_batting_gamelogs.py:85-87 | processing keeps every column that is not a running total, with its value |
| `GameLogs.ProcessCurrent` | scripts/09_fetch_process_historic_batting_gamelogs.py:82-87 | the current season is processed exactly when every row has integer counts and year, and keeps its number of rows |
| `GameLogs.SeasonSumIgnoresOthers` | scripts/09_fetch_process_historic_batting_gamelogs.py:86 | rows of another season never contribute to a season's total (grouping by year) |
| `GameLogs.SeasonStartsAtOwnCount` | scripts/09_fetch_process_historic_batting_gamelogs.py:85-87 | the first row of a season has its own count as its running total |
| `GameLogs.RunningTotalsGrow` | scripts/09_fetch_process_historic_batting_gamelogs.py:85-87 | with non-negative counts, running totals never decrease within a season |
| `GameLogs.SeasonEndsAtTotal` | scripts/09_fetch_process_historic_batting_gamelogs.py:85-87 | the last row of a season carries the season's total |
| `GameLogs.Insert` | scripts/09_fetch_process_historic_batting_gamelogs.py:92 | inserting a row adds exactly that row |
| `GameLogs.InsertSorted` | scripts/09_fetch_process_historic_batting_gamelogs.py:92 | inserting into a table ordered by year descending and game ascending keeps it ordered |
| `GameLogs.SortRows` | scripts/09_fetch_process_historic_batting_gamelogs.py:92 | the sorted table is a permutation of its input ordered by year descending, then game number ascending |
| `GameLogs.DropDuplicates` | scripts/09_fetch_process_historic_batting_gamelogs.py:94 | the same rows remain, each once, and no row is added |
| `GameLogs.DropDuplicatesOrder` | scripts/09_fetch_process_historic_batting_gamelogs.py:94 | kept rows appear in the order of their first occurrence |
| `GameLogs.DropDuplicatesSorted` | scripts/09_fetch_process_historic_batting_gamelogs.py:92-94 | dropping duplicates keeps a sorted table sorted |
| `GameLogs.CombinedRows` | scripts/09_fetch_process_historic_batting_gamelogs.py:90-95 | concatenation, sort and `drop_duplicates`; `CombinedSpec` states its order, uniqueness and contents |
| `GameLogs.Combined` | scripts/09_fetch_process_historic_batting_gamelogs.py:82-95 | the combined table exists exactly when the current season's counts convert to integers |
| `GameLogs.CombinedSpec` | scripts/09_fetch_process_historic_batting_gamelogs.py:90-95 | the combined table is sorted, holds no two identical rows, and holds exactly the rows of the processed current season and the archive |
| `GameLogs.CombinedKeyed` | scripts/09_fetch_process_historic_batting_gamelogs.py:90-95 | with a convertible current season and an archive with integer years and games, every combined row has them too |
| `GameLogs.Project` | scripts/09_fetch_process_historic_batting_gamelogs.py:98-100 | one projected row per row, each restricted to the output columns |
| `GameLogs.Optimized` | scripts/09_fetch_process_historic_batting_gamelogs.py:82-100 | the output table exists exactly when the current season's counts convert to integers |
| `GameLogs.OptimizedIsProjection` | scripts/09_fetch_process_historic_batting_gamelogs.py:90-100 | the output table is the combined table restricted to the output columns |
| `GameLogs.ProjectRowSpec` | scripts/09_fetch_process_historic_batting_gamelogs.py:98-100 | a projected row has exactly the output columns, each holding the row's cell or NaN, and keeps an integer year and game number |
| `GameLogs.ProjectCurrentTotals` | scripts/09_fetch_process_historic_batting_gamelogs.py:85-100 | a current-season game's output row carries its season's running totals of runs, hits, doubles, walks, strikeouts and home runs |

## Left out

- Fetching is not modelled: `fetch`, `read_html`, `read_parquet`, S3 uploads and the local file writes. Nor is drawing: d3 SVG, the DOM and `toLocaleString`. The model starts from the parsed records.
- `new Date()`, `populateYearSelect` and the current-year chart filters are not modelled. They depend on the clock and the page.
- The AL/NL `filter` before `appendTableRows` is not modelled. The model takes one league's rows.
- `parseFloat` of table cells is not modelled: values are already `real` numbers, and NaN is not modelled.
- ColorScale.ParseColor: does not model `parseInt`'s lenient reading of a malformed pair (a valid prefix, or NaN). Such a colour gives None.
- ColorScale.RenderCell: a column whose min equals its max gives `Flat` instead of the NaN colour the source divides its way to.
- ColorScale.Ratio: requires min < max. The source's result for min equal to max is NaN, covered by `Flat`.
- ColorScale.FormatChannel: a channel outside 0..255 can only arise from a factor outside [0, 1], which `renderTable` never produces. Such a channel is written with JavaScript's `toString(16)` and padding, but no property is stated for it.
- GameStatus.GameStatusText: the figure is assumed to be a multiple of one half. JavaScript's exponent notation for very large numbers is not modelled.
- Attendance.BarWidths: a league whose maximum is zero gives None, not JavaScript's NaN or Infinity widths.
- Attendance.MaxAttendance: requires a non-empty league. `d3.max` of an empty league is `undefined`, and its widths are then never drawn.
- BatterNames.DetermineAndCleanBats: requires a non-empty name because `name[-1]` raises on one. `CleanPlayerName` models that case as None.
- The apply/zip into the `bats` and `name_clean` columns is not modelled beyond `CleanPlayerName` on one name.
- The drop of unused columns, `game_date` parsing and the `HR != "HR"` header filter in the game-log script are not modelled. They precede the modelled steps and only shape the input rows.
- GameLogs.SortRows: it is a stable insertion sort. The order pandas gives rows with equal year and game number is not asserted.
- GameLogs.InOrder: a row without an integer year or game number sorts as if it held 0, whereas pandas places NaN keys last. `CombinedKeyed` shows this cannot happen when the archive has integer keys.
- GameLogs.Project: a column missing from every row is NaN in the model. Pandas raises `KeyError` there because the frame's column index is not modelled.
- GameLogs.ProcessCurrent: pandas dtypes are not modelled. Every count is an unbounded integer, and `astype(int)` failing on any value is modelled as None for the whole table.
- The commented-out earlier versions of the table code in `assets/js/dashboard.js` (lines 1179-1264) are not modelled.
