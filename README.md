# Ontario demand / climate data processing — a Dafny model

This project models `Scripts/process_data.py`, the script that builds the
forecasting dataset. It has five steps:

1. Load the IESO hourly zonal-demand reports and give each row a timestamp,
   then add calendar features.
2. Load one hourly climate table per region.
3. Reshape demand from one column per zone to one row per (hour, zone).
4. Left-join demand to climate on (datetime, region).
5. Add the 24-, 48- and 168-row (positional) lags of Ontario Demand, which are
   meant as hours (see Findings), and drop rows that lack any of them.

Tables are sequences of records. A missing cell (pandas NaN) is `None`. A
timestamp is a whole number of hours since 1970-01-01T00:00. Every pandas
sort is modelled as an insertion sort under a total preorder on the key.
Each row goes in after the rows whose keys equal its own.

The modules follow the script's stages:

- Wrappers: the `Option` type.
- Calendar: proleptic Gregorian dates, day numbers, the hour clock.
- Text: the string operations behind the region name.
- Tables: concatenation, sorting and filtering, shared by all stages.
- Demand: `load_zonal_demand`, `add_time_features`.
- Climate: `load_climate_data`.
- Merge: `merge_demand_climate`.
- Lags: `create_lag_features`, as written.
- Pipeline: `main` as written (`ProcessDataAsWritten`), and `main` with the
  hourly lag builder in place of the positional one (`ProcessData`; see
  Findings).

## Model

| member | source | states |
|---|---|---|
| Calendar.DayNumber | Scripts/process_data.py:20 | the day count from 1970-01-01 of a date lies within that date's year, and within its month of that year |
| Calendar.EpochIsDayZero | Scripts/process_data.py:20 | 1970-01-01 is day number 0 |
| Calendar.DayNumberOfNextDay | Scripts/process_data.py:20-21 | the next calendar day (next day of the month, first of the next month, January 1 of the next year) has the next day number, so day numbers and timestamps run in calendar order |
| Calendar.DateOfDayNumber | Scripts/process_data.py:20 | the date for a day number, inverse of DayNumber: DayNumber(DateOfDayNumber(n)) == n for every integer n |
| Calendar.DateOfDayNumberRoundTrip | Scripts/process_data.py:20 | DateOfDayNumber(DayNumber(d)) == d for every valid date, so dates and day numbers correspond one to one |
| Calendar.DayNumberInjective | Scripts/process_data.py:20 | two valid dates with the same day number are the same date |
| Calendar.HourOf | Scripts/process_data.py:84 | the hour of a timestamp is in 0..23, and the timestamp is the start of its date plus that hour |
| Calendar.OffsetWithinDay | Scripts/process_data.py:20 | adding an hour offset 0..23 to the start of a date keeps the date and yields that hour |
| Calendar.DayOfYear | Scripts/process_data.py:87 | the ordinal of the date in its year: one more than the days since January 1 of that year; lies in 1..days-in-year, and 366 occurs only in leap years |
| Calendar.DayOfWeek | Scripts/process_data.py:85 | day of week lies in 0..6 |
| Calendar.DayOfWeekOfNextDay | Scripts/process_data.py:85 | the day after a date is the next weekday, wrapping 6 to 0 |
| Calendar.NewYear2024IsMonday | Scripts/process_data.py:85 | 2024-01-01 (a Monday) has day of week 0: the Monday = 0 convention |
| Calendar.DaysBeforeYearGrows | Scripts/process_data.py:20 | day numbers of year starts increase strictly with the year |
| Demand.RecordTimestamp | Scripts/process_data.py:20 | `Date + (Hour − 1)` hours: for Hour 1..24, a timestamp on the record's own Date, at clock hour Hour − 1 |
| Demand.LoadZonalDemand | Scripts/process_data.py:8-28 | no files gives no table (concat of nothing fails); otherwise the table is sorted by datetime, is a permutation of all files' rows, and each row's datetime is Date + (Hour − 1) hours |
| Demand.HolidayCalendar | Scripts/process_data.py:90-91 | the calendar holds exactly the library's dates whose year is 2018..2025 |
| Demand.TimeFeaturesOf | Scripts/process_data.py:84-93 | for a timestamp t: hour is HourOf(t) in 0..23; day of week is the day count from Monday 2024-01-01 mod 7, in 0..6; month and day of year are those of t's date, with 366 only in leap years; weekend exactly when day of week is 5 or 6; holiday exactly when t's date is in the calendar |
| Demand.AddTimeFeatures | Scripts/process_data.py:82-95 | keeps every row, in order, and gives row i the features of its own datetime under the 2018–2025 holiday calendar (hour, weekday, month, day of year, weekend and holiday as TimeFeaturesOf states them) |
| Demand.FeaturesOfDemandRow | Scripts/process_data.py:84-93 | for a loaded row: hour = Hour − 1; month and day of year of Date; day of week is the day count from Monday 2024-01-01 mod 7; weekend iff 5 or 6; holiday iff Date is a known holiday in 2018..2025 |
| Demand.NoHolidayOutsideCalendarYears | Scripts/process_data.py:90-92 | rows dated outside 2018..2025 are never flagged as holidays |
| Text.FindFrom | Scripts/process_data.py:37 | the first occurrence of a pattern at or after a position, or None when there is none |
| Text.SplitHead | Scripts/process_data.py:37 | `split(sep)[0]`: the longest prefix with no occurrence of sep, ended by sep or by the end of the string |
| Text.Basename | Scripts/process_data.py:37 | `os.path.basename`: the suffix after the last '/', containing no '/' |
| Text.StrLeTotal | Scripts/process_data.py:51 | string order is total |
| Text.StrLeTransitive | Scripts/process_data.py:51 | string order is transitive |
| Text.StrLeAntisymmetric | Scripts/process_data.py:51 | string order is antisymmetric |
| Tables.Flatten | Scripts/process_data.py:17 | concatenation has as many rows as all parts together |
| Tables.FlattenSource | Scripts/process_data.py:17 | every concatenated row comes from some part |
| Tables.FlattenContains | Scripts/process_data.py:17 | every row of every part appears in the concatenation |
| Tables.FlattenMultiset | Scripts/process_data.py:17 | the concatenation holds each row exactly as many times as all parts together |
| Tables.SortBy | Scripts/process_data.py:21 | the result is sorted under the key preorder and is a permutation of the input |
| Tables.Filter | Scripts/process_data.py:104 | keeps no more rows than the input |
| Tables.FilterSelects | Scripts/process_data.py:104 | the kept rows are exactly the input rows satisfying the predicate, in input order |
| Tables.FilterDropsPrefix | Scripts/process_data.py:104 | when the predicate fails on the first m rows and holds on the rest, exactly those m rows are dropped |
| Climate.RegionOfPath | Scripts/process_data.py:37 | the basename up to its first "Climate", or the whole basename when it holds none; never contains '/' |
| Climate.RegionOfConventionalPath | Scripts/process_data.py:36-37 | for a file `<dir>/<region>Climate<ext>` where region contains no "Climate" and neither region nor ext contains '/', the region read back is that region |
| Climate.NortheastFile | Scripts/process_data.py:36 | `<dir>/NortheastClimate.csv` gives region "Northeast" |
| Climate.ReadClimateFile | Scripts/process_data.py:38-41 | keeps the first min(rows, 63672) records, each tagged with the file's region, with its time as datetime and its measurements unchanged |
| Climate.ByKeyIsTotalPreorder | Scripts/process_data.py:51 | (datetime, region) order is a total preorder |
| Climate.LoadClimateData | Scripts/process_data.py:30-53 | no files gives no table; otherwise the table is sorted by (datetime, region) and is a permutation of all files' truncated rows |
| Climate.ClimateRowOrigin | Scripts/process_data.py:35-48 | every loaded row is record p < 63672 of some file, tagged with that file's region |
| Climate.ClimateTableBound | Scripts/process_data.py:38 | the climate table has at most 63672 rows per file |
| Merge.Melt | Scripts/process_data.py:58-63 | the melted table has rows × 10 rows; row z·n + i is demand row i for zone z (zone-major) |
| Merge.JoinRow | Scripts/process_data.py:69-74 | the left join's rows for one melted row: at least one, each carrying that row, the first unfilled exactly when no climate row has its key |
| Merge.LeftJoin | Scripts/process_data.py:69-74 | the left join has at least one row per melted row, and every joined row is made of some melted row |
| Merge.JoinRowClimate | Scripts/process_data.py:69-74 | a joined row carries its demand row unchanged; its climate is missing iff no climate row has its key, and otherwise comes from a climate row with that key |
| Merge.NoMatchesIffNoKey | Scripts/process_data.py:69-74 | a melted row finds no climate match exactly when no climate row has its (datetime, region) |
| Merge.OneJoinedRow | Scripts/process_data.py:69-74 | with unique climate keys, each demand row joins to exactly one row |
| Merge.LeftJoinKeepsEveryRow | Scripts/process_data.py:73 | every demand-side row appears in the left join |
| Merge.LeftJoinRowForRow | Scripts/process_data.py:69-74 | with unique climate keys, the join has one row per demand row, in order, with the climate of the matching key or missing |
| Merge.LeftJoinSize | Scripts/process_data.py:69-74 | with unique climate keys the join does not change the row count |
| Merge.MergedByKeyIsTotalPreorder | Scripts/process_data.py:77-78 | (datetime, region) order on merged rows is a total preorder |
| Merge.MergeDemandClimate | Scripts/process_data.py:55-80 | the result is sorted by (datetime, region), is a permutation of the left join of the melted table, and has demand rows × 10 rows when climate keys are unique |
| Lags.Shift | Scripts/process_data.py:100 | `Series.shift(k)`: same length, position i holds position i − k or missing when that is outside the table |
| Lags.WithLagColumns | Scripts/process_data.py:99-100 | every row unchanged, with one lag column per lag; column c is the target column shifted by lags[c] |
| Lags.CreateLagFeatures | Scripts/process_data.py:97-106 | one lag column per lag, then the rows with every lag present |
| Lags.LagFeaturesSelect | Scripts/process_data.py:97-106 | the output rows are the input rows, in order, at exactly the positions where every lag exists; each lag k value is the target k positions back |
| Lags.MaxLag | Scripts/process_data.py:97 | the largest lag: an upper bound on every lag, and attained |
| Lags.CompleteIffPastMaxLag | Scripts/process_data.py:99-104 | with no missing targets and non-negative lags, row i keeps all its lags exactly when i is at least the largest lag |
| Lags.NoMissingTargetsDropsPrefix | Scripts/process_data.py:99-104 | with no missing targets and non-negative lags, exactly the first min(max lag, rows) rows are dropped |
| Pipeline.FindKey | Scripts/process_data.py:131 | the first row with a given (datetime, region), or None when no row has it |
| Pipeline.CreateHourlyLagFeatures | Scripts/process_data.py:131 | lag k of a row is its region's Ontario Demand k hours earlier; rows missing any lag are dropped |
| Pipeline.GridLookup | Scripts/process_data.py:131 | on a gapless hourly grid of ten zones, row p's region k hours earlier is row p − 10k, and missing outside the grid |
| Pipeline.GridLagCell | Scripts/process_data.py:131 | each hourly lag value on the grid comes from the row of the same zone exactly k hours earlier |
| Pipeline.HourlyLagsOnGrid | Scripts/process_data.py:131 | on a gapless grid with no missing demand, exactly the first min(max lag, hours) hours (10 rows each) are dropped |
| Pipeline.PositionalLagsOnGrid | Scripts/process_data.py:131 | on 17 gapless hours with lags 24/48/168, the positional builder keeps 2 rows and reads lag_24 two hours back; the hourly builder keeps none |
| Pipeline.ProcessDataAsWritten | Scripts/process_data.py:108-135 | fails iff either file list is empty; otherwise yields the rows, lagged by position, that have every lag, taken from the merge of a sorted permutation of the demand rows with a sorted permutation of the climate rows |
| Pipeline.ProcessData | Scripts/process_data.py:131 | `main` with the hourly lag builder: fails iff either file list is empty; otherwise yields the hourly-lag-complete rows of the merge of a sorted permutation of the demand rows with a sorted permutation of the climate rows |

## Left out

- File discovery (`glob`), CSV reading with `skiprows=3`, `to_csv` and
  every `print` are I/O. Files arrive as sequences of parsed records, and
  results are returned instead of written.
- `pd.to_datetime` parsing of the `Date` and `time` text columns is
  left out. Dates arrive as valid calendar dates and climate times as hour
  timestamps.
- The `holidays` library is not part of this model. Ontario's holidays arrive
  as a set of dates, and the model restricts that set to 2018–2025 as the
  script does. How the library places observed holidays is not modelled.
- Floating-point values and NaN are left out. Measurements are integers or
  missing. Arithmetic on values is never needed.
- Tables.SortBy: the contract states sortedness and permutation, not the
  order of rows with equal keys. The default sort kind in pandas does not
  promise that order either. The model's insertion keeps equal keys in
  input order, but no lemma states it.
- Column assignment on the DataFrame in place (`df['hour'] = …`,
  `set_index(inplace=True)`, `sort_index(inplace=True)`) is modelled on
  values. Each stage returns a new table, and aliasing of the caller's
  DataFrame is not captured.
- Years are unbounded integers. pandas' nanosecond timestamps cover
  only years 1677–2262.
- The demand files' other columns, beyond Date, Hour, Ontario Demand and the
  melted zone columns, are not modelled. The same goes for the climate
  files' columns other than the named measurements.
- Text.SplitHead: requires a non-empty separator. Python raises ValueError for
  an empty one, and the script always passes "Climate".
- Climate.RegionOfConventionalPath: stated only for names that follow
  `<region>Climate<ext>`, with no '/' in region or extension. A file name without "Climate" yields its whole
  basename, as `split` does, and the script raises no error for it.
- Merge.MergeDemandClimate: the row count is stated for unique climate
  keys. Duplicate keys multiply rows, as in pandas, and LeftJoinKeepsEveryRow
  still holds.
- Text.Basename: splits only at '/'. On Windows `os.path.basename` also
  splits at '\\', which is not modelled.
- Pipeline.ProcessData: uses the corrected hourly lag builder, so on data
  where the positional builder of line 131 keeps rows, it can keep others
  or none. `main` as written is Pipeline.ProcessDataAsWritten.
- Lags.WithLagColumns: makes one column per entry of `lags`. pandas names
  each column `<target>_lag_<k>`, so a lag listed twice overwrites one
  column. The rows kept are the same either way, and `main` passes the
  distinct lags 24, 48, 168.
- The other scripts in the repository (report scraping, file copying, the
  exploration notebook) are not part of this model.

## Findings

| source | as written | input that shows it | evidently intended | confidence | as-written member | corrected member |
|---|---|---|---|---|---|---|
| Scripts/process_data.py:131 | `create_lag_features` shifts by row position, but is applied to the merged long table, which has ten rows (one per zone) per hour; `lag_24` therefore reads a different zone 2–3 hours earlier, and only the first 168 rows are dropped | 17 consecutive hours × 10 zones, no missing demand, lags [24, 48, 168]: two rows of hour 16 survive, and the first one's `lag_24` holds the demand of hour 14 | lag k = Ontario Demand of the same zone k hours earlier; the first max-lag hours (10 × 168 rows) are dropped; `Scripts/explore_data.py:107` applies the same builder to the one-row-per-hour demand table, where 24 rows are 24 hours | not executed | Pipeline.PositionalLagsOnGrid | Pipeline.CreateHourlyLagFeatures |
