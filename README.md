# Air-quality data validator: a Dafny model

This project models the computational core of the air-quality data
validator. The validator has a Flask backend (`backend/app.py`) and a React
front end.

The backend does five things:

- It accepts an uploaded ENVISTA workbook.
- It translates the ENVISTA status texts into the validator's ten flags.
- It reshapes the export into the base format: one row per station and hour, with seventeen parameter columns.
- It validates the readings with three rules in sequence: operating ranges with detection limits, cabin temperature, and time-series rules.
- It builds the validation summary.

The front end draws charts and a table from the validated records:

- The statistics chart holds per-station descriptive statistics and a box plot.
- The line charts hold per-station means and a time series bucketed by `DATE HH:00`.
- The data table has a column order, pagination, and cell formatting and colouring.

Each part is modelled in the form its source takes:

- The backend rules loop over columns and rows. They are methods with loops, proved against per-cell specification functions.
- The reshaping, the summary tables and the front-end aggregations loop over records into dictionaries. They are methods proved equal to recursive or comprehension-defined specification functions.
- The properties promised by the code are lemmas about those functions.

A cell is `Num(r)` (a reading), `Text(s)` (a flag or other text) or `Empty` (Python's `None`/`NaN`, JavaScript's `null`). A record is one station's row for one hour. A frame is the backend table: its parameter columns and its rows.

## Model

| member | source | states |
|---|---|---|
| Strings.BelowIrreflexive | frontend/src/components/LineCharts.tsx:168 | no key sorts before itself under the code-point order used by `sort()`, `localeCompare` on the keys and Python string comparison |
| Strings.BelowAsymmetric | frontend/src/components/LineCharts.tsx:168 | the order is asymmetric |
| Strings.BelowTransitive | frontend/src/components/LineCharts.tsx:168 | the order is transitive |
| Strings.BelowTotal | frontend/src/components/LineCharts.tsx:168 | two different strings are always ordered one way or the other |
| Strings.AtMostTotal | frontend/src/components/StatCharts.tsx:77 | the non-strict order used by `sort()` compares any two strings |
| Strings.AtMostTransitive | frontend/src/components/StatCharts.tsx:77 | the non-strict order is transitive |
| Strings.BelowCommonPrefix | frontend/src/components/LineCharts.tsx:143 | a shared prefix (the DATE text of two keys) does not change their order |
| Strings.BelowExtend | frontend/src/components/LineCharts.tsx:143-168 | appending texts to two ordered keys of equal length (DATE texts) keeps their order |
| Strings.BelowAtFirstDifference | frontend/src/components/LineCharts.tsx:168 | the first differing code point decides the order |
| Strings.ContainsAt | backend/app.py:139 | the search from a position finds an occurrence of the needle exactly when one starts at or after it |
| Strings.IsSubstring | backend/app.py:139 | Python's `in` on strings holds exactly when the needle occurs somewhere in the haystack |
| Strings.LowerChar | backend/app.py:139 | `lower()` turns 'A'-'Z' into 'a'-'z' and leaves every other character alone |
| Strings.Lower | backend/app.py:488 | lower-casing keeps the length and lowers each character independently |
| Strings.StripLeft | backend/app.py:133 | removes exactly the leading whitespace |
| Strings.StripRight | backend/app.py:133 | removes exactly the trailing whitespace |
| Strings.Strip | backend/app.py:133 | `strip()` returns a contiguous slice of the input with no whitespace at either end |
| Strings.StripExact | backend/app.py:133 | `strip()` cuts off only whitespace: the result is a slice of the input and everything before and after it is whitespace |
| Strings.StripSlices | backend/app.py:133 | cutting the leading whitespace and then the trailing whitespace leaves a slice with only whitespace outside it |
| Strings.StrictlySortedDistinct | frontend/src/components/StatCharts.tsx:75-78 | a strictly ascending list has no duplicates |
| Sorting.Insert | backend/app.py:233 | inserting one element adds exactly that element |
| Sorting.InsertSorted | backend/app.py:233 | inserting into a sorted list keeps it sorted for any total preorder |
| Sorting.Sort | frontend/src/components/StatCharts.tsx:115 | the sort returns a sorted permutation of its input |
| Sorting.SameElements | frontend/src/components/StatCharts.tsx:115 | a permutation holds the same elements |
| Cells.SetCell | backend/app.py:254 | writing one cell changes that cell only and keeps station, date and hour |
| Cells.Unique | frontend/src/components/StatCharts.tsx:76 | `new Set(...)` / `unique()` keeps every value exactly once and adds none |
| Cells.DistinctCard | backend/app.py:418-420 | a duplicate-free list has as many elements as distinct values |
| Cells.UniqueCount | backend/app.py:418-420 | `len(unique())` is the number of distinct values of the column |
| Cells.StationsOf | frontend/src/components/StatCharts.tsx:76 | the STATION column is the stations of the records, position by position |
| Cells.SamplesExact | frontend/src/components/StatCharts.tsx:86-96 | a value is among a station's samples of `p` exactly when some record of that station holds that reading |
| Cells.SamplesEmpty | frontend/src/components/StatCharts.tsx:99-100 | a station has no samples exactly when none of its records holds a reading of `p` |
| Config.LookupOr | backend/app.py:203 | `dict.get(key, default)` returns the entry of the key, or the default when the key is absent |
| Config.ParamTableLands | backend/app.py:52-63 | every ENVISTA parameter name maps to a base-format column |
| Config.MapParam | backend/app.py:203 | `MAPEO_PARAMETROS.get(name, name)`: the renamed parameter, or the name itself when the table does not know it; stated by Config.MapParamLands |
| Config.MapParamLands | backend/app.py:203-205 | a mapped name is one of the seventeen parameter columns exactly when the name is already one or appears in the renaming table |
| Config.FirstKey | backend/app.py:203 | a key present in the table has a first occurrence |
| Config.RangeOf | backend/app.py:73-91 | exactly the seventeen listed parameters have a range; each range has min below max, and any detection limit lies inside the range |
| Upload.LastDot | backend/app.py:488 | `rsplit('.', 1)` splits at the last '.', and no '.' follows it |
| Upload.LastDotUnique | backend/app.py:488 | a '.' with no '.' after it is the one `rsplit('.', 1)` splits at |
| Upload.AllowedFile | backend/app.py:486-488 | specification of `allowed_file`: the text after the last '.', lower-cased, is xlsx or xls; stated by Upload.AllowedFileIff and the lemmas below |
| Upload.AllowedFileIff | backend/app.py:486-488 | a name is accepted exactly when it has a '.' and the text after the last '.' lowers to "xlsx" or "xls" |
| Upload.AllowedFileCaseInsensitive | backend/app.py:486-488 | accepting a name does not depend on its letter case |
| Upload.LastDotLower | backend/app.py:488 | lower-casing does not move the last '.' |
| Upload.LowerIdempotent | backend/app.py:488 | lower-casing twice is lower-casing once |
| Upload.AcceptedNames | backend/app.py:486-488 | "a.XLSX" and "b.xls" are accepted |
| Upload.RefusedNames | backend/app.py:486-488 | "xlsx", "a.csv" and "a.xls.b" are refused |
| EnvistaFlags.TableCodesAreFlags | backend/app.py:94-115 | every ENVISTA status text maps to one of the ten validator flags |
| EnvistaFlags.MapEnvistaFlag | backend/app.py:128-146 | specification of `mapear_bandera_envista`: missing and numeric cells give no flag, text is stripped, looked up exactly, then searched for an entry ignoring case, and otherwise gives no flag when it parses as a float and IO when it does not; its properties are the EnvistaFlags lemmas below |
| EnvistaFlags.ExactEntry | backend/app.py:135-136 | the exact lookup finds the first entry whose text equals the stripped value, or reports there is none |
| EnvistaFlags.FirstOccurring | backend/app.py:138-140 | the substring scan finds the first non-empty entry occurring case-insensitively in the value, or reports there is none |
| EnvistaFlags.MapEnvistaFlagIsFlag | backend/app.py:128-146 | whatever the input, `mapear_bandera_envista` yields no flag or one of the ten flags |
| EnvistaFlags.TableKeysDistinct | backend/app.py:108-115 | no two entries of the ENVISTA table share a status text |
| EnvistaFlags.ExactMatchWins | backend/app.py:133-136 | a value whose stripped text is a table entry gets that entry's flag |
| EnvistaFlags.FirstOccurrenceWins | backend/app.py:138-140 | with no exact match, the first entry occurring in the text decides the flag |
| EnvistaFlags.UnmatchedText | backend/app.py:142-146 | text matching no entry gets no flag when it parses as a float, and IO otherwise |
| EnvistaFlags.UnflaggedTextIsNumber | backend/app.py:142-144 | text that comes back without a flag always parses as a decimal number |
| EnvistaFlags.FlaggedWhenOccurs | backend/app.py:138-140 | text in which some non-empty entry occurs, ignoring case, always gets a flag |
| EnvistaFlags.BlankInsideIsFlagged | backend/app.py:138-140 | the single-space entry makes every text with an inner blank a flag, never a number |
| Reshape.ConvertValue | backend/app.py:207-217 | a usable cell never becomes empty; text it yields is always a flag; a number stays itself; a number read from text is what that text parses to |
| Reshape.Fills | backend/app.py:200-205 | a column fills parameter p of a station when its header starts with the station's name and '_' and the renamed text after the first '_' is p, one of the seventeen parameter columns; stated by Reshape.StationValuesEmpty and Reshape.StationValuesLastWins |
| Reshape.StationValues | backend/app.py:197-198 | a station's row starts with every parameter column present and empty |
| Reshape.ReadColumn | backend/app.py:200-217 | a column that fills a parameter with a usable value sets that parameter to the converted value; every other parameter keeps its cell, and a column that fills nothing changes nothing |
| Reshape.StationValuesPrefix | backend/app.py:200-217 | reading one more column applies that column's write to the cells read so far |
| Reshape.StationValuesEmpty | backend/app.py:200-217 | a parameter stays empty exactly when none of the station's columns for it holds a usable value |
| Reshape.NoneFillsSplit | backend/app.py:200-217 | the no-usable-column condition splits off the last column |
| Reshape.StationValuesLastWins | backend/app.py:200-217 | when several columns fill the same parameter, the last usable one decides its cell |
| Reshape.CountFilledPositive | backend/app.py:219-220 | the count of filled parameters is positive exactly when some parameter is non-empty |
| Reshape.StationRecordsKept | backend/app.py:190-223 | every row kept for one time stamp has a reading, carries that stamp's date, and belongs to a known station code |
| Reshape.BuiltRowsKept | backend/app.py:182-223 | every converted row has a reading and a known station code |
| Reshape.StationRecordsHas | backend/app.py:190-223 | a station's record with a reading is among the rows kept for its time stamp |
| Reshape.StationRecordsFrom | backend/app.py:190-223 | every row kept for one time stamp is the record of one of the stations |
| Reshape.BuiltRowsHas | backend/app.py:182-223 | the record of any time-stamped row and known station that has a reading is built |
| Reshape.BuiltRowsFrom | backend/app.py:182-223 | every built row is the record of some time-stamped row and some known station |
| Reshape.ReshapedShape | backend/app.py:225-237 | the result is sorted by (STATION, DATE, HOUR), is a permutation of the built rows, has the base columns when non-empty, and keeps only rows with readings |
| Reshape.ReshapedMembers | backend/app.py:233 | sorting the built records keeps exactly the same records: a record is in the result iff it was built |
| Reshape.ReshapedKeeps | backend/app.py:182-237 | the record of a time-stamped row and a known station is in the result exactly when `datos_validos > 0`, and the result holds nothing but such records |
| Reshape.Reshaped | backend/app.py:178-237 | specification of `convertir_a_formato_base`: the built rows sorted by (STATION, DATE, HOUR) under the seventeen columns, or an empty table; stated by Reshape.ReshapedShape and Reshape.ReshapedKeeps |
| Reshape.RowLeTotalPreorder | backend/app.py:233 | ordering by station, then date, then hour is a total preorder |
| Reshape.ReadStation | backend/app.py:197-217 | the column loop builds exactly the station's parameter cells |
| Reshape.CountParams | backend/app.py:219-220 | `datos_validos` counts the non-empty parameters, and is positive exactly when the row has a reading |
| Reshape.ConvertRow | backend/app.py:190-223 | the station loop appends exactly the kept rows of one time stamp |
| Reshape.ConvertToBase | backend/app.py:178-237 | `convertir_a_formato_base` returns exactly the reshaped frame |
| RangeValidation.RangedCell | backend/app.py:252-261 | a reading becomes IR exactly when it is outside [min, max]; a reading that survives lies in the range and at or above the detection limit; a changed reading was raised to the limit; non-readings are untouched |
| RangeValidation.RangedCellIdempotent | backend/app.py:252-261 | range-checking twice is range-checking once |
| RangeValidation.RangeChecked | backend/app.py:244-247 | parameters without a range or absent from the frame, and non-readings, are untouched |
| RangeValidation.RangeCheckedIdempotent | backend/app.py:244-261 | the column check is idempotent |
| RangeValidation.CheckColumn | backend/app.py:245-261 | the row loop rewrites column `p` cell by cell and leaves every other cell and every row's shape as it was |
| RangeValidation.ValidateRanges | backend/app.py:240-263 | `validar_rangos` keeps columns and rows and replaces each cell by its range-checked value |
| CabinTemperature.CabinChecked | backend/app.py:268-284 | a cell changes exactly when IT is a column, the pollutant is one of the eight and present, IT's reading is outside 20-30, and the cell is a reading; it then becomes IO |
| CabinTemperature.CabinCheckedIdempotent | backend/app.py:266-286 | applying the cabin rule to its own output changes nothing |
| CabinTemperature.CheckPollutant | backend/app.py:278-284 | the row loop rewrites one pollutant's column only |
| CabinTemperature.ValidateCabin | backend/app.py:266-286 | `validar_temperatura_interna` applies the cell rule to every cell and returns the frame unchanged when IT is missing |
| TimeSeries.RunDecides | backend/app.py:306-313 | inside a maximal run of equal cells, a position is in a long run exactly when the run is of readings and longer than three |
| TimeSeries.LongRunSpreads | backend/app.py:306-313 | a long run marks its equal neighbours too |
| TimeSeries.InLongRun | backend/app.py:306-313 | a reading lies in a run of more than three equal consecutive cells of the column; stated by TimeSeries.RunDecides |
| TimeSeries.RunExamples | backend/app.py:308 | four equal readings form a long run; three do not |
| TimeSeries.LongRunMarks | backend/app.py:303-313 | the marking loop flags exactly the positions in long runs of equal readings |
| TimeSeries.Column | backend/app.py:305 | a column is the cells of `p`, row by row |
| TimeSeries.RatioBadNumeric | backend/app.py:321 | a ratio rule fires only when all its parameters are readings |
| TimeSeries.RatioBad | backend/app.py:316-346 | the NO/NO2/NOX rule and the PM2.5/PM10 rule on one record: every parameter a reading, the denominator NOX or PM10 not zero, and the ratio out of bounds; stated by TimeSeries.NoxRatioBounds and TimeSeries.PmRatioBounds |
| TimeSeries.NoxRatioBounds | backend/app.py:324-325 | for positive NOX, the ratio (NO + NO2) / NOX leaves [0.85, 1.15] exactly when NO + NO2 leaves [0.85 NOX, 1.15 NOX] |
| TimeSeries.PmRatioBounds | backend/app.py:340-341 | for positive PM10, PM2.5 / PM10 > 1.15 exactly when PM2.5 > 1.15 PM10 |
| TimeSeries.StationCell | backend/app.py:300-346 | a station's cell changes only from a reading to IO or DS, and DS only for a listed pollutant in a long run |
| TimeSeries.Overwrite | backend/app.py:327-330 | writes one flag into one column at the marked rows and nowhere else |
| TimeSeries.RatioApplies | backend/app.py:316-346 | a ratio rule applies to parameter p in an hour when p is one of its columns, all its columns exist, and the hour fails the rule; stated by TimeSeries.MarkRatio and TimeSeries.StationCell |
| TimeSeries.MarkRatio | backend/app.py:316-346 | a ratio rule sets IO exactly where it applies and keeps all other cells |
| TimeSeries.ValidateStation | backend/app.py:300-346 | the station's rows get exactly the per-cell result of the three rules |
| TimeSeries.IndicesOf | backend/app.py:297 | the positions of a station's rows, ascending, each holding that station |
| TimeSeries.IndicesPrefix | backend/app.py:297 | the positions found in a prefix are a prefix of all positions |
| TimeSeries.RankIndex | backend/app.py:312 | a row's rank among its station's rows points back to the row (`index` round trip) |
| TimeSeries.StationRows | backend/app.py:297-298 | a station's sub-frame has one row per position of that station |
| TimeSeries.SeriesCellRefines | backend/app.py:289-350 | a cell of the series validation changes only from a reading to IO or DS |
| TimeSeries.SeriesCell | backend/app.py:289-350 | specification of `validar_series_temporales` for one cell: the station's per-cell result at the row's rank among its station's rows; stated by TimeSeries.SeriesCellRefines and TimeSeries.ValidateSeries |
| TimeSeries.StationIndices | backend/app.py:297 | the loop finds exactly the station's row positions |
| TimeSeries.Scatter | backend/app.py:312-313 | the station's rows are written back at their original positions and all other rows are kept |
| TimeSeries.ValidateSeries | backend/app.py:289-350 | `validar_series_temporales` keeps columns and rows and gives each cell its series-validated value |
| TimeSeries.ProcessStation | backend/app.py:296-346 | processing one station rewrites that station's rows and leaves every other row as it was |
| FullValidation.ValidateAll | backend/app.py:368-373 | the three validations in order keep every non-reading; they turn readings only into readings or the flags IR, IO, DS; every surviving reading of a ranged parameter lies in its range |
| FullValidation.StagesCompose | backend/app.py:368-373 | range checks, cabin-temperature checks and time-series checks that each only change readings into readings or flags compose into a run that does the same and leaves only in-range readings |
| FullValidation.RangeStep | backend/app.py:370 | the range step changes only readings, into readings or IR, and what survives is in range |
| FullValidation.CabinStep | backend/app.py:371 | the cabin step changes only readings, into IO |
| FullValidation.ChainRefines | backend/app.py:368-373 | composing the three steps never touches a flag or empty cell, and a final reading went through every step unchanged |
| FlagSummary.CountIn | backend/app.py:388 | a count of equal cells is at most the number of rows |
| FlagSummary.CountInPositive | backend/app.py:388 | the count is positive exactly when some row holds that cell |
| FlagSummary.FlagTotal | backend/app.py:381-388 | a flag's total over the parameter columns is at most rows × columns |
| FlagSummary.FlagTotalPositive | backend/app.py:381-388 | the total is positive exactly when the flag appears in some parameter cell |
| FlagSummary.CountFlags | backend/app.py:378-388 | `banderas_encontradas` holds exactly the flags that occur, each with its total count |
| FlagSummary.CountColumn | backend/app.py:383-388 | one column adds, for every flag, exactly its number of cells in that column to the running total; only flags become keys and totals never drop |
| FlagSummary.AddFlag | backend/app.py:385-388 | a flag cell adds one to its own total only; any other cell leaves the totals alone |
| FlagSummary.Tally | backend/app.py:385-388 | the running total of a flag, 0 before it is first seen; stated by FlagSummary.CountColumn and FlagSummary.AddFlag |
| FlagSummary.CountGeTotalPreorder | backend/app.py:393 | ordering by descending count is a total preorder |
| FlagSummary.FoundRowsExact | backend/app.py:390-392 | the rows built from the counts are exactly the occurring flags with their count and description |
| FlagSummary.FlagCodesDistinct | backend/app.py:94-104 | the ten flags of the validator are listed once each |
| FlagSummary.FoundRowsDistinct | backend/app.py:381-392 | over a duplicate-free flag list, each occurring flag has one row, as the keys of `banderas_encontradas` give |
| FlagSummary.Summary | backend/app.py:378-395 | the summary is sorted by descending count; it is the single "Sin banderas aplicadas" row exactly when no flag occurs, and otherwise lists exactly the occurring flags with total and description, each flag once |
| FlagSummary.BuildSummary | backend/app.py:378-395 | the summary code computes exactly that table |
| FlagSummary.StationCountPositive | backend/app.py:404-405 | a station's count of a cell is positive exactly when one of its rows holds it |
| FlagSummary.DetailCodesExact | backend/app.py:403-412 | the flag loop emits exactly the flags present for one station and parameter, with description and count |
| FlagSummary.DetailParamsExact | backend/app.py:401-412 | the parameter loop emits exactly the fitting entries of those parameters |
| FlagSummary.DetailStationsExact | backend/app.py:399-412 | the station loop emits exactly the fitting entries of those stations |
| FlagSummary.DetailedExact | backend/app.py:398-413 | the detailed summary holds an entry exactly for each (station, parameter column, flag) with a positive count, with that count and description |
| FlagSummary.DetailCodesDistinct | backend/app.py:403-413 | the flag loop gives each flag at most one entry for a station and parameter |
| FlagSummary.DetailParamsDistinct | backend/app.py:401-413 | over duplicate-free columns, the parameter loop gives each (parameter, flag) at most one entry for a station |
| FlagSummary.DetailStationsDistinct | backend/app.py:398-413 | over duplicate-free stations and columns, the station loop gives each (station, parameter, flag) at most one entry |
| FlagSummary.DetailedDistinct | backend/app.py:398-413 | over duplicate-free columns, the detailed summary has no repeated entry and at most one entry per (station, parameter, flag) |
| FlagSummary.Detailed | backend/app.py:398-413 | specification of `resumen_detallado`: the station loop over the distinct stations in first-seen order; stated by FlagSummary.DetailedExact |
| FlagSummary.CountStation | backend/app.py:404 | the counting loop computes the station count |
| FlagSummary.StationDetails | backend/app.py:401-412 | the loop over parameters builds one station's entries |
| FlagSummary.BuildDetailed | backend/app.py:398-413 | the nested loops build the detailed summary |
| SummaryStats.DatesOf | backend/app.py:420 | the DATE column, row by row |
| SummaryStats.DistinctDates | backend/app.py:420 | `len(df['DATE'].unique())` as written: the number of distinct DATE texts, the as-written half of the finding, stated by SummaryStats.TwoHoursCountAsTwoDays |
| SummaryStats.DayOf | backend/app.py:187 | the calendar-day part of a DATE text is at most ten characters |
| SummaryStats.DaysOf | backend/app.py:420 | the calendar day of each row |
| SummaryStats.DistinctDays | backend/app.py:420 | the number of distinct calendar days, the corrected half of the finding, stated by SummaryStats.OneDay and SummaryStats.DayCount |
| SummaryStats.OneDay | backend/app.py:420 | rows all on one calendar day count as one day processed |
| SummaryStats.UniqueConstant | backend/app.py:420 | the distinct values of a constant non-empty column are that one value |
| SummaryStats.TwoHoursCountAsTwoDays | backend/app.py:420 | two hours of the same day count as two "days processed" as written, one day as intended |
| SummaryStats.NumCount | backend/app.py:421 | the readings of a column are at most its rows |
| SummaryStats.ReadingCount | backend/app.py:421 | the readings of the parameter columns are at most rows × columns |
| SummaryStats.NumCountZero | backend/app.py:421 | a column has no readings exactly when no row holds a reading |
| SummaryStats.NumCountUpTo | backend/app.py:421 | the reading count of the first n rows is the number of positions below n holding a reading |
| SummaryStats.NumCountRows | backend/app.py:421 | a column's reading count is the number of row positions holding a reading |
| SummaryStats.StationCountCard | backend/app.py:419 | the distinct stations of the STATION column number as many as the stations of the rows |
| SummaryStats.DayCount | backend/app.py:420 | the distinct calendar days of the DATE column number as many as the days of the rows |
| SummaryStats.General | backend/app.py:416-429 | records is the row count; stations is the number of distinct station codes; days is the number of distinct calendar days (the corrected count of the finding below, not the distinct DATE texts as written); readings is the column-by-column sum of reading counts; hence stations and days never exceed records and readings never exceed rows × columns |
| SummaryStats.SamplesAtMostRows | backend/app.py:442-443 | a station's valid readings never exceed its record count |
| SummaryStats.StatFor | backend/app.py:436-447 | the statistics row of one station and parameter, present only when it has a reading: the station's record count, the number of readings, their minimum, maximum and mean; stated by SummaryStats.StatParamsExact and SummaryStats.DetailedStatsExact |
| SummaryStats.StatParamsExact | backend/app.py:435-448 | the parameter loop emits exactly the statistics rows of parameters with readings |
| SummaryStats.StatStationsExact | backend/app.py:433-448 | the station loop emits exactly the statistics rows of those stations |
| SummaryStats.DetailedStatsExact | backend/app.py:432-449 | a (station, parameter) row exists exactly when that parameter column holds a reading of that station; in every row, 0 < readings ≤ records and min ≤ mean ≤ max |
| SummaryStats.StatParamsDistinct | backend/app.py:435-449 | over duplicate-free columns, the parameter loop gives each parameter at most one row for a station |
| SummaryStats.StatStationsDistinct | backend/app.py:432-449 | over duplicate-free stations and columns, the station loop repeats no row |
| SummaryStats.DetailedStatsDistinct | backend/app.py:432-449 | over duplicate-free columns, the statistics table has no repeated row and at most one row per (station, parameter) |
| SummaryStats.DetailedStats | backend/app.py:432-449 | specification of `estadisticas_detalladas`: the station loop over the distinct stations in first-seen order; stated by SummaryStats.DetailedStatsExact |
| SummaryStats.StationSamples | backend/app.py:436-437 | the loop collects exactly the station's readings |
| SummaryStats.StationStats | backend/app.py:435-448 | the loop builds one station's statistics rows |
| SummaryStats.BuildDetailedStats | backend/app.py:432-449 | the nested loops build the detailed statistics |
| Numbers.SeqMin | backend/app.py:444 | the minimum is one of the values and no value is below it |
| Numbers.SeqMax | backend/app.py:445 | the maximum is one of the values and no value is above it |
| Numbers.SumBounds | backend/app.py:446 | a sum of n values in [lo, hi] lies in [n·lo, n·hi] |
| Numbers.MeanWithin | backend/app.py:446 | the mean of values in [lo, hi] lies in [lo, hi] |
| Numbers.MeanBetweenExtremes | backend/app.py:444-446 | the mean lies between minimum and maximum |
| Numbers.SquaredDeviationsNonNegative | frontend/src/components/StatCharts.tsx:121 | the sum of squared deviations is never negative |
| Numbers.ToFixed | frontend/src/components/StatCharts.tsx:132-142 | the value of `Number(x.toFixed(d))`: x rounded to d decimals, halves away from zero; stated by Numbers.ToFixedClose and Numbers.ToFixedMonotone |
| Numbers.ToFixedClose | frontend/src/components/StatCharts.tsx:132-142 | `toFixed(d)` moves a value by at most half a unit of the last decimal |
| Numbers.FixedUnitsMonotone | frontend/src/components/StatCharts.tsx:132-142 | rounding magnitudes to d decimals is monotone |
| Numbers.ToFixedMonotone | frontend/src/components/StatCharts.tsx:132-142 | `Number(x.toFixed(d))` preserves ≤ |
| Numbers.NatText | frontend/src/components/LineCharts.tsx:143 | `String(n)` is a digit string without a leading zero whose value is n |
| Numbers.FixedText | frontend/src/components/DataTable.tsx:147 | the text of `value.toFixed(d)`; stated by Numbers.FixedTextShape and Numbers.FixedTextRoundTrip |
| Numbers.ParseDecimal | backend/app.py:142-144 | Python's `float()` on a decimal literal with optional sign and exponent, None for other text; stated by Numbers.FixedTextRoundTrip, Numbers.NatTextRoundTrip and EnvistaFlags.UnflaggedTextIsNumber |
| Numbers.FixedTextRoundTrip | frontend/src/components/DataTable.tsx:145-147 | the text printed by `toFixed(d)` parses back to the rounded value |
| Numbers.FixedTextShape | frontend/src/components/DataTable.tsx:145-147 | the `toFixed(d)` text has the shape of its output: a minus sign exactly for negative values, a digit run, and for d > 0 one point followed by exactly d digits |
| Numbers.PointedShape | frontend/src/components/DataTable.tsx:145-147 | putting the point before the last d digits of a digit run gives that shape |
| Numbers.NatTextRoundTrip | frontend/src/components/LineCharts.tsx:143 | the decimal text of a whole number parses back to it |
| ChartData.AtMostTotalPreorder | frontend/src/components/StatCharts.tsx:77 | the default `sort()` order is a total preorder |
| ChartData.DistinctCount | frontend/src/components/StatCharts.tsx:76 | a duplicate-free list holds each value at most once |
| ChartData.PermutationDistinct | frontend/src/components/StatCharts.tsx:76-77 | sorting a duplicate-free list keeps it duplicate-free |
| ChartData.SortedStations | frontend/src/components/StatCharts.tsx:75-78 | the station list is strictly ascending and holds exactly the stations that occur in the records |
| ChartData.SortedDistinctStrict | frontend/src/components/LineCharts.tsx:99-102 | a sorted rearrangement of a duplicate-free list is strictly ascending |
| ChartData.StationsExample | frontend/src/components/LineCharts.tsx:99-102 | records of ZAR, ABC, ABC list the stations as ABC, ZAR |
| ChartData.SortedPair | frontend/src/components/LineCharts.tsx:99-102 | a strictly ascending station list holding exactly two names is those two, the smaller first |
| StatCharts.CollectSamples | frontend/src/components/StatCharts.tsx:84-96 | `stationStats` has a key exactly for the stations with readings of the parameter, holding those readings in record order |
| StatCharts.RealLeTotalPreorder | frontend/src/components/StatCharts.tsx:115 | the comparator `(a, b) => a - b` is a total preorder |
| StatCharts.Variance | frontend/src/components/StatCharts.tsx:121 | the population variance is never negative |
| StatCharts.QuartileChain | frontend/src/components/StatCharts.tsx:124-128 | the quartile indices lie inside the sorted readings, and minimum ≤ q1 ≤ median ≤ q3 ≤ maximum |
| StatCharts.Median | frontend/src/components/StatCharts.tsx:126 | the middle element, or the mean of the two middle elements for an even count; stated by StatCharts.QuartileChain and StatCharts.StationStatQuartiles |
| StatCharts.SortedExtremes | frontend/src/components/StatCharts.tsx:124-125 | the first and last sorted readings are the minimum and the maximum |
| StatCharts.StationStat | frontend/src/components/StatCharts.tsx:113-143 | count is n; min and max are the rounded extremes; the mean is the rounded average; the five-number chain stays ordered after rounding; the mean lies between min and max; the error bars equal the rounded standard deviation |
| StatCharts.OrderedRounding | frontend/src/components/StatCharts.tsx:132-138 | rounding to 4 decimals keeps five ordered values ordered |
| StatCharts.StationRows | frontend/src/components/StatCharts.tsx:98 | one statistics row per station, in station order |
| StatCharts.ComputeStats | frontend/src/components/StatCharts.tsx:83-145 | `statsData` as computed equals the specification |
| StatCharts.TableRowsAgree | frontend/src/components/StatCharts.tsx:98-99 | rows built from the collected dictionary equal rows built from the records |
| StatCharts.ZeroStat | frontend/src/components/StatCharts.tsx:99-111 | the all-zero placeholder of a station without readings, count 0; StatCharts.CountedMembers and StatCharts.StatsDataExact state that the filter drops it |
| StatCharts.CountedMembers | frontend/src/components/StatCharts.tsx:144 | the filter keeps exactly the rows with a positive count |
| StatCharts.CountedAscending | frontend/src/components/StatCharts.tsx:144 | the filter keeps the station order |
| StatCharts.StatsDataExact | frontend/src/components/StatCharts.tsx:83-145 | a row is shown exactly for each station with readings, holding that station's statistics; rows ascend by station; every row satisfies count > 0, min ≤ q1 ≤ median ≤ q3 ≤ max and min ≤ mean ≤ max |
| StatCharts.StatsData | frontend/src/components/StatCharts.tsx:83-145 | specification of `statsData`: the statistics row of each sorted station, keeping those with a positive count; stated by StatCharts.StatsDataExact |
| StatCharts.StatsAscending | frontend/src/components/StatCharts.tsx:98-144 | the shown rows ascend strictly by station |
| StatCharts.StatsMember | frontend/src/components/StatCharts.tsx:98-144 | membership of a row, station by station |
| StatCharts.RowsMember | frontend/src/components/StatCharts.tsx:98-144 | membership in the filtered rows over any station list |
| StatCharts.RowAt | frontend/src/components/StatCharts.tsx:98 | the k-th row is the k-th station's row |
| StatCharts.BoxPlotSegments | frontend/src/components/StatCharts.tsx:148-169 | every box starts at the minimum, has four non-negative segments, and the segments add up to max − min |
| StatCharts.BoxPlotData | frontend/src/components/StatCharts.tsx:148-169 | specification of `boxPlotData`: one box per statistics row; stated by StatCharts.BoxPlotSegments |
| StatCharts.SortedUnique | frontend/src/components/StatCharts.tsx:115 | two ascending arrangements of the same readings are identical |
| StatCharts.SortedHeads | frontend/src/components/StatCharts.tsx:115 | two ascending arrangements of the same readings start alike |
| StatCharts.StationStatQuartiles | frontend/src/components/StatCharts.tsx:126-128 | q1, the median and q3 are read at indices floor(n/4), the middle and floor(3n/4) of the sorted copy, without interpolation |
| StatCharts.OrderStatisticsIgnoreOrder | frontend/src/components/StatCharts.tsx:115-128 | reordering a station's readings changes none of count, min, q1, median, q3, max |
| StatCharts.VarianceExample | frontend/src/components/StatCharts.tsx:119-121 | 2, 4, 4, 4, 5, 5, 7, 9 have mean 5 and population variance 4 |
| StatCharts.SortEight | frontend/src/components/StatCharts.tsx:115 | any arrangement of 1..8 sorts to 1, 2, ..., 8 |
| StatCharts.FourDecimals | frontend/src/components/StatCharts.tsx:132-138 | a value with at most four decimals survives `toFixed(4)` unchanged |
| StatCharts.QuartileExample | frontend/src/components/StatCharts.tsx:124-138 | readings 1..8 in any order give min 1, q1 3, median 4.5, q3 7, max 8 |
| LineCharts.GroupsDistinct | frontend/src/components/LineCharts.tsx:68-69 | neither parameter group lists a parameter twice |
| LineCharts.AddReadings | frontend/src/components/LineCharts.tsx:116-125 | the parameter loop adds each reading of the group to its running sum and count |
| LineCharts.MeansStep | frontend/src/components/LineCharts.tsx:110-126 | one more record keeps the table of sums and counts equal to that of the records seen |
| LineCharts.MeansStepStations | frontend/src/components/LineCharts.tsx:112-114 | the table has an entry exactly for the stations seen |
| LineCharts.MeansStepCell | frontend/src/components/LineCharts.tsx:116-125 | each (station, parameter) entry holds the sum and count of that station's readings so far |
| LineCharts.SamplesStep | frontend/src/components/LineCharts.tsx:110-126 | one more record adds its reading to its own station's samples only |
| LineCharts.AddSpecAt | frontend/src/components/LineCharts.tsx:116-125 | the update touches exactly the group's parameters that hold a reading |
| LineCharts.AccumulateMeans | frontend/src/components/LineCharts.tsx:108-126 | `stationData` holds, per station seen and parameter with readings, their sum and count |
| LineCharts.CompareMeans | frontend/src/components/LineCharts.tsx:106-138 | the comparison rows as computed equal the specification |
| LineCharts.TableRowsAgree | frontend/src/components/LineCharts.tsx:129-137 | rows built from the accumulated table equal rows built from the records |
| LineCharts.TableAgrees | frontend/src/components/LineCharts.tsx:131-135 | one station's means from the table equal its means from the records |
| LineCharts.StationMeans | frontend/src/components/LineCharts.tsx:129-137 | a station's bar group: the mean of each group parameter with readings, rounded by `toFixed(2)`, and no entry for the others; stated by LineCharts.CompareDataExact and LineCharts.TableAgrees |
| LineCharts.CompareDataExact | frontend/src/components/LineCharts.tsx:106-138 | row i is the i-th sorted station; a parameter has a bar exactly when it is in the group and the station has a reading of it; the bar lies between the rounded minimum and maximum reading |
| LineCharts.CompareData | frontend/src/components/LineCharts.tsx:106-138 | specification of the comparison rows: one mean row per sorted station; stated by LineCharts.CompareDataExact |
| LineCharts.Pad2 | frontend/src/components/LineCharts.tsx:143 | `padStart(2, '0')` yields at least two characters |
| LineCharts.Pad2Digits | frontend/src/components/LineCharts.tsx:143 | hours 0-99 print as two digits, tens first |
| LineCharts.TimeKeyParts | frontend/src/components/LineCharts.tsx:143 | for hours 0-99 the key gives back the DATE text and the hour |
| LineCharts.TimeKey | frontend/src/components/LineCharts.tsx:143 | the key `${DATE} ${HH}:00`; stated by LineCharts.TimeKeyParts and LineCharts.TimeKeyOrder |
| LineCharts.TimeKeyOrder | frontend/src/components/LineCharts.tsx:143-168 | on the same date, an earlier hour sorts first |
| LineCharts.HourTextOrder | frontend/src/components/LineCharts.tsx:143 | the zero-padded hour part of the key ascends with the hour |
| LineCharts.HourTextExample | frontend/src/components/LineCharts.tsx:143 | hours 1 and 13 give the key suffixes " 01:00" and " 13:00" |
| LineCharts.TimeKeyExample | frontend/src/components/LineCharts.tsx:143-168 | records of hours 1 and 13 of 2024-01-11, whose DATE the backend writes as "2024-01-11 01:00" and "2024-01-11 13:00" (backend/app.py:187), give the keys "2024-01-11 01:00 01:00" before "2024-01-11 13:00 13:00" |
| LineCharts.KeysStep | frontend/src/components/LineCharts.tsx:142-143 | the key list grows by the key of each record in turn |
| LineCharts.WriteGroup | frontend/src/components/LineCharts.tsx:154-162 | the selected station's readings of the group are written into its bucket |
| LineCharts.AllStationsUpdate | frontend/src/components/LineCharts.tsx:149-153 | in 'all' mode a record writes its station's reading of the selected parameter, if any, and nothing else |
| LineCharts.OtherStationUpdate | frontend/src/components/LineCharts.tsx:155 | in single-station mode other stations' records leave the bucket alone |
| LineCharts.AddRecord | frontend/src/components/LineCharts.tsx:142-164 | one pass of the loop body creates the bucket and applies the record's writes |
| LineCharts.Pivot | frontend/src/components/LineCharts.tsx:140-164 | `processedData` equals the specification, and the keys come in first-seen order |
| LineCharts.PivotStep | frontend/src/components/LineCharts.tsx:142-147 | one more record applies one more update, and its key joins the order exactly when its bucket is new |
| LineCharts.BucketKeys | frontend/src/components/LineCharts.tsx:145-147 | a bucket exists exactly for each key of some record, even one that writes nothing |
| LineCharts.LastWriteWins | frontend/src/components/LineCharts.tsx:151-159 | a field holds the value of the last record of that key that writes it |
| LineCharts.Buckets | frontend/src/components/LineCharts.tsx:139-164 | specification of `processedData`: each record in turn creates its key's bucket and applies its writes; stated by LineCharts.BucketKeys, LineCharts.LastWriteWins and LineCharts.BucketFields |
| LineCharts.BucketFields | frontend/src/components/LineCharts.tsx:145-162 | every field of a bucket was written by a record of that key |
| LineCharts.TimeSeriesData | frontend/src/components/LineCharts.tsx:139-168 | the points ascend strictly by key, cover exactly the keys of the records, and each holds its bucket |
| LineCharts.SortedKeys | frontend/src/components/LineCharts.tsx:166-168 | sorting the distinct keys gives a strictly ascending list of the same keys |
| LineCharts.BuildTimeSeries | frontend/src/components/LineCharts.tsx:139-168 | the time series as computed equals the specification |
| LineCharts.SelectionOf | frontend/src/components/LineCharts.tsx:149-159 | the station selector's value 'all' writes the selected parameter under each station's name, any other value writes the group's parameters of that one station; stated by LineCharts.AllStationsUpdate, LineCharts.OtherStationUpdate and LineCharts.LinesCoverSeries |
| LineCharts.ParamData | frontend/src/components/LineCharts.tsx:105-170 | comparison mode yields the per-station means; otherwise it yields the time series for the station selector |
| LineCharts.LinesCoverSeries | frontend/src/components/LineCharts.tsx:241-253 | every field of every point has a line to draw it |
| LineCharts.WrittenFieldHasLine | frontend/src/components/LineCharts.tsx:241-253 | any field a record writes is a line key |
| LineCharts.Lines | frontend/src/components/LineCharts.tsx:241-253 | one line per station in 'all' mode, otherwise one per parameter of the group; stated by LineCharts.LinesCoverSeries and LineCharts.WrittenFieldHasLine |
| LineCharts.SurLineExample | frontend/src/components/LineCharts.tsx:41 | in 'all' mode the line of station SUR has its `STATION_COLORS` colour '#34d399' |
| DataTable.Known | frontend/src/components/DataTable.tsx:65-69 | the first loop keeps exactly the listed columns that the record has |
| DataTable.AddMissing | frontend/src/components/DataTable.tsx:72-76 | the second loop yields exactly the columns of either list |
| DataTable.OrderedColumns | frontend/src/components/DataTable.tsx:60-81 | the given column list, or else the record's known keys in workbook order followed by the rest; stated by DataTable.OrderedColumnsPermutation |
| DataTable.GetOrderedColumns | frontend/src/components/DataTable.tsx:60-81 | the two loops compute the specified column order, or the given columns |
| DataTable.KnownPass | frontend/src/components/DataTable.tsx:65-70 | the first loop of pushes yields the listed columns that the record has, in list order |
| DataTable.MissingPass | frontend/src/components/DataTable.tsx:72-77 | the second loop of pushes appends each column not yet listed, once |
| DataTable.Outside | frontend/src/components/DataTable.tsx:72-76 | the extra columns are exactly those not yet listed |
| DataTable.AddMissingAppends | frontend/src/components/DataTable.tsx:72-76 | the second loop appends the unlisted columns in record order |
| DataTable.OutsideAgrees | frontend/src/components/DataTable.tsx:72-76 | the unlisted columns depend only on which columns are listed |
| DataTable.KnownDistinct | frontend/src/components/DataTable.tsx:65-69 | the known columns have no duplicates |
| DataTable.OutsideDistinct | frontend/src/components/DataTable.tsx:72-76 | the extra columns have no duplicates |
| ChartData.DistinctSameElements | frontend/src/components/DataTable.tsx:60-81 | duplicate-free lists with the same elements are permutations |
| DataTable.OrderedColumnsPermutation | frontend/src/components/DataTable.tsx:60-81 | the ordered columns are the known columns in base order followed by the rest in record order, and are a permutation of the record's keys |
| DataTable.TotalPages | frontend/src/components/DataTable.tsx:86 | `Math.ceil(total / perPage)` is the least page count covering all rows |
| DataTable.RowsPerPage | frontend/src/components/DataTable.tsx:49 | 100 rows per page when everything is shown, otherwise `maxRows`; its pages are stated by DataTable.PageBounds and DataTable.PagesCover |
| DataTable.PageRows | frontend/src/components/DataTable.tsx:87-89 | `data.slice(startIndex, endIndex)`; stated by DataTable.PageBounds and DataTable.PagesCover |
| DataTable.EndIndex | frontend/src/components/DataTable.tsx:88 | a page never ends past the data |
| DataTable.PageBounds | frontend/src/components/DataTable.tsx:86-89 | a page shows at most perPage rows; every valid page starts inside the data; every page but the last is full |
| DataTable.PagesCover | frontend/src/components/DataTable.tsx:86-89 | the pages together, in order, are exactly the data |
| DataTable.PagesPrefix | frontend/src/components/DataTable.tsx:86-89 | the first n pages are the data up to the end of page n−1 |
| DataTable.NavigationInRange | frontend/src/components/DataTable.tsx:231-263 | previous, next, typing a page and leaving the field keep the page in range; previous and next stop at the ends; a typed page in range is taken |
| DataTable.PrevPage | frontend/src/components/DataTable.tsx:231 | `Math.max(0, p - 1)`; stated by DataTable.NavigationInRange |
| DataTable.NextPage | frontend/src/components/DataTable.tsx:263 | `Math.min(totalPages - 1, p + 1)`; stated by DataTable.NavigationInRange |
| DataTable.TypedPage | frontend/src/components/DataTable.tsx:244-249 | a typed page in 1..totalPages is taken, anything else keeps the page; stated by DataTable.NavigationInRange |
| DataTable.BlurPage | frontend/src/components/DataTable.tsx:250-257 | leaving the field resets an unreadable or non-positive page to the first and a too-large one to the last; stated by DataTable.NavigationInRange |
| DataTable.FormatValue | frontend/src/components/DataTable.tsx:131-154 | null prints "-"; text prints as itself; a reading of a listed column prints text that parses back to the reading rounded to that column's decimals, with exactly that many digits after a single point, and no point for 0 decimals |
| DataTable.FlagClassFirst | frontend/src/components/DataTable.tsx:91-128 | the colour table covers exactly the ten flags; a flag cell gets its flag colour and never a number colour; other text gets a number or the plain colour |
| DataTable.NumberClass | frontend/src/components/DataTable.tsx:110-123 | the number colour of each parameter group, plain for other columns; DataTable.FlagClassFirst and DataTable.FlagClassNotNumber state that it never equals a flag's colour |
| DataTable.FlagClassNotNumber | frontend/src/components/DataTable.tsx:94-127 | a flag's colour is never a number colour and never the plain colour |
| DataTable.CellClass | frontend/src/components/DataTable.tsx:91-128 | specification of `getCellClass`: a flag's colour first, then the number colour for readings, empty cells and numeric text, else the plain colour; stated by DataTable.FlagClassFirst |

## Left out

- The Flask endpoints, file storage and downloads are not part of this model. That covers the health, configuration, upload, validation and download routes, and `exportar_resultados`.
- `cargar_y_procesar_envista` (reading the workbook) is not part of this model. An ENVISTA sheet is given as its column headers and rows, and each row's time stamp is already parsed or absent.
- `aplicar_decimales` is not part of this model, because the validation pipeline does not call it.
- Time-series validation: the model takes a station's rows in frame order as time order, and does not parse DATE and HOUR into datetimes. The reshaped frame is sorted by station, date text and hour, so for one station this is time order.
- Reals replace floating point everywhere. `toFixed` and Python's `float()` are modelled on exact reals. Binary rounding effects, NaN and infinities, and underscores in Python float literals are left out.
- Numbers.ParseDecimal: accepts ASCII digits only. Python's `float()` also accepts other Unicode decimal digits, such as Arabic-Indic digits. The model returns None for those, so `mapear_bandera_envista` gives them IO instead of no flag.
- Sorting is modelled as one stable insertion sort for every sort. pandas' `sort_values` is not guaranteed stable, so the order of rows with equal keys may differ from pandas.
- FlagSummary.Summary: rows with equal `Cantidad` come out in the order of the validator's flag list. The source starts from `banderas_encontradas`, whose keys are in the order the flags were first found, column by column (backend/app.py:381-393). It sorts at most ten rows, which numpy sorts stably. So ties may be ordered differently, because the two sorts start from different orders.
- String order is code-point order. JavaScript's `sort()` compares UTF-16 code units and `localeCompare` follows the locale, so the order may differ for characters outside the Basic Multilingual Plane or accented names. Time keys and station codes are ASCII.
- Lower-casing covers ASCII letters only. Python's Unicode `lower()` is not modelled.
- `pd.to_numeric` on text cells is not modelled: a text cell is never a reading. The reshaping turns numeric text into numbers, so after it only flags remain as text.
- FlagSummary.CountColumn: walks a column cell by cell, where the source loops over the column's distinct values and adds each flag's count at once. The count added for each flag is the same.
- The `dtype == 'object'` tests of the summary are not modelled. Any column holding a flag text has object dtype, so the counts are unchanged.
- SummaryStats.BuildDetailedStats: the per-row sample standard deviation (`std()`, divided by n − 1) is not modelled. Square roots are platform-supplied.
- StatCharts.StationStat: `Math.sqrt` is a parameter. Beyond the rounding, nothing is stated about the standard deviation.
- FlagSummary.DetailedDistinct and SummaryStats.DetailedStatsDistinct: they require duplicate-free parameter columns. The frames the conversion builds have the fixed `COLUMNAS_BD` columns, which are duplicate-free. A pandas frame with a repeated column name is not modelled.
- SummaryStats.General: days counts distinct calendar days (SummaryStats.DistinctDays), the corrected count of the finding below. backend/app.py:420 counts the distinct DATE texts, which are 'YYYY-MM-DD HH:MM' time stamps (SummaryStats.DistinctDates), so the source reports more days whenever a day has more than one hour.
- DataTable.FormatValue: a reading of a column without a decimals entry prints through `Number.prototype.toString`, given as a parameter. Nothing is stated about that text.
- DataTable.FormatValue: `toFixed` prints readings of magnitude 1e21 or more in exponent notation. The model always prints the fixed-point digits.
- Reshape.Fills and Config.MapParamLands: only the seventeen parameter columns are writable. The source's test `parametro_base in COLUMNAS_BD` (backend/app.py:118-121, 205) also accepts STATION, DATE and HOUR. A workbook column such as "Atemajac_HOUR" would then overwrite the row's HOUR with its number or flag. The model's records keep STATION, DATE and HOUR as the time stamp and station code gave them, so such columns are ignored. They never count towards `datos_validos`.
- DataTable.CellClass: `isNaN(Number(value))` for text is a parameter, so which non-flag texts count as numeric is not modelled.
- DataTable.CellClass: a key missing from a record reads as an empty cell and gets the number colour. In the source, `Number(undefined)` is NaN, so such a cell gets 'text-slate-700'. The backend's records carry every column, so this does not arise in the application.
- StatCharts.ZeroStat: the source's placeholder has no `errorNeg` or `errorPos`, and the model sets them to 0. The count > 0 filter drops the placeholder, so nothing displayed differs.
- DataTable.TotalPages requires a positive page size. With `maxRows` of 0 the source divides by zero.
- The table is given the keys of `data[0]` as a list. JavaScript's own-key order (integer-like keys first) is not modelled.
- Object-prototype keys (`flagColors['constructor']` and the like) are not modelled. A text equal to such a name would get a function where the code expects a class name.
- A record whose station is named `time` would collide with the `time` field of a time-series point. This is not modelled.
- Header classes, legends and the page layout are not modelled. The line colours are modelled: LineCharts.Lines takes them from the full station and parameter colour tables, with '#888888' for a name that is not in a table. Nothing is proved about them beyond LineCharts.SurLineExample.
- `parseInt` is a parameter, given as an optional integer.

Two behaviours of `mapear_bandera_envista` (backend/app.py:128-146) that the model keeps as written:

- An ENVISTA text that matches no entry and does not parse as a float gets the flag IO (backend/app.py:142-146), not a missing value.
- The entries are searched inside the text, and no entry is a flag code itself, so a raw "IR" gets IO (backend/app.py:138-146), not IR.

## Findings

| source | as written | input that shows it | evidently intended | confidence | as-written member | corrected member |
|---|---|---|---|---|---|---|
| backend/app.py:420 | "Días procesados" counts the distinct DATE values. DATE is written as 'YYYY-MM-DD HH:MM' (backend/app.py:187), so it counts distinct time stamps | two records of station ATM at "2024-01-01 00:00" and "2024-01-01 01:00" report 2 days | count distinct calendar days (the first ten characters of DATE), giving 1 | not executed | SummaryStats.TwoHoursCountAsTwoDays | SummaryStats.OneDay |
