# Overheating-risk pipeline of the indoor-temperature dashboard

This project models, in Dafny, the non-presentational core of a dashboard that
warns about overheating in dwellings. The core has three parts:

* **Long-term risk** (`src/utils/loader.py`). Each hourly row of simulated
  indoor air temperature gets two flags. The day flag is 1 when the
  temperature is at or above a threshold. The night flag is 1 or 0 inside
  the night window and NaN outside it. The rows are then grouped per
  (area, year) into `sum`/`count` pairs and turned into percentages. A year
  is marked at risk when its percentage is strictly above a threshold. The
  marks are collapsed per area into "percentage of years at risk", and that
  value is rendered as `"None"` or `"1 out of N summers"`. The module also
  holds the dummy-data replicators (three copies tagged with area ids 0..2)
  and the May to September filter of the long-term data.
* **Short-term horizon table** (`src/pages/shortterm_page.py`). Each
  forecast sample is flagged when its temperature is strictly above the
  threshold. Then, per area and for each horizon of 1, 7, 14, 30, 60, 90 and
  180 days, the table holds the number of flagged samples strictly before
  "first timestamp + horizon". The cell is NaN when that instant is past the
  area's last timestamp.
* **Area label codec** (`src/utils/common_functions.py`). An id is shown as
  `"<area type>  <id>"`, with two spaces. It is read back by splitting on
  `"<area type> "`, with one space, and calling `int()` on the second piece.

Modules, one per concern:

| file | module | models |
|---|---|---|
| `cells.dfy` | `Cells` | NaN-able cells, `Option`, `Result` |
| `decimal.dfy` | `Decimal` | Python's `str(int)` and `int(text)` on ASCII text |
| `area_label.dfy` | `AreaLabel` | `get_area_str`, `get_list_area_str`, `get_area_id` |
| `frames.dfy` | `Frames` | frame rows, the two replicators, the summer filter |
| `classifier.dfy` | `Classifier` | `identify_overheating_hours` |
| `yearly.dfy` | `Yearly` | `get_overheating_hours_per_year`, `get_overheating_perct_per_year`, `get_ratio_groupby_col` |
| `risk.dfy` | `Risk` | `get_overheating_summary_results`, `get_overheating_table`, `transform_overheating_table_from_float_to_text` |
| `horizon.dfy` | `Horizon` | `assess_overheating_hours`, `get_overheating_df` |

Modelling choices:

* The thresholds, the night hours and `AREA_TYPE` are read from environment
  variables in the source. Here they are parameters (`Classifier.Params`,
  `Risk.RiskParams`, the `areaType` argument).
* A NaN cell is `Cells.Cell.NaN`. A pandas group-by result is a `map` keyed
  by the group key. The result of `get_overheating_df` is a `map` from the
  area label to the row of cells, in the column order of `Horizon.Intervals`.
* `identify_overheating_hours` changes its frame in place. It is a method
  over an `array` of rows whose four loops mirror its five column
  assignments (the two that set both flags to 0 share the first loop). The replicators and the inner and outer loops of
  `get_overheating_df` are methods with loops. Everything else is a function.
* Long-term timestamps carry the calendar fields the code reads (`year`,
  `month`, `hour`). Short-term timestamps are whole hours on one time line,
  so one day is 24.

Two behaviours of the code are worth stating outright:

* The long-term day flag is inclusive: an hour is flagged when its
  temperature is at or above the threshold (`src/utils/loader.py:247-248`),
  like the night flag. The short-term flag of `assess_overheating_hours` is
  strict (`src/pages/shortterm_page.py:158`).
* The night count of a group equals its day count whenever every hour of the
  group lies inside the night window, for example when the start hour is at
  most the end hour plus one. So `Yearly.HoursPerYearBounds` states `<=`.

## Model

| member | source | states |
|---|---|---|
| `Decimal.IntToString` | src/utils/common_functions.py:39 | the decimal form of an id is non-empty, has no whitespace, and starts with `-` exactly for negative ids |
| `Decimal.ParseIntOfIntToString` | src/utils/common_functions.py:14-39 | `int(str(x)) == x` for every integer (no digit limit is modelled; see "## Left out") |
| `Decimal.ParseIntIgnoresLeadingSpace` | src/utils/common_functions.py:14 | a leading space does not change what `int()` reads |
| `Decimal.IntToStringInjective` | src/utils/common_functions.py:39 | distinct integers have distinct decimal forms |
| `Decimal.ParseInt` | src/utils/common_functions.py:14 | `int()` succeeds exactly when the text, stripped of tab, line feed, vertical tab, form feed, carriage return and space, is an optional sign followed by digits with single underscores between digits; a negative result has a `-` sign |
| `Decimal.ParseIntOfLiteral` | src/utils/common_functions.py:14 | every optionally signed run of digits (leading zeros and single underscores allowed) is read as its value, negated after `-` |
| `Decimal.ParseIntIgnoresSurroundingSpace` | src/utils/common_functions.py:14 | any run of whitespace before and after a text does not change what `int()` reads |
| `Decimal.ParseIntRejectsSeparator` | src/utils/common_functions.py:14 | an information separator (0x1C) before a number is not skipped: `int()` rejects the text |
| `AreaLabel.AreaStr` | src/utils/common_functions.py:29-39 | a label is the area type, then two spaces, then the id's decimal form |
| `AreaLabel.ListAreaStr` | src/utils/common_functions.py:17-26 | same length and order as the ids; element k is the label of id k |
| `AreaLabel.Find` | src/utils/common_functions.py:14 | the first occurrence of the separator at or after a position, or none |
| `AreaLabel.SecondPiece` | src/utils/common_functions.py:14 | `split(sep)[1]` is missing (IndexError) exactly when the separator does not occur |
| `AreaLabel.SecondPieceBetween` | src/utils/common_functions.py:14 | `split(sep)[1]` is the text from the end of the first occurrence up to the next occurrence, or to the end of the text |
| `AreaLabel.AreaId` | src/utils/common_functions.py:4-14 | fails with IndexError exactly when `"<area type> "` does not occur in the value |
| `AreaLabel.AreaIdParsesSecondPiece` | src/utils/common_functions.py:4-14 | when `"<area type> "` occurs, the result is the integer `int()` reads from the piece between its first occurrence and the next (or the end), and ValueError exactly when `int()` rejects that piece |
| `AreaLabel.AreaIdRejectsSeparator` | src/utils/common_functions.py:4-14 | `"<area type> \x1c<id>"` fails with ValueError |
| `AreaLabel.AreaIdOfAreaStr` | src/utils/common_functions.py:4-39 | round trip: reading back the label of an id gives the id, for every non-empty area type |
| `AreaLabel.SecondPieceAfterSeparator` | src/utils/common_functions.py:14 | the second piece of the split is everything after the separator when no later space could end another occurrence |
| `AreaLabel.AreaIdEmptyTypeFails` | src/utils/common_functions.py:14 | with an empty area type, text starting with two spaces fails with ValueError |
| `AreaLabel.AreaIdOfAreaStrEmptyType` | src/utils/common_functions.py:4-39 | so the round trip fails with ValueError for an empty area type |
| `AreaLabel.AreaStrDistinct` | src/utils/common_functions.py:39 | distinct ids get distinct labels |
| `AreaLabel.ListAreaStrRoundTrip` | src/utils/common_functions.py:14-26 | every label of the list reads back as its id |
| `Frames.SimulationCopy` | src/utils/loader.py:47-53 | block i keeps every row's time and other columns, sets area id i and multiplies only the predicted temperature by i |
| `Frames.Scale` | src/utils/loader.py:186 | every numeric column multiplied by the factor |
| `Frames.ForecastCopy` | src/utils/loader.py:184-187 | block i keeps every row's time, multiplies every numeric column by i and sets area id i |
| `Frames.DuplicatesDummySimulationData` | src/utils/loader.py:37-54 | three times the rows; block i is `SimulationCopy(org, i)` for i = 0, 1, 2 |
| `Frames.DuplicatesDummyForecastedData` | src/utils/loader.py:173-189 | three times the rows; block i is `ForecastCopy(org, i)` for i = 0, 1, 2 |
| `Frames.Concat` | src/utils/loader.py:54 | a row is in the concatenation exactly when it is a row of one of the frames |
| `Frames.ConcatSnoc` | src/utils/loader.py:54 | concatenating one more frame appends its rows after all the others, in order |
| `Frames.ConcatOfThree` | src/utils/loader.py:54 | concatenating three frames places them one after another |
| `Frames.SummerMonths` | src/utils/loader.py:227-228 | only rows from May to September are kept, and every summer row of the input is kept |
| `Frames.SummerMonthsCounts` | src/utils/loader.py:227-228 | each row from May to September is kept as many times as it occurs in the input, and every other row is dropped |
| `Frames.SummerMonthsOfOne` | src/utils/loader.py:227-228 | a single row is kept exactly when its month is May to September |
| `Frames.SummerMonthsSnoc` | src/utils/loader.py:227-228 | a row appended to the frame is appended to the result exactly when its month is May to September |
| `Frames.SummerMonthsAppend` | src/utils/loader.py:227-228 | the filter of a concatenation is the concatenation of the filters, so the kept rows stay in frame order |
| `Frames.SummerMonthsIdempotent` | src/utils/loader.py:227-228 | filtering twice is filtering once |
| `Classifier.ClassifyRecord` | src/utils/loader.py:245-256 | day flag 0/1, 1 iff temperature >= threshold; night flag NaN iff outside the window, 1 iff in the window and >= threshold, else 0; night 1 implies day 1 |
| `Classifier.Classify` | src/utils/loader.py:233-257 | same number of rows, same order, each row classified by `ClassifyRecord` |
| `Classifier.IdentifyOverheatingHours` | src/utils/loader.py:233-257 | the array after the five in-place assignments (the two at lines 250-251 share the first loop) equals the classified frame of its original rows |
| `Classifier.NonWrappingWindowCoversDay` | src/utils/loader.py:245-246 | when start <= end + 1 no night flag is NaN, whatever the hour |
| `Classifier.WrappingWindowExcludesDaytime` | src/utils/loader.py:245-253 | an hour strictly between end and start gets a NaN night flag |
| `Yearly.SumAndCount` | src/utils/loader.py:270-275 | the count of a column is at most its length (NaN cells skipped) |
| `Yearly.OverheatingHoursPerYear` | src/utils/loader.py:260-288 | one row per (area, year) of the input; day sum/count = rows of the group at or above threshold / rows of the group; night sum/count = in-window rows at or above threshold / in-window rows |
| `Yearly.GroupAggregates` | src/utils/loader.py:260-288 | for each (area, year): day sum/count = rows at or above threshold / rows of the group; night sum/count = in-window rows at or above threshold / in-window rows |
| `Yearly.HoursPerYearBounds` | src/utils/loader.py:260-288 | day count = group size >= 1; night count = in-window rows <= day count; each sum <= its count; night sum <= day sum |
| `Yearly.Ratio` | src/utils/loader.py:398-413 | NaN iff the count is 0, otherwise the value times the count is the sum |
| `Yearly.OverheatingPerctPerYear` | src/utils/loader.py:291-309 | one percentage row per (area, year) of the input; the day percentage is NaN iff the group has no row, the night one iff it has no in-window row |
| `Yearly.PerctOfHours` | src/utils/loader.py:291-309 | one percentage row per (area, year) of the hours table |
| `Yearly.Percent` | src/utils/loader.py:301-308 | the `* 100` of a group's ratio is NaN exactly when the group's count is 0 (its value is given by `PercentBounds`) |
| `Yearly.PercentBounds` | src/utils/loader.py:301-308 | a percentage is NaN iff its count is 0, else 100 * sum / count within [0, 100] |
| `Yearly.PerctPerYearBounds` | src/utils/loader.py:291-309 | the day percentage of every group is defined, 100 * sum / count in [0, 100]; the night one is NaN iff the group has no in-window row, else 100 * sum / count in [0, 100] |
| `Risk.RiskFlag` | src/utils/loader.py:327-336 | 0 or 1; 1 iff the percentage is defined and strictly above the threshold |
| `Risk.OverheatingSummaryResults` | src/utils/loader.py:312-337 | one pair of marks per (area, year); each 1 iff its own percentage is strictly above its own threshold |
| `Risk.AreaAggregate` | src/utils/loader.py:350-355 | the sum of an area's marks is at most their count, and the count is the area's number of years |
| `Risk.OverheatingTable` | src/utils/loader.py:340-369 | one row per area id of the yearly table |
| `Risk.YearsOfNonEmpty` | src/utils/loader.py:350-359 | every area of the table has at least one year, so no count is 0 |
| `Risk.AreaRiskOf` | src/utils/loader.py:350-368 | a risk column is defined and is 100 * marked years / years; 0 iff no year marked, 100 iff every year marked |
| `Risk.OverheatingTableRisks` | src/utils/loader.py:340-369 | both risks of an area are defined, 100 * marked years / years in [0, 100]; 0 iff none marked, 100 iff all marked |
| `Risk.OverheatingTableAreas` | src/utils/loader.py:260-369 | the long-term table has exactly one row per area id of the input frame |
| `Risk.FlaggedYearsAreAboveThreshold` | src/utils/loader.py:327-336 | the marked years of an area are exactly its years whose percentage is above the threshold |
| `Risk.RoundHalfEven` | src/utils/loader.py:387 | the `.0f` rounding: within 1/2 of the value, ties to the even integer |
| `Risk.RiskOverheatingText` | src/utils/loader.py:383-387 | `"None"` iff the fraction is 0 |
| `Risk.RiskText` | src/utils/loader.py:389-394 | `"None"` iff the risk cell is the number 0 |
| `Risk.TransformOverheatingTableFromFloatToText` | src/utils/loader.py:372-395 | the text table has the same areas as the risk table |
| `Risk.TextTableOfYears` | src/utils/loader.py:340-395 | for every area, each text column is `"None"` iff none of its years is marked, otherwise `"1 out of N summers"` with N = round(years / marked years) |
| `Risk.RoundedReciprocalBounds` | src/utils/loader.py:387 | for 0 < k <= n, `n / k` rounds to a whole number between 1 and n |
| `Risk.RiskTextOfYears` | src/utils/loader.py:383-394 | with k of n years marked: `"None"` when k = 0, otherwise `"1 out of N summers"` with N = round(n / k), 1 <= N <= n |
| `Risk.RiskTextOfTwentyPercent` | src/utils/loader.py:387-394 | a 20% risk reads `"1 out of 5 summers"` |
| `Risk.RoundHalfEvenOfTwoAndAHalf` | src/utils/loader.py:387 | 2.5 rounds to 2, not 3 |
| `Horizon.AssessOverheatingHours` | src/pages/shortterm_page.py:148-159 | same length; each flag 0/1, 1 iff the value is strictly above the threshold |
| `Horizon.ColumnLabel` | src/pages/shortterm_page.py:139-142 | a column name is `"Next "`, the number of days, `" day(s)"` |
| `Horizon.ColumnLabels` | src/pages/shortterm_page.py:125-142 | one column name per horizon, in horizon order |
| `Horizon.ColumnLabelsDistinct` | src/pages/shortterm_page.py:125-142 | the column names are pairwise distinct |
| `Horizon.Unique` | src/pages/shortterm_page.py:126-127 | the distinct area ids, each once, no other values |
| `Horizon.AreaSamples` | src/pages/shortterm_page.py:129 | exactly the samples of the area, each as many times as it occurs in the input |
| `Horizon.MinTime` | src/pages/shortterm_page.py:130-131 | the earliest timestamp of the area |
| `Horizon.MaxTime` | src/pages/shortterm_page.py:130-132 | the latest timestamp of the area |
| `Horizon.FlagSumBefore` | src/pages/shortterm_page.py:133-134 | with 0/1 flags, the last cumulative sum before a horizon is the number of flagged samples strictly before it |
| `Horizon.HorizonEntry` | src/pages/shortterm_page.py:137-142 | a cell is NaN iff first + days is past the last timestamp; otherwise, with 0/1 flags, it is the number of flagged samples strictly before the horizon |
| `Horizon.HorizonRow` | src/pages/shortterm_page.py:136-142 | one cell per horizon, in horizon order |
| `Horizon.HorizonCellsOf` | src/pages/shortterm_page.py:136-142 | the inner loop fills exactly the row of horizon cells |
| `Horizon.GetOverheatingDf` | src/pages/shortterm_page.py:116-145 | every key is the label of an area id of the input; every area id has its label as a key, holding that area's row |
| `Horizon.FlagSumBeforeCounts` | src/pages/shortterm_page.py:133-142 | with 0/1 flags, the cumulative sum before a horizon is the number of flagged samples before it, at most the samples before it, and does not decrease with the horizon |
| `Horizon.SelectionNonEmpty` | src/pages/shortterm_page.py:131-142 | the selection whose last value is read always holds the first sample |
| `Horizon.HorizonEntryMeaning` | src/pages/shortterm_page.py:131-142 | a cell is NaN iff first + days is past the last timestamp (equality is defined); a defined cell counts the flagged samples strictly before the horizon, between 0 and the samples before it |
| `Horizon.HorizonRowShape` | src/pages/shortterm_page.py:125-142 | defined cells form a prefix of the row, and along them the counts never decrease |
| `Horizon.ThreeSampleExample` | src/pages/shortterm_page.py:116-145 | samples at hours 0, 24, 30 give 1 for one day and NaN for seven days |

## Left out

- The Dash, Plotly and AG-Grid code (layouts, tables, figures, callbacks, `src/app.py`, `src/components/*`, the home and text pages) is user-interface glue.
- Reading CSV files and environment variables is I/O. The values it yields are parameters of the model.
- `simulation_data_prep` and `simulation_data_meta` wrap an external library that is not part of this model.
- `get_dummy_forecasted_data` builds standard-deviation bands, which is floating-point statistics.
- `src/utils/loss_functions.py` (MAE, RMSE, MSE) is floating-point numerics with no discrete contract.
- Temperatures and percentages are exact reals. Binary floating-point rounding is not modelled. A NaN predicted temperature cannot be represented: in the source it compares false with the threshold (`src/utils/loader.py:247-248`), so its row gets day flag 0 and, inside the night window, night flag 0, and it still counts toward its group's count.
- Decimal.IntToString: Python interpreters from 3.11 (and 3.10.7, 3.9.14) refuse to convert an integer of more than 4300 decimal digits to text (`sys.int_info.default_max_str_digits`) and raise ValueError. This limit is not modelled: the model formats every integer.
- Decimal.ParseInt: the same limit makes `int()` raise ValueError on more than 4300 digits. The model parses digit runs of any length.
- Decimal.ParseIntOfIntToString: the round trip is proved for every integer. Under the digit limit it holds only for integers of at most 4300 digits, since larger ones raise ValueError already in `str()`.
- Risk.RiskOverheatingText: formats `round(1/x)` of the exact fraction with ties to even. It does not model the binary float that Python rounds, so a quotient that is a tie in exact arithmetic may print differently. For `x == 0` Python's `1/x` would raise ZeroDivisionError; that cannot happen because 0 takes the `"None"` branch (`src/utils/loader.py:384-385`). For `1/x` in [-0.5, 0) Python's `.0f` prints `"-0"` where the model prints `"0"`; that cannot happen either, because a risk is NaN or lies in [0, 100].
- Yearly.OverheatingHoursPerYear: pandas returns the groups sorted by key. The model keeps them in a map, so row order is not modelled.
- Risk.OverheatingTable: the same holds for the per-area table, whose row order is not modelled.
- Horizon.GetOverheatingDf: `sort_index` is not modelled as a reordering. The first and last timestamps are the minimum and maximum, and the last cumulative value before a horizon is the sum of the flags before it, which does not depend on the order. The row order of the result (areas in first-appearance order) is not modelled because the result is a map. Index alignment between frames with duplicate timestamps is not modelled.
- Classifier.IdentifyOverheatingHours: adding the two flag columns to the frame is modelled as setting two fields of every row record. Other references to the same frame are not modelled.
- Frames.Timestamp: the calendar fields (year, month, hour) are independent fields. Their consistency with one real calendar date is not modelled. The field `epochHours` stands for the index value itself; no operation reads it, but it keeps two rows at different instants distinct rows, which the row-level statements about the month filter and the concatenation rely on.
- Decimal.ParseInt: Python's `int()` also accepts non-ASCII digits and non-ASCII whitespace around the number. The model rejects every non-ASCII character.
- The `icecream` debug prints have no effect on results.
