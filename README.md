# S&P 500 returns pipeline: a Dafny model

This project models the table logic of a small ETL pipeline over S&P 500 price data. The pipeline is written in Python with the polars dataframe library and has three stages.

1. **Preprocessing** (`preprocess_stock_data.py`).
   - Each per-ticker price table is read. Empty tables are skipped.
   - Every row is stamped with the file's ticker, and the table is validated. Invalid tables are skipped.
   - The company list is projected to `Ticker`, `Sector` and `Sub-Industry`.
   - Each kept table is left-joined with the company list on `Ticker`, giving one "master" file per table.
2. **Aggregation** (`aggregate_data.py`).
   - Each master row gets a `Daily Return` (percentage change of `Close` within its ticker, 0 for a ticker's first row) and a `Year`.
   - The daily returns are compounded per `(Year, category)` group. The category is `Sector` or `Sub-Industry`.
   - Groups without a category are dropped, and the rest are sorted by `(Year, category)`.
3. **Charts** (`create_plots.py`, data side only). The model computes:
   - the top and bottom `k` sub-industries by average compounded return, and the rows kept for them;
   - the bars of the ten-year total-return chart (top 5 then bottom 5);
   - the bars and reference line of the average-return chart;
   - one year's bars;
   - the wrapped bar labels.

Tables are modelled as follows.

- **Preprocessing stage.** Tables are generic: an ordered list of column names and rows that map each column to an optional cell (`Option<Value>`). This keeps extra columns and nulls in any column visible.
- **Later stages.** Rows are typed records.
- **Numbers.** Prices and returns are exact `real`s.
- **Dates.** Dates are `(year, month, day)` triples, ordered lexicographically.
- **Imperative loops.** The two loops of the preprocessing stage (`load_tickers` and the loop of `join_and_save`) are methods with loop invariants. Each is proved equal to a recursive specification function, and that function's properties are proved as lemmas.
- **Pure code.** The expression-only dataframe chains are functions with lemmas.

Modules:

- `tables.dfy`: options, results, dates, cell values and their order, including lexicographic string order.
- `sequences.dfy`: selection by flags (`filter`), mapping, distinctness.
- `compounding.dfy`: products of growth factors, cumulative products, means and powers.
- `grouping.dfy`: `group_by` with keys in first-appearance order.
- `sorting.dfy`: sorting by a total preorder.
- `preprocess.dfy`, `aggregate.dfy`, `plots.dfy`: the three stages.

### Notes on the computation

- **Compounded return.** The code (aggregate_data.py:23-25) takes the product of `1 + Daily Return` over every row of the `(Year, category)` group, across all tickers in it, with no per-date averaging. `CompoundedYearlyReturnsMember` states that each yearly value is `Compound` of all the group's daily returns.
- **Sort order.** The yearly table is sorted, so the model's output is ordered by `(Year, category)`. Because the sort is by unique keys, `CompoundedYearlyReturnsPermutation` shows that the result does not depend on the order of the input rows.

## Model

| member | source | states |
|---|---|---|
| Preprocess.Validate | preprocess_stock_data.py:62-68 | The checks run in order: required columns present (others allowed), ticker column non-empty, dates ascending, no null cell. A table is rejected with the reason of the first failing check: each reason is given exactly when the checks before it pass and its own fails. It passes exactly when all four hold. |
| Preprocess.NUniquePositive | preprocess_stock_data.py:64 | `n_unique() >= 1` (null counting as a value) holds exactly when the column has at least one cell. |
| Preprocess.NullCountZero | preprocess_stock_data.py:67-68 | The summed per-column null count is zero exactly when no cell of those columns is null. |
| Preprocess.DateOrderRejected | preprocess_stock_data.py:65 | A table whose date is smaller than the previous row's date fails with the date-order reason. |
| Preprocess.WithLiteral | preprocess_stock_data.py:48 | Adding a literal column sets it in every row (appended, or replaced if present), keeps the row count, and leaves every other cell unchanged. |
| Preprocess.Stamped | preprocess_stock_data.py:35-48 | Every row of a stamped table carries the file stem as its ticker, and the row count is kept. |
| Preprocess.LoadTickers | preprocess_stock_data.py:31-59 | The loop returns exactly the loaded tables of the files, in file order. |
| Preprocess.LoadedFramesAsSelect | preprocess_stock_data.py:44-56 | The loaded tables are the stamped tables filtered by "not empty and valid". |
| Preprocess.LoadedFramesSelect | preprocess_stock_data.py:34-56 | The loaded tables are the stamped tables of exactly the accepted files, in ascending file order. |
| Preprocess.LoadedFramesValid | preprocess_stock_data.py:44-56 | Every loaded table is non-empty, passes validation, and carries one file's stem in every ticker cell. |
| Preprocess.CompanyInfo | preprocess_stock_data.py:71-81 | The projection fails exactly when one of `Symbol`, `GICS Sector`, `GICS Sub-Industry` is missing. Otherwise it has columns `Ticker`, `Sector`, `Sub-Industry`, one row per company, with each cell copied from its source column. |
| Preprocess.Matches | preprocess_stock_data.py:23 | The matches of a key are right rows with that key, and every right row with a non-null key equal to it is among them. A null key matches nothing. |
| Preprocess.MatchesCount | preprocess_stock_data.py:23 | A right row occurs among the matches of a non-null key exactly as often as it occurs in the right table when its key cell equals the key, and otherwise not at all. |
| Preprocess.LeftJoin | preprocess_stock_data.py:23 | The join fails exactly when the key is missing on a side or a result column name still collides after the `_right` suffix. Otherwise its columns are the left columns followed by the right's other columns (renamed), and it has at least as many rows as the left. |
| Preprocess.LeftJoinKeepsRows | preprocess_stock_data.py:23 | Every left row's cells appear unchanged in some result row. |
| Preprocess.LeftJoinOneMatch | preprocess_stock_data.py:23 | When no two right rows share a non-null key of a left row, the result has exactly the left rows in order, with their cells kept. A row whose key is null, or that no right row has, gets nulls in the right columns. A row whose key right row `p` has gets `p`'s cells. |
| Preprocess.JoinAll | preprocess_stock_data.py:21-28 | Without an error, the loop writes one file per table. |
| Preprocess.SaveAll | preprocess_stock_data.py:21-28 | The loop writes exactly the files `JoinAll` specifies and ends with its error. |
| Preprocess.JoinAndSave | preprocess_stock_data.py:9-28 | Loads the tables, projects the company list (its failure ends the run with nothing written), and writes what `JoinAll` specifies for the loaded tables. |
| Preprocess.JoinAllStopsAtFirstError | preprocess_stock_data.py:21-28 | The run ends without error exactly when every join succeeds. File `j` is table `j` joined, named after its first ticker. On error, the join of the first unwritten table failed with that error. |
| Preprocess.JoinPriceFrame | preprocess_stock_data.py:23 | A stamped price table always joins with the company list, gaining exactly `Sector` and `Sub-Industry`. |
| Preprocess.JoinAndSavePriceFiles | preprocess_stock_data.py:9-28 | For price files and a well-formed company list, no join fails. There is one master file per loaded table, named after an accepted file's stem, with `Sector` and `Sub-Industry` appended. |
| Aggregate.AddColumns | aggregate_data.py:35-42 | The row count, row order and every existing cell are kept. `Year` is the calendar year of `Date`. |
| Aggregate.LastIndexOfSpec | aggregate_data.py:37 | The reference search finds the last row of a ticker, and finds none only when the ticker has no row. |
| Aggregate.LastClosesIndex | aggregate_data.py:36-38 | The remembered close of a ticker is its last row's close. |
| Aggregate.PctChangeOverFrom | aggregate_data.py:36-38 | The one-pass percentage change, started at any row with the closes remembered from the rows before it, gives each later row its reference return. |
| Aggregate.AddColumnsReturns | aggregate_data.py:36-38 | Each daily return equals the reference return of its row. |
| Aggregate.DailyReturnOfRow | aggregate_data.py:36-38 | A ticker's first row gets 0 (the null filled). A later row gets `(close - prev) / prev`, where `prev` is the close of the nearest earlier row of the same ticker. |
| Aggregate.GroupCompound | aggregate_data.py:24-25 | `(1 + r).cum_prod().last() - 1` of a group is null for no rows, and otherwise the product of the growth factors minus one. |
| Aggregate.AggregatedKeys | aggregate_data.py:23 | The aggregated groups have pairwise distinct keys. |
| Aggregate.AggregatedMember | aggregate_data.py:23-25 | An aggregated row is exactly a key some input row has, paired with the compounded return of that key's daily returns. |
| Aggregate.DropNullsMembers | aggregate_data.py:26 | The rows kept by `drop_nulls` are exactly the aggregated rows with a category and a compounded return. |
| Aggregate.CompoundedYearlyReturns | aggregate_data.py:20-32 | The output is a reordering of the groups kept by `drop_nulls`. |
| Aggregate.CompoundedYearlyReturnsAscending | aggregate_data.py:26 | The output is strictly ascending by `(Year, category)`, so there is one row per key. |
| Aggregate.CompoundedYearlyReturnsMember | aggregate_data.py:23-26 | A yearly row is present exactly when some input row has that year and (non-null) category, and its value is the compounded return of all that group's daily returns. |
| Aggregate.StrictlyAscendingUnique | aggregate_data.py:26 | Two strictly ascending tables with the same rows are equal. |
| Aggregate.CompoundedYearlyReturnsPermutation | aggregate_data.py:20-32 | Reordering the input rows does not change the yearly table. |
| Compounding.LastOfCumProd | aggregate_data.py:24 | The last cumulative product is the full product, or null for an empty sequence. |
| Compounding.ProductPermutation | aggregate_data.py:24 | A product does not depend on the order of its factors. |
| Compounding.CompoundPermutation | aggregate_data.py:24-25 | A compounded return does not depend on the order of the returns. |
| Compounding.CompoundExample | aggregate_data.py:24-29 | Returns of +10% and -5% compound to +4.5%. |
| Compounding.PowIsCompounding | create_plots.py:32 | `(1 + r) ** n - 1` is the compounded return of `n` equal returns `r`. |
| Compounding.MeanPermutation | create_plots.py:112 | A mean does not depend on the order of its values. |
| Grouping.Keys | aggregate_data.py:23 | The group keys are distinct, include every row's key, and each belongs to some row. |
| Grouping.ValuesOfNonEmpty | aggregate_data.py:23 | A key's group has values exactly when some row has that key. |
| Grouping.ValuesOfPermutation | aggregate_data.py:23 | Regrouping a permutation of the rows gives each key the same values, possibly reordered. |
| Sorting.SortBy | aggregate_data.py:26 | Sorting gives a permutation of its input, ordered by the comparison. |
| Sorting.SortedHead | create_plots.py:35-36 | The first `m` sorted elements come from the input, and each is ordered before every element they leave out. |
| Tables.StrLtTotal | aggregate_data.py:26 | Lexicographic string order is total, so the category sort is well defined. |
| Plots.GroupScoresSpec | create_plots.py:24-29 | Grouping by category gives one score per category of the table (no category twice). Each score aggregates that category's non-empty list of compounded returns. |
| Plots.MeanOfSpec | create_plots.py:27 | The average of a category of the table is the mean of its compounded returns. |
| Plots.TopK | create_plots.py:35 | `top_k` picks `min(k, n)` rows, and none is below a row it leaves out. |
| Plots.BottomK | create_plots.py:36 | `bottom_k` picks `min(k, n)` rows, and none is above a row it leaves out. |
| Plots.ExtremeRanks | create_plots.py:35-36 | A category outside the top (bottom) choice scores no higher (no lower) than each chosen one. |
| Plots.ExtremeAll | create_plots.py:35-36 | With at most `k` rows, the choice is all of them. |
| Plots.ChosenOccurs | create_plots.py:35-39 | Every chosen sub-industry occurs in the table. |
| Plots.ChosenRanks | create_plots.py:24-36 | A sub-industry in the top `k` has a mean at least that of every sub-industry left out of the top `k`. One in the bottom `k` has a mean at most that of every sub-industry left out of the bottom `k`. |
| Plots.FilterTopBotRows | create_plots.py:31-39 | The output is a subsequence of the input in order, keeping exactly the rows of the chosen sub-industries. Each kept row carries `Total Return` equal to ten years of compounding its yearly return. |
| Plots.FilterTopBotKeepsAll | create_plots.py:35-39 | With at most `k` sub-industries, every row is kept (with its total return). |
| Plots.CompoundBarChartSides | create_plots.py:136-138 | The chart has `2 * min(5, n)` bars without deduplication: the five highest ten-year totals, then the five lowest. |
| Plots.CompoundBarChartHeights | create_plots.py:131-134 | Each bar is a sub-industry of the table whose height is the product of `1 + r` over all its rows, minus one. |
| Plots.AverageBarChartSpec | create_plots.py:96-112 | The bars are the per-category means, one per category, sorted ascending. The reference line is the mean of those means in any order, and is null exactly when the table is empty. |
| Plots.YearBarsSpec | create_plots.py:65-68 | A year's bars are the rows of that year, each as often as it occurs among the rows, and no others, ascending by compounded return. |
| Plots.WrapLabelSpec | create_plots.py:70 | Wrapping a label turns each space into a line break and keeps every other character. |
| Plots.WrapLabelProperties | create_plots.py:102 | A wrapped label has no space, has a line break exactly where the label had a space or a line break, and wrapping twice changes nothing. |
| Plots.Labels | create_plots.py:142 | There is one label per bar. Each label has its bar's name's length and contains no space: every space of the name becomes a line break, and every other character is kept. |

## Left out

- **Not part of this model:**
  - downloading the data (download_data.py);
  - the driver script (entire_process.py).
- **File-system work is left out.** The model takes the tables as parameters and returns the written master files as values. This covers:
  - the file glob;
  - `read_csv` with `skip_rows`/`new_columns`;
  - directory creation, `.gitkeep` and `write_csv`;
  - output file names.
- **`master_df` and `save_agg` are not modelled.** `master_df` concatenates the master files and parses `Date` with `strptime`; `save_agg` is the driver around them. Aggregation starts from the concatenated rows with parsed dates.
- **Aggregate.AddColumns:** requires every close to be non-zero. With a zero close, polars' float division gives an infinity or NaN, and IEEE floating point is not modelled; all arithmetic is on exact reals, without rounding.
- **Progress and error printing is left out.** This includes the progress message at preprocess_stock_data.py:57. It prints `len(dfs) + 1` after the append as the left number of an `n/m` progress text, and `len(TICKER_DATA_PATH)`, the length of the directory path string, as the right number rather than the number of files.
- **Polars type handling is left out:** dtype inference and cast errors, and join errors from mismatched key types. A cell is any `Value`, and a date column read as text is ordered as text.
- **The ranked column is generic.** `filter_top_bot` and `compound_bar_chart` name the `Sub-Industry` column outright (create_plots.py:25, 131), so on a `Sector` table they would raise a missing-column error. The model ranks by the table's category column, whichever it is. The only caller runs them only when `col == "Sub-Industry"` (create_plots.py:206-208), so the two agree on every call the program makes.
- **Plots.TopK:** polars leaves the order of `top_k`/`bottom_k` results and the choice among equal scores unspecified. The model makes one choice (a stable sort), but every lemma about the selection uses only the `IsExtremeK` property, which any tie order satisfies.
- **Plots.GroupMean:** yields 0 for an empty group. That case never arises, because every category of a table has a row (`Plots.MeanOfSpec`).
- **Rendering and the remaining chart code are left out:**
  - all matplotlib rendering, colours, axes and image files;
  - `line_graph`;
  - the loop of `yearly_bar_chart` over the distinct years (one year's data is `Plots.YearBars`);
  - `create_scatter` with its Pearson correlation and NaN handling (floating-point statistics);
  - the `create_graphs` driver with its commented-out calls.
