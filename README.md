# Used-car listings dashboard: the filter-and-count pipeline

The dashboard loads a table of used-car listings. It drops the rows that miss a
required cell. It then offers three sidebar filters: vehicle condition, fuel and
a model-year range. It filters the table with them and, when any rows remain,
shows three metrics and a bar chart of vehicles per body type. This project
models that pipeline as pure Dafny functions over sequences of rows and proves
what each step promises.

- `Loading` (loading.dfy): raw rows with optional cells, the cleaned `Record`,
  and `Clean`, which drops every row missing a model year, odometer, price,
  condition or fuel. Missing `model` and `type` cells are kept.
- `Masks` (masks.dfy): the positions a boolean mask selects, and "order-preserving
  subsequence" stated as an index embedding.
- `Lexicographic` (lexicographic.dfy): Python's string order (by code point, a
  proper prefix first) and `SortedUnique`, the `sorted(column.unique())` of the
  option lists.
- `Filters` (filters.dfy): the `Selection` the widgets hand over, the
  conjunctive row test `Matches`, `Filter`, the sidebar `Controls` and their
  defaults.
- `Aggregation` (aggregation.dfy): the `type` column without missing cells,
  `ValueCounts` (one entry per distinct type, sorted by count, largest first),
  the means and the vehicle count.
- `Dashboard` (dashboard.dfy): `Render` shows results only for a non-empty view.
  `Page` is one run from raw rows to what the page shows.
- `Wrappers` (wrappers.dfy): `Option`, the stand-in for a missing cell.

Inputs that come from outside the script are parameters. The rows read from the
CSV file are a `seq<RawRecord>`. The widget state is an `Option<Selection>`:
`None` means the widgets still hold their defaults.

Three behaviours of the code worth noting:
- A year range whose lower end is above its upper end raises no error. It
  matches no row (`FilterEmptySelection`).
- The per-type table is sorted by count, largest first. It is not in
  first-occurrence order.
- Rows whose `type` is missing are left out of the per-type counts. They form no
  "unknown" bucket, because `value_counts()` drops missing values by default.

On an empty cleaned table, `int(car_data["model_year"].min())` converts NaN and
raises at app.py:41. That happens after the title, the preview and the two
multiselects (with empty options), and before the year slider. `BuildControls`
and `Page` return `None` for that case.

## Model

| member | source | states |
|---|---|---|
| `Loading.Clean` | app.py:9-11 | the cleaned table is no longer than the raw one, and each of its records, seen as a raw row, is one of the raw rows; `CleanSpec` and `CleanMembers` characterise it fully |
| `Loading.CleanSpec` | app.py:9-11 | the cleaned table is the raw table indexed by its "all five required cells present" mask: row k is the k-th complete raw row, converted, and every complete raw row is kept in order |
| `Loading.CleanMembers` | app.py:9-11 | a record is in the cleaned table iff some complete raw row converts to it |
| `Loading.CleanIdempotent` | app.py:9-11 | dropping rows with missing cells from an already clean table changes nothing |
| `Loading.ToRaw` | app.py:9-11 | a clean record seen as a raw row is complete and converts back to itself |
| `Masks.Positions` | app.py:54-59 | the rows a boolean mask keeps: exactly the indices where it is true, strictly increasing and in range |
| `Lexicographic.SortedUnique` | app.py:29-39 | the option list is strictly sorted in Python's string order and holds exactly the values of the column |
| `Lexicographic.Less` | app.py:31-37 | the code-point string order that `sorted` uses; a string sorting before another differs from it, and `LessTotal`, `LessTransitive` make it a strict total order |
| `Lexicographic.StrictlySortedUnique` | app.py:31-31 | two strictly sorted lists holding the same values are equal, so the option list is determined by the column's values alone |
| `Lexicographic.StrictlySortedDistinct` | app.py:31-31 | a strictly sorted option list repeats no value |
| `Lexicographic.LessTotal` | app.py:31-31 | any two different strings are ordered one way or the other |
| `Lexicographic.LessTransitive` | app.py:31-31 | the string order is transitive |
| `Filters.Matches` | app.py:55-58 | the four-part row test (condition selected, fuel selected, model year within the inclusive range); its contract: a row can pass only when both choices are non-empty and the range is not reversed |
| `Filters.Filter` | app.py:54-59 | the view is no longer than the table, and each of its rows is a table row with the selected condition, the selected fuel and a model year within the inclusive range |
| `Filters.FilterSpec` | app.py:54-59 | the view is the table indexed by the four-part mask: row k of the view is the k-th matching table row |
| `Filters.FilterSubsequence` | app.py:54-59 | the view is an order-preserving subsequence of the table |
| `Filters.FilterMembers` | app.py:54-59 | a row is in the view iff it is in the table and matches all four conditions |
| `Filters.FilterEmptySelection` | app.py:55-58 | no selected condition, no selected fuel, or a lower year bound above the upper one gives an empty view |
| `Filters.FilterKeepsAll` | app.py:54-59 | when every row matches, the view is the whole table |
| `Filters.FilterStrengthened` | app.py:54-59 | filtering the view of a weaker selection by a stronger one gives the stronger selection's view |
| `Filters.FilterMonotone` | app.py:54-59 | shrinking a choice or narrowing the year range gives the old view filtered again, so a subsequence of it |
| `Filters.MinYear` | app.py:41-41 | the minimum model year is attained by some row and is at most every row's year |
| `Filters.MaxYear` | app.py:42-42 | the maximum model year is attained by some row and is at least every row's year |
| `Filters.BuildControls` | app.py:29-48 | the controls cannot be built, because `int(NaN)` raises, exactly when the cleaned table is empty |
| `Filters.ControlsSpec` | app.py:29-48 | both option lists are strictly sorted, repeat nothing and hold exactly the values in the table; the year bounds are attained, ordered and enclose every row |
| `Filters.DefaultSelection` | app.py:29-48 | every option selected and the full year range; it is a selection the widgets can hand over, and every such selection is narrower than it |
| `Filters.DefaultsKeepAll` | app.py:29-59 | with all conditions, all fuels and the full year range selected, the view is the whole cleaned table |
| `Aggregation.TypeColumn` | app.py:106-106 | the `type` column with missing cells dropped: no longer than the view, and a type is in it iff some row of the view has that type |
| `Aggregation.TypeColumnSpec` | app.py:106-106 | the `type` column without missing cells lists, in order, the type of each row whose type is present |
| `Aggregation.Occurrences` | app.py:106-106 | a value's count is at most the column length, and at least one iff the value occurs |
| `Aggregation.FirstOccurrences` | app.py:106-106 | the distinct values of the column, each once |
| `Aggregation.InsertByCount` | app.py:105-109 | inserting an entry into the bar table adds exactly that entry |
| `Aggregation.InsertNonIncreasing` | app.py:105-109 | inserting into a table sorted by count, largest first, keeps it sorted |
| `Aggregation.SortByCount` | app.py:105-109 | sorting by count is a permutation of the entries |
| `Aggregation.SortNonIncreasing` | app.py:105-109 | after sorting, counts do not increase down the table |
| `Aggregation.SortSum` | app.py:105-109 | sorting keeps the total of the counts |
| `Aggregation.SortDistinctTypes` | app.py:105-109 | sorting a table that lists each type once keeps it so |
| `Aggregation.SumTally` | app.py:105-109 | over distinct values covering the column, the counts add up to the column's length |
| `Aggregation.ValueCounts` | app.py:105-109 | the bar table has no more entries than rows with a type, and at least one when some row has a type; `ValueCountsExact`, `ValueCountsComplete`, `ValueCountsDistinct`, `ValueCountsSorted` and `ValueCountsTotal` state the rest |
| `Aggregation.ValueCountsExact` | app.py:105-109 | each listed type occurs in the view, and its count is its exact number of rows, at least one |
| `Aggregation.ValueCountsComplete` | app.py:105-109 | every type present in the view is listed |
| `Aggregation.ValueCountsDistinct` | app.py:105-109 | no type is listed twice |
| `Aggregation.ValueCountsSorted` | app.py:105-109 | counts do not increase down the table |
| `Aggregation.ValueCountsTotal` | app.py:105-109 | the counts add up to the number of rows in the view whose type is present |
| `Aggregation.Mean` | app.py:68-69 | the mean times the number of values is their sum |
| `Aggregation.MeanWithin` | app.py:68-69 | the mean lies between any lower and upper bound of the column |
| `Aggregation.Summarize` | app.py:68-70 | the vehicle count is the number of rows in the view, and each mean times that count is the column's total |
| `Dashboard.Render` | app.py:64-70 | results are shown iff the view is non-empty; they are for exactly the filtered view, the vehicle count is its length, and the metrics and bar table are those of the view |
| `Dashboard.Page` | app.py:8-70 | one run of the script: it stops exactly when the cleaned table is empty, and any view it shows is an order-preserving subsequence of the cleaned table |
| `Dashboard.PageStops` | app.py:9-42 | the script raises at app.py:41 exactly when no raw row has all five required cells |
| `Dashboard.PageDefaultShowsAll` | app.py:9-70 | with untouched widgets and some complete row, the page shows results for the whole cleaned table, and counts every vehicle in it |

## Left out

- Reading `vehicles_us.csv` (app.py:8) is file I/O through pandas. The parsed rows are an input. Parse failures and missing columns are not modelled.
- All Streamlit calls are layout and widget rendering (app.py:16-49, 66-129): titles, the preview of the first rows, columns, checkboxes, the expander, the warning text. Only the values the widgets pass to the filter are kept, as a `Selection`.
- The Plotly charts (app.py:87-122) are drawn by a foreign library: histogram binning, scatter, bar drawing, box-plot quantiles. Only the counts behind the bar chart are modelled.
- The `:,.0f` formatting of the metrics (app.py:68-69) is display only.
- `Aggregation.Mean`: an exact rational sum divided by the count, not float64 arithmetic with its rounding.
- Model year, odometer and price are integers. pandas may hold them as floats, but `int(...)` of a whole-number year is then the identity.
- `Aggregation.ValueCountsSorted`: states only that counts do not increase. The order among equal counts is not documented by pandas. `SortByCount` happens to keep first-occurrence order there, and no contract relies on it.
- The second `.dropna()` on the option columns (app.py:31, 37) is not modelled separately. After cleaning, those columns have no missing cells, so it removes nothing.
