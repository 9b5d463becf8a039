# Correlation and location helpers: a Dafny model

This project models the table helpers in `function.py` of an exploratory
data-analysis notebook. It covers four of them:

- `sort_correlations` adds an `Abs_Correlation` column to a frame and returns the
  `top_n` rows with the largest absolute correlation.
- `create_correlation_df` turns a dictionary of per-period correlations into a
  two-column table.
- `parse_state_county` scans a column that mixes state names and
  "X County, ST" labels. It writes `State` and `County` columns and keeps only the
  county rows.
- `get_decade` buckets a year into a band label, or into none.

A pandas frame is a sequence of rows. A row's index label is its position.
Where the source changes the caller's frame in place, the frame is an `array`
of rows and the method says what each row holds afterwards:

- `parse_state_county` sets `df['State']` and `df['County']` and writes with `df.loc`.
- `sort_correlations` sets `df['Abs_Correlation']`.

A Python dict is its keys in insertion order plus its key-to-value map.
Correlation values are `real`.

Modules:
- `Wrappers`: `Option`, for Python's `None`.
- `Strings`: Python's substring test `sub in s`.
- `Decade`: `get_decade`.
- `StateCounty`: `parse_state_county`.
- `CorrelationRanking`: `sort_correlations`.
- `CorrelationTable`: `create_correlation_df`.

## Model

| member | source | states |
|---|---|---|
| `Decade.GetDecade` | function.py:141-152 | No value exactly for years before 1970, for 2012–2016 and from 2021 on. Otherwise one of the six labels, and the year lies in that label's effective range: 1990 covers [1990, 2001) and 2000 covers [2001, 2008). |
| `Decade.FirstMatch` | function.py:141-152 | Reference reading of an if/elif cascade over a band table. A result names a band that holds the year, with no earlier band holding it. No result means no band holds it. |
| `Decade.GetDecadeIsFirstMatch` | function.py:141-152 | `get_decade` equals the first-match lookup over its bands as written, in test order, with 1990 inclusive of 2000. |
| `Decade.LabelRanges` | function.py:141-152 | For each label, `get_decade` returns it for exactly the years of its effective range (both directions). |
| `Decade.Year2000Overlap` | function.py:145-148 | 2000 passes both the 1990 test and the 2000 test; the earlier test wins, so the result is "1990". |
| `Decade.Boundaries` | function.py:141-152 | The first and last year of each band and of each gap map to the expected label or to no value. |
| `Decade.DocExamples` | function.py:127-139 | The docstring examples: 1975, 1985, 1995, 2005, 2010, 2018. |
| `Decade.Monotone` | function.py:141-152 | A later year never gets a band that comes earlier in test order. |
| `Strings.ContainsSlice` | function.py:108 | `sub in s` holds exactly when `sub` occurs in `s` at some offset, read as a window of `s` equal to `sub`. |
| `StateCounty.ParseStateCounty` | function.py:102-114 | The scan leaves every row of the frame as the specification `Marked` says. It returns the rows with County set, with their index labels. |
| `StateCounty.CurrentStateIsNearest` | function.py:104-109 | The `current_state` accumulator holds the location of the nearest preceding non-County row, or "" if there is none. |
| `StateCounty.CountyRowsShape` | function.py:114 | The `notnull` filter keeps exactly the rows whose County is set, unchanged and in increasing index order. |
| `StateCounty.ParsedRowsAreCounties` | function.py:108-112 | Every returned row's location contains "County", and its County cell equals that location. |
| `StateCounty.ParseSelectsCountyRows` | function.py:104-114 | The result is exactly the county rows of the input, in input order, with other cells unchanged. Each row's State is the nearest preceding state name, or "". |
| `StateCounty.NoCountiesGivesEmpty` | function.py:106-114 | A frame with no county rows gives an empty result. |
| `StateCounty.DocExample` | function.py:95-100 | The docstring example: Texas followed by two Texas counties gives rows 1 and 2 with State "Texas". |
| `CorrelationRanking.Insert` | function.py:25 | Inserting into a descending sequence keeps it descending and adds exactly that one row to the multiset. |
| `CorrelationRanking.SortByAbs` | function.py:25 | The sort result is in non-increasing absolute-correlation order and is a permutation of its input. |
| `CorrelationRanking.SortedDescAt` | function.py:25 | In a sorted result, any earlier row has an absolute value at least that of any later row. |
| `CorrelationRanking.PrefixDominates` | function.py:25 | Taking the head of a sorted permutation of the rows leaves out no row whose absolute value exceeds that of a row taken. |
| `CorrelationRanking.TopCorrelations` | function.py:24-25 | The result has `min(top_n, rows)` rows, sorted by absolute value, largest first. It is a sub-multiset of the input rows, and each row carries `Abs_Correlation = abs(value)`. No excluded row has a larger absolute value than a returned one. |
| `CorrelationRanking.SortCorrelations` | function.py:24-25 | Every row of the caller's frame gets its Abs_Correlation cell. The returned rows are `TopCorrelations` of the original frame. `top_n` defaults to 5, as in the source. |
| `CorrelationRanking.DocExample` | function.py:17-22 | The docstring example: of 0.1, -0.2, 0.3 the top two are rows 2 and 1, with absolute values 0.3 and 0.2. |
| `CorrelationTable.DistinctCardinality` | function.py:79 | A sequence without repeats has as many distinct elements as positions, so a dict has one iteration position per key. |
| `CorrelationTable.CreateCorrelationDf` | function.py:79 | The table has columns `[year_col, corr_col]` and one row per dict entry, in iteration order. Each row holds an entry's key and value unchanged, and every entry has a row. |
| `CorrelationTable.RoundTrip` | function.py:79 | Reading the table back into a dict gives the original dict: same keys, same order, same values. |
| `CorrelationTable.DocExample` | function.py:73-77 | The docstring example: `{'2000': 0.05, '2001': -0.03}` becomes two rows in that order. |

## Left out

- `plot_correlations` (function.py:31-57) is not modelled. It only draws a matplotlib figure and returns nothing.
- Column selection by name is not modelled. The correlation column and the location column are fixed fields of the row, so a missing column (a `KeyError` in pandas) cannot arise.
- Index labels are positions. A frame with duplicate or non-default labels is not modelled; with duplicates, `df.loc[index, ...]` would write to several rows.
- Pandas dtypes and NaN handling are not modelled. A non-string location, which makes `'County' not in location` raise, is excluded by typing locations as strings.
- Correlations are exact `real`s. Floating-point rounding and NaN are not modelled.
- CorrelationRanking.SortCorrelations: `top_n` is a `nat`. The model does not cover pandas' `head` with a negative count.
- CorrelationRanking.SortByAbs: it orders ties by insertion, while pandas' default quicksort may order them differently. So no contract here fixes the order of rows with equal absolute values, and the docstring example has none.
- CorrelationTable.CreateCorrelationDf: it keeps the two column names as given. It does not model what pandas does when they are equal.
