# US population dashboard: a verified model of its core

The dashboard loads a table of (State, State Code, Year, Population) rows and
shows, for a year picked in the sidebar, which states gained or lost the most
people and what share of states changed by more than a chosen threshold. This
project models, in Dafny, the parts of that program that compute something.

- `calculate_population_difference` (module `PopulationDifference`) selects the
  rows of a year and of the year before. It subtracts the earlier populations
  position by position, with a missing row read as 0. It sorts the result by
  the difference, largest first.
- `format_number` (module `NumberFormat`) turns a population into the number
  the call-out prints and its unit, K or M. The result is a value:
  `K(count)`, `MWhole(value)` or `MTenths(tenths)`.
- `make_donut` (module `Donut`) builds the chart's data: the palette chosen by
  colour name, the value ring, the background ring and the caption. Python's
  `str` of the caption's integer is modelled in module `Decimal`.
- The sidebar of `dashboard_app.py` (module `Sidebar`) computes the year
  list, its default selection and the threshold. `ReadSidebar` is a method
  because the source builds the list and the threshold step by step.
- The first page column (module `GainsLosses`) computes the two metric
  call-outs, the growth and shrinkage shares and their donuts. For a year not
  above the last entry of the year list it shows placeholders instead.

Python's `round` is half-even. Module `Rounding` models it on exact
quotients.

The table is an input sequence (`Dataset.Row`). Python exceptions become
`Dataset.Result` failures:
- `IndexError` for `.iloc[0]` on an empty difference table, and for
  `year_list[-1]` on an empty table;
- `UnboundLocalError` for an unknown colour in `make_donut`;
- `SelectIndexOutOfRange` when the year drop-down's default index is negative.

Behaviour of the code that the model keeps, as written:
- The extra year appended to the year list (dashboard_app.py:33-34) is one
  less than the FIRST year of the table in file order. The comment there
  speaks of a year before 2010; `SyntheticYearBelowAll` proves the appended
  year lies below every year of the table when the table starts with its
  earliest year.
- The cut-off and the divisor of `format_number` are both the literal `10e6`,
  ten million, while its comments (dashboard_methods.py:113-114) speak of a
  million. So 25,000,000 comes out as `MTenths(25)`, printed "2.5 M"
  (`NumberFormat.Examples`).
- `num // 10e6` in the exactly divisible branch is a float division, so
  20,000,000 prints "2.0 M". The model keeps the number 2 (`MWhole(2)`).
- The difference is taken by position in the two year slices
  (dashboard_methods.py:62). `PositionalIsByStateWhenAligned` shows this is
  each state's own change when both slices list the states in the same
  order; `MisalignedSlicesExample` shows a two-state table where it is not:
  state B grew by 5 but its difference reads 15.

## Model

| member | source | states |
|---|---|---|
| PopulationDifference.SelectYear | dashboard_methods.py:59-60 | the slice holds exactly the rows of the year, each once, in table order, each with its table position |
| PopulationDifference.SelectPrefixSound | dashboard_methods.py:59 | every selected row is a row of the year at its own table position |
| PopulationDifference.SelectPrefixOrdered | dashboard_methods.py:59 | selected rows keep table order |
| PopulationDifference.SelectPrefixComplete | dashboard_methods.py:59 | every row of the year is selected |
| PopulationDifference.SelectYearEmpty | dashboard_methods.py:59 | a slice is empty if and only if no row has that year |
| PopulationDifference.Subtract | dashboard_methods.py:62 | one output row per selected row: its population minus the previous slice's population at the same position, or minus 0 past its end |
| PopulationDifference.Insert | dashboard_methods.py:63 | inserting into a table sorted largest first adds exactly that row and keeps it sorted |
| PopulationDifference.SortByDifference | dashboard_methods.py:63 | the result is a permutation of the input, sorted by difference, largest first |
| PopulationDifference.SortDistinct | dashboard_methods.py:63 | sorting never duplicates a table row |
| PopulationDifference.CalculatePopulationDifference | dashboard_methods.py:58-63 | one row per row of the year; a permutation of the positional differences; sorted largest first; each row a row of the year; no table row twice |
| PopulationDifference.DifferencesSound | dashboard_methods.py:59-62 | before sorting, every row is a row of the year with its own table position, and no table row appears twice |
| PopulationDifference.RowsOfYear | dashboard_methods.py:58-63 | a table row appears in the result if and only if its year is the requested year |
| PopulationDifference.DifferenceByPosition | dashboard_methods.py:60-62 | each result row's difference is its population minus the previous-year row at the same slice position, or 0 when there is none |
| PopulationDifference.NoPreviousYear | dashboard_methods.py:60-62 | with no rows of the previous year, each difference equals the row's own population |
| PopulationDifference.SelectYearTotal | dashboard_methods.py:59 | the populations of a slice add up to the year's total population |
| PopulationDifference.SubtractSum | dashboard_methods.py:62 | the differences add up to the selected slice's total minus the previous slice's total, when the previous slice is not longer |
| PopulationDifference.SortSum | dashboard_methods.py:63 | sorting keeps the sum of the differences |
| PopulationDifference.TotalChange | dashboard_methods.py:58-63 | when the previous year has no more rows, the differences add up to the change in the total population |
| PopulationDifference.DistinctStates | dashboard_methods.py:58-63 | in a table with no (State, Year) pair twice, no state appears twice in a difference table |
| PopulationDifference.PositionalIsByStateWhenAligned | dashboard_methods.py:60-62 | when both slices list the same states in the same order, each difference is the state's population minus its own population a year earlier |
| PopulationDifference.MisalignedSlicesExample | dashboard_methods.py:60-62 | in a well-formed table whose slices list the states in different orders, a state that grew by 5 gets a difference of 15 |
| NumberFormat.FloorDiv | dashboard_methods.py:117 | Python's `//` for a positive divisor: the quotient rounded towards minus infinity |
| NumberFormat.FormatNumber | dashboard_methods.py:112-117 | K if and only if num <= 10e6, with count the floor of num / 1000; whole M if and only if above 10e6 and divisible by it, with value times 10e6 equal to num; otherwise tenths within half a tenth of num / 10e6, at least 1.0 |
| NumberFormat.KIsFloor | dashboard_methods.py:117 | the K count is the unique floor of num / 1000, so negative numbers round away from zero |
| NumberFormat.Examples | dashboard_methods.py:112-117 | 999 gives 0 K, 1500 gives 1 K, -1500 gives -2 K, 10e6 gives 10000 K, 20,000,000 gives 2 M, 10,000,001 gives 1.0 M, 25,000,000 gives 2.5 M, 15,000,000 gives 1.5 M |
| Rounding.RoundHalfEven | dashboard_methods.py:116 | the result is within half a step of a / n, and even on a tie |
| Rounding.RoundHalfEvenUnique | dashboard_methods.py:116 | nearest-with-ties-to-even determines the result: any integer with both properties is it |
| Decimal.NatText | dashboard_methods.py:96 | non-empty decimal digits, no leading zero except for 0 |
| Decimal.IntText | dashboard_methods.py:96 | `str` of an integer: a minus sign exactly for negative numbers, then decimal digits with no leading zero except for 0 itself |
| Decimal.IntTextRoundTrip | dashboard_methods.py:96 | the text of an integer reads back as that integer |
| Decimal.IntTextInjective | dashboard_methods.py:96 | different integers have different texts |
| Donut.PaletteFor | dashboard_methods.py:67-74 | a palette exists if and only if the colour is blue, green, orange or red |
| Donut.PalettesDistinct | dashboard_methods.py:67-74 | different known colours have different palettes |
| Donut.MakeDonut | dashboard_methods.py:66-96 | fails with UnboundLocalError if and only if the colour is unknown; otherwise the palette of that colour, topics ['', text], domain [text, ''], value ring [100 - response, response], background ring [100, 0], and caption `str(response)` followed by " %", which reads back as the response |
| Donut.EmptyAndFullRings | dashboard_methods.py:76-83 | a response of 0 gives a value ring equal to the background ring; a response of 100 gives [0, 100] |
| Sidebar.Unique | dashboard_app.py:31 | `unique()`: the same values, none twice, starting with the first value |
| Sidebar.UniqueOrder | dashboard_app.py:31 | the distinct values come in order of first appearance |
| Sidebar.Reverse | dashboard_app.py:31 | `[::-1]`: element i is element n-1-i of the input |
| Sidebar.ReadSidebar | dashboard_app.py:31-49 | fails if and only if the table has fewer than three distinct years: IndexError for an empty table, otherwise the refused default index; on success the year list is YearList, the selected year is the picked entry or entry len-4, and the threshold is the slider value times 1000, between 25,000 and 100,000 |
| Sidebar.YearListShape | dashboard_app.py:31-34 | one entry per distinct year plus one; the last distinct entry is the first row's year, and the synthetic entry is one less |
| Sidebar.TableYearsOffered | dashboard_app.py:31-34 | every year of the table is offered before the synthetic year |
| Sidebar.OfferedYearsInTable | dashboard_app.py:31-34 | every entry before the synthetic year is a year of the table |
| Sidebar.YearListOrder | dashboard_app.py:31 | no year is offered twice; years that appear later in the file come first |
| Sidebar.DefaultIsThirdYear | dashboard_app.py:37-38 | the default entry len-4 is the third distinct year in file order |
| Sidebar.SyntheticYearBelowAll | dashboard_app.py:34 | when the table starts with its earliest year, the synthetic year is below every offered year and matches no row |
| GainsLosses.Growth | dashboard_app.py:93 | exactly the rows whose difference exceeds the threshold, each as many times as in the table, so its length is their count |
| GainsLosses.Shrinkage | dashboard_app.py:95 | exactly the rows whose difference is below minus the threshold, each as many times as in the table, so its length is their count |
| GainsLosses.GroupsDisjoint | dashboard_app.py:93-95 | for a non-negative threshold the two groups together are no larger than the table |
| GainsLosses.Percent | dashboard_app.py:98-100 | the share lies in [0, 100] |
| GainsLosses.PercentNearest | dashboard_app.py:98-100 | the share is the whole percentage nearest to 100 count / n, even on a tie |
| GainsLosses.PercentsFit | dashboard_app.py:98-100 | shares of two disjoint groups add up to at most 100 |
| GainsLosses.FirstColumn | dashboard_app.py:62-110 | fails with IndexError if and only if the year is above the synthetic year and has no rows; for a year not above it: placeholders, 0% and 0%, and the two orange donuts `make_donut` draws for 0 with the growth and shrinkage captions; for a data year: numeric metrics, a green and a red donut |
| GainsLosses.DataYearPanel | dashboard_app.py:65-104 | a year above the synthetic year that has rows shows the panel built from its non-empty difference table |
| GainsLosses.DataPanelShows | dashboard_app.py:67-104 | the top metric shows the row with the largest change, the bottom metric the row with the smallest; the shares are the rounded percentages of rows past the threshold up and down, adding up to at most 100 for a non-negative threshold; the green growth donut and the red shrinkage donut are the ones `make_donut` draws for those two shares |
| GainsLosses.OfferedYearsShown | dashboard_app.py:31-110 | for a table that starts with its earliest year, every offered year gives a page without error, with real metrics exactly for the entries before the synthetic year |

## Left out

- Loading the CSV file is not modelled: the table is a parameter.
- Drawing is not modelled: the Streamlit layout, titles, the heatmap, the choropleth map, the states table and the About expander. These are calls into libraries whose code is not part of this model.
- The Altair marks (radii, fonts, sizes, the text colour) are not modelled; `Donut.MakeDonut` returns the data the charts are drawn from.
- The colour-theme drop-down (dashboard_app.py:43-45) is not modelled: it only feeds the charts.
- The sorted table of the selected year (dashboard_app.py:39-40) is not modelled: it only feeds the states table.
- NumberFormat.FormatNumber: returns the number it prints, not the text. Before " K" the text is an int, or a float when the difference column is float ("4785.0 K"); before " M" it is a float ("2.0 M", "2.5 M").
- Rounding.RoundHalfEven: rounds the exact quotient. Python rounds the nearest binary float, which can fall on the other side of a tie: 10,500,000 / 10e6 is stored just above 1.05, so Python prints "1.1 M" where the model gives 1.0.
- GainsLosses.Percent: rounds 100 count / n exactly. Python rounds the float `(count / n) * 100`, whose representation error can move a value that should tie.
- PopulationDifference.SortByDifference: proves a permutation sorted largest first, and nothing about the order of equal differences. pandas sorts with an unstable quicksort, while the model's insertion sort is stable.
- The column types pandas gives the difference (float when the two year slices differ in length) are not modelled; populations and differences are integers.
- Sidebar.ReadSidebar: the slider value is a float in the source. The model takes it as a whole number from 25 to 100, which is all its range and step of 1.0 allow.
- Sidebar.ReadSidebar: the drop-down's own check that a picked index lies in the list is a precondition on `choice`.
- PopulationDifference.CalculatePopulationDifference: an empty selected slice next to a non-empty previous-year slice is modelled as an empty table. pandas would instead adopt the index of the difference series, giving one row per previous-year row with no state or population and difference minus that population. The year list never offers such a year.
- GainsLosses.FirstColumn: for the same case (a year above the synthetic year with no rows, whose previous year has rows) the model fails with IndexError, while the source shows those NaN rows ("nan K"). Its failure condition is exact only when the previous year has no rows either.
