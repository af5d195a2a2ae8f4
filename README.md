# Affordability derivation of the economic-comparison project, in Dafny

The project turns monthly home-price, household-income and consumer-price-index
observations into four affordability tables, and it does so in two places:

- **The database script** (`scripts/create_database.py`) does it in SQL:
  - the view `annual_economic_indicators` holds the yearly means, joined by year;
  - `economic_comparison` adds the price-to-income ratio and the inflation-adjusted
    price and income, rescaled to the CPI of 2020;
  - `affordability_comparison` is the gap analysis: by how much the current price
    would have to fall, or the current income rise, for today's ratio to return
    to its 1970, 1980, 1990, 2000 or 2010 value;
  - `decade_summary` holds the per-decade means.
- **The dashboard's `load_data`** (`app.py`) recomputes the same three derived
  tables from an in-memory `economic_comparison` table when no database is found.

This model states both derivations as Dafny and proves:
- what each table contains;
- the properties the two derivations promise;
- where the two agree, and where their edge cases make them differ.

Modules, one per file:

- `Wrappers`: `Option` and `Result`.
- `Ordering`: ascending year columns, the sorted keys of a `GROUP BY ... ORDER BY`,
  the first row with a given year (what a scalar subquery or `.values[0]` picks),
  and the largest year.
- `Stats`: the mean that both SQL `AVG` and pandas `mean` compute. Missing values
  (SQL `NULL`, pandas `NaN`, here `None`) are skipped, and a mean with nothing to
  average is itself missing.
- `Records`: the row types, the gap formula and the five-column decade mean, which
  both derivations share.
- `CreateDatabase`: the SQL statements, each a function of the tables it reads.
- `LoadData`: the fallback derivation.
  - Column-wise pandas expressions are functions.
  - The loop over comparison years is a method with a `while` loop.
  - The decade loop is a method that fills an array of summary rows and then
    applies `dropna`.
- `PipelineAgreement`: lemmas relating the two derivations.

Numbers are modelled as `real` and years as `int`.

## Model

| member | source | states |
|---|---|---|
| `Ordering.SortedDistinct` | scripts/create_database.py:169-172 | the keys of a `GROUP BY` listed by its `ORDER BY`: strictly ascending, and exactly the distinct values of the grouped column |
| `Ordering.FirstIndex` | app.py:106 | the row `.values[0]` or a scalar subquery picks: absent exactly when no row matches, otherwise a matching row with no matching row before it |
| `Ordering.MaxOf` | scripts/create_database.py:139 | `MAX(year)` is a year of the table and no year exceeds it |
| `Ordering.MaxOfAscendingIsLast` | app.py:116 | on an ascending table, the row of `MAX(year)` is the last row that `iloc[-1]` takes |
| `Stats.Avg` | scripts/create_database.py:162-166 | `AVG` has a value exactly when at least one non-NULL value is averaged |
| `Stats.AvgBetween` | scripts/create_database.py:54 | a mean lies between the least and the greatest value averaged |
| `Stats.AvgPositive` | scripts/create_database.py:54 | the mean of positive values is positive |
| `Stats.AvgPermutation` | scripts/create_database.py:162-166 | a mean does not depend on the order of the averaged rows |
| `Records.RatioOfAscending` | app.py:126 | in a table without repeated years, the ratio looked up for a row's year is that row's ratio |
| `Records.Gap` | scripts/create_database.py:142-146 | a gap row keeps its year, current and historical ratio; cutting the current ratio by `home_price_decrease_needed` percent gives the historical ratio, and raising the historical ratio by `income_increase_needed` percent gives the current one |
| `Records.GapNotSymmetric` | app.py:130-133 | the two percentages are opposites only when the current and historical ratios are equal |
| `Records.GapExample` | app.py:130-133 | current ratio 5 and historical ratio 2 give 60 and 150 |
| `Records.SummarizePermutation` | scripts/create_database.py:162-166 | a decade's five means do not depend on the order of its rows |
| `Records.SummarizeNonEmpty` | scripts/create_database.py:162-164 | a decade with positive rows has positive mean price, income and ratio |
| `Records.Summarize` | scripts/create_database.py:161-166 | a decade row keeps its decade; with no rows all five means are missing, and with some rows the price, income and ratio means are present |
| `CreateDatabase.AnnualMean` | scripts/create_database.py:51-58 | the yearly `AVG ... GROUP BY year` has a value exactly when the year has an observed value |
| `CreateDatabase.AnnualMeanPositive` | scripts/create_database.py:51-77 | yearly means of positive observations are positive |
| `CreateDatabase.AnnualMeanBetween` | scripts/create_database.py:51-58 | a yearly mean lies between that year's least and greatest observation |
| `CreateDatabase.JoinRow` | scripts/create_database.py:78-92 | a year survives the two `LEFT JOIN`s and the `IS NOT NULL` filters exactly when all three indicators have a value that year |
| `CreateDatabase.JoinYears` | scripts/create_database.py:78-94 | the join yields at most one row per listed year, each row for one of those years |
| `CreateDatabase.JoinYearsRows` | scripts/create_database.py:78-94 | the join keeps exactly the years with all three means, in the order of the home-price years, each row holding that year's three means |
| `CreateDatabase.AnnualIndicators` | scripts/create_database.py:49-95 | the view has strictly ascending years, exactly the years observed for all three indicators, and each row holds that year's three means |
| `CreateDatabase.AnnualIndicatorsPositive` | scripts/create_database.py:49-95 | positive observations give a view of positive means |
| `CreateDatabase.BaseCpi` | scripts/create_database.py:104-111 | the base CPI is missing exactly when the view has no 2020 row, and otherwise is the CPI of a 2020 row |
| `CreateDatabase.Rescale` | scripts/create_database.py:118-119 | `value * base / cpi` is NULL exactly when the base is NULL; otherwise times the CPI it gives the value times the base, and it is positive for positive operands |
| `CreateDatabase.CompareRow` | scripts/create_database.py:113-119 | a comparison row keeps the year and nominal columns; its ratio times the income is the price; its adjusted columns are NULL exactly when the base is, and otherwise times the CPI give the nominal values times the base |
| `CreateDatabase.EconomicComparison` | scripts/create_database.py:102-124 | one row per view row, same years in the same order, nominal columns carried over; price, income, CPI and ratio positive, and every adjusted value that is present positive |
| `CreateDatabase.ComparisonRatio` | scripts/create_database.py:117 | the ratio times the income gives the price |
| `CreateDatabase.CompareRowAdjusted` | scripts/create_database.py:117-119 | for a positive base CPI, a row's adjusted columns are present, times the row's CPI equal the nominal values times the base, and keep the price-to-income ratio |
| `CreateDatabase.ComparisonAdjustment` | scripts/create_database.py:118-119 | the adjusted columns are NULL exactly when 2020 is absent; otherwise adjusted × CPI = nominal × base CPI, and adjusted price = ratio × adjusted income |
| `CreateDatabase.ComparisonBaseYearUnchanged` | scripts/create_database.py:104-119 | in the 2020 row the adjusted price and income equal the nominal ones |
| `CreateDatabase.AdjustmentExample` | scripts/create_database.py:118 | 23000 at CPI 38.8, rescaled to CPI 258.8, lies between 153412 and 153413 |
| `CreateDatabase.CurrentRatio` | scripts/create_database.py:133-140 | the current ratio exists exactly when the table is non-empty; it is the ratio of a row whose year is the largest, and it is positive |
| `CreateDatabase.GapRowsFrom` | scripts/create_database.py:141-150 | every gap row compares the current ratio with the ratio of a table row whose year is a comparison year |
| `CreateDatabase.GapRowsYears` | scripts/create_database.py:148-150 | the gap table holds exactly the comparison years present in the table, ascending when the table is |
| `CreateDatabase.AffordabilityComparison` | scripts/create_database.py:131-151 | empty for an empty table; its years are exactly the comparison years present in the table; each row compares the current ratio with the ratio of a table row of that comparison year |
| `CreateDatabase.AffordabilityComparisonRows` | scripts/create_database.py:131-151 | on an ascending table, one gap row per comparison year present, in the fixed order, each comparing the latest year's ratio with that year's ratio; absent years are silently skipped |
| `CreateDatabase.DecadeOf` | scripts/create_database.py:161 | a decade is a multiple of ten; a non-negative year lies in `[decade, decade + 10)`, a negative one in `(decade - 10, decade]`, because the division truncates toward zero |
| `CreateDatabase.DecadeOfExamples` | scripts/create_database.py:161 | 1984 and 1980 fall in 1980, 1979 in 1970; -15 is truncated to -10 |
| `CreateDatabase.DecadeOfSpan` | scripts/create_database.py:161 | for a non-negative year, its decade is the one multiple of ten `d` with `d <= year < d + 10` |
| `CreateDatabase.RowsInDecade` | scripts/create_database.py:169-170 | a decade's group holds exactly the table rows whose year falls in that decade |
| `CreateDatabase.RowsInDecadeMultiset` | scripts/create_database.py:169-170 | a decade's group holds each of its rows as often as the table does |
| `CreateDatabase.DecadeSummary` | scripts/create_database.py:158-173 | the summary lists, in ascending order, exactly the decades that hold a row |
| `CreateDatabase.DecadeSummaryRows` | scripts/create_database.py:158-173 | one row per decade holding data, in ascending order, each the five means of exactly that decade's rows, price, income and ratio means never NULL |
| `CreateDatabase.DecadeSummaryPermutation` | scripts/create_database.py:158-173 | shuffling the comparison rows leaves the decade summary unchanged |
| `CreateDatabase.BuildDatabase` | scripts/create_database.py:49-173 | the script's tables: ascending positive comparison rows for exactly the years observed for all three indicators, gap years those comparison years present, every decade row with a ratio mean |
| `LoadData.FallbackBase` | app.py:106-107 | the CPI of the first 2020 row, or 258.8 when there is none; positive for positive input |
| `LoadData.AdjustRow` | app.py:102-112 | a row keeps its year and nominal columns; its ratio times the income is the price; both adjusted values are present, times the CPI give the nominal values times the base, and are positive for positive operands |
| `LoadData.AdjustAll` | app.py:102-112 | one adjusted row per input row, same years in the same order, nominal columns kept, both adjusted columns present; with a positive base, everything positive |
| `LoadData.FallbackComparison` | app.py:102-112 | same rows in the same order, nominal columns kept; price, income, CPI and ratio positive; both adjusted columns always present and positive |
| `LoadData.FallbackRatio` | app.py:102-103 | the ratio times the income gives the price |
| `LoadData.AdjustAllScaled` | app.py:109-112 | for any base CPI, each adjusted price and income times the row's CPI equals the nominal value times the base |
| `LoadData.FallbackAdjustedRatio` | app.py:102-112 | the adjusted price is the ratio times the adjusted income |
| `LoadData.FallbackBaseYearUnchanged` | app.py:106-112 | in the first 2020 row the adjusted price and income equal the nominal ones |
| `LoadData.FallbackWithoutBaseYear` | app.py:106-112 | without a 2020 row, both adjusted columns are the nominal values rescaled to the fixed CPI 258.8 |
| `LoadData.LookupRatios` | app.py:124-127 | success exactly when every comparison year has a row, each ratio that of the year's first row; otherwise the error names the first missing year |
| `LoadData.HistoricalRatios` | app.py:124-129 | the loop over the comparison years computes exactly `LookupRatios` |
| `LoadData.FallbackGaps` | app.py:114-133 | the gap table exists exactly when the table is non-empty and has every comparison year; then one row per comparison year in the fixed order, each against the last row's ratio; otherwise `EmptyTable` or the first missing year |
| `LoadData.FallbackGapsRestoreRatio` | app.py:116-133 | each gap row's current ratio is the last row's; cutting it by the first percentage gives the historical ratio, and raising the historical ratio by the second gives it back |
| `LoadData.InYearRange` | app.py:141-142 | the selection holds exactly the rows with `lo <= year < hi` |
| `LoadData.InYearRangeMultiset` | app.py:141-142 | the selection holds each selected row as often as the table does |
| `LoadData.DropIncomplete` | app.py:164 | `dropna` keeps exactly the summary rows with no missing value |
| `LoadData.DropIncompleteAscending` | app.py:164 | `dropna` keeps the rows in ascending decade order |
| `LoadData.FillDecadeRow` | app.py:143-161 | filling one decade's row yields the five means of the selected rows, all missing when none is selected |
| `LoadData.DecadeSlot` | app.py:140-161 | a listed decade's row keeps its decade, and its price mean is present exactly when some row has `decade <= year < decade + 10` |
| `LoadData.DecadeSummaryTable` | app.py:136-164 | the decade loop over the array followed by `dropna` computes exactly `FallbackDecades` |
| `LoadData.DecadeSlotComplete` | app.py:144-161 | on a positive, fully adjusted table, a listed decade's row has all five means exactly when some row falls in it |
| `LoadData.FallbackDecades` | app.py:136-164 | the surviving rows ascend by decade, and each is a complete row of a listed decade, equal to that decade's slot |
| `LoadData.FallbackDecadesKeys` | app.py:136-164 | the surviving decades are exactly the listed decades 1970..2020 holding a row |
| `LoadData.FallbackDecadesRows` | app.py:136-164 | surviving decades ascend, and each row is the five means over `decade <= year < decade + 10` |
| `LoadData.FallbackDecadesPermutation` | app.py:140-164 | shuffling the rows leaves the fallback decade summary unchanged |
| `LoadData.DeriveFallbackTables` | app.py:101-164 | the steps of the fallback, in the source's order, compute exactly `Fallback` |
| `LoadData.Fallback` | app.py:101-164 | the fallback succeeds exactly when the input is non-empty and has every comparison year, fails with `EmptyTable` on an empty input, and on success keeps the input's years and lists every comparison year |
| `PipelineAgreement.ComparisonAgreesWithBaseYear` | app.py:106-112 | with a 2020 row, the fallback comparison table equals the database's |
| `PipelineAgreement.ComparisonWithoutBaseYear` | app.py:106-107 | without a 2020 row, the database's adjusted columns are NULL while the fallback rescales to 258.8; ratios agree |
| `PipelineAgreement.GapsAgree` | app.py:114-133 | on an ascending view with every comparison year, the two gap tables are equal |
| `PipelineAgreement.GapTablesAgree` | app.py:114-133 | two ascending tables with the same years, the same positive ratios and every comparison year yield the same gap table in both derivations |
| `PipelineAgreement.MissingYearDiverges` | app.py:124-127 | a missing comparison year makes the fallback fail, while the database's gap table just lacks that year |
| `PipelineAgreement.RowsInDecadeIsRange` | scripts/create_database.py:161 | for non-negative years, grouping by `year/10*10` and selecting `d <= year < d + 10` give the same rows |
| `PipelineAgreement.DecadeKeysAgree` | app.py:136 | when every year lies in 1970..2029, both summaries list the same decades |
| `PipelineAgreement.DecadesAgree` | app.py:136-164 | when every year lies in 1970..2029 and every adjusted value is present, the two decade summaries are equal |
| `PipelineAgreement.DatabaseKeepsDecade2030` | scripts/create_database.py:158-173 | rows of 2030..2039 produce a database decade 2030 |
| `PipelineAgreement.FallbackDropsDecade2030` | app.py:136 | the fallback drops every row from 2030 on |
| `PipelineAgreement.PipelinesAgree` | app.py:101-164 | on an ascending view with 2020, every comparison year, and years in 1970..2029, the fallback returns exactly the database's three derived tables |

## Edge cases

The two derivations handle these inputs differently, and the model keeps each
behaviour.

- **No 2020 row.**
  - In SQL, `(SELECT consumer_price_index FROM base_year)` is NULL, so both
    adjusted columns are NULL (`scripts/create_database.py:104-119`).
  - The fallback uses the CPI 258.8 instead (`app.py:106-107`).
  - Neither fails.
- **A comparison year without a row.**
  - SQL has no gap row for it (`scripts/create_database.py:149-150`).
  - The fallback fails: `.values[0]` on an empty selection (`app.py:126`),
    modelled as `MissingComparisonYear`.
  - An empty table fails earlier, at `iloc[-1]` (`app.py:116`), modelled as
    `EmptyTable`.
- **Decades.**
  - SQL groups by the decades of the data (`scripts/create_database.py:169-170`).
  - The fallback summarises the fixed list 1970..2020 (`app.py:136`).
  - Rows from 2030 on, and rows before 1970, fall in no listed decade.
- **Negative years.** SQLite's integer division truncates toward zero, so
  `CAST(year/10 * 10 AS INTEGER)` puts -15 in the decade -10
  (`scripts/create_database.py:161`).
- **Adjusting the starting values.** The synthetic input of `app.py` starts
  at a 1970 price of 23000 (`app.py:91`) and a CPI of 38.8 (`app.py:97`).
  Rescaled to a 2020 CPI of 258.8, that price is 23000 × 258.8 / 38.8,
  between 153,412 and 153,413 (`CreateDatabase.AdjustmentExample`).

## Left out

- Reading the CSV files, parsing dates and extracting the year (`scripts/create_database.py:16-34`) are not modelled. An observation carries its year directly.
- Writing the tables and the row-count report (`scripts/create_database.py:36-42, 175-191`) are not modelled.
- The minimum-wage and tuition tables are loaded but feed no derived table, so they are not modelled.
- `scripts/data_collection.py` is not part of this model.
- The dashboard's database path discovery and exception handling (`app.py:53-79`) are not modelled. Nor are the Streamlit pages, charts, downloads and the free-form SQL query.
- The synthetic input of the fallback (`app.py:85-99, 166-180`) uses floating-point powers and a random generator. The fallback takes its input rows as a parameter instead.
- Floating point is modelled as exact `real` arithmetic. NaN and infinity are not modelled.
- `CreateDatabase.JoinYears`: its own contract states only which years its rows come from. The row values, the years kept and their order are stated by `CreateDatabase.JoinYearsRows`.
- `CreateDatabase.EconomicComparison`: requires positive prices, incomes and CPI values. SQLite would yield NULL for a zero divisor; the model does not represent that case.
- `LoadData.FallbackComparison`: requires positive prices, incomes and CPI values. pandas would yield infinity or NaN for a zero divisor; the model does not represent that case.
- `CreateDatabase.AffordabilityComparison` and `LoadData.FallbackGaps`: require positive ratios, for the same reason.
- `CreateDatabase.AffordabilityComparison`: the SQL has no `ORDER BY`. The model takes the rows in table order, which is ascending year for `economic_comparison`.
- `CreateDatabase.CurrentRatio`: when several rows share the largest year, SQL's scalar subquery picks one of them. The model takes the first. The view never repeats a year.
- `LoadData.DecadeSummaryTable`: pandas writes the five cells of a decade's row one at a time. The model updates a local row field by field and then stores it in the array. `.loc[decade == d]` selects a single row because the listed decades are distinct.
