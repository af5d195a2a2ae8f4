/** The rows of the pipeline's tables, the columns read from them, and the
    two formulas both versions of the pipeline share: the gap-analysis
    percentages and the per-decade averages. */
module Records {
  import opened Wrappers
  import opened Ordering
  import opened Stats

  /** One observation of an indicator, with the calendar year taken from its
      date; `None` stands for an empty cell, which the SQL store holds as NULL. */
  datatype Observation = Observation(year: int, value: Option<real>)

  /** A row of `annual_economic_indicators`: the yearly means of the three
      indicators. */
  datatype AnnualRecord = AnnualRecord(
    year: int,
    homePrice: real,
    income: real,
    cpi: real)

  /** A row of `economic_comparison`. The inflation-adjusted columns are NULL
      when the base-year CPI is. */
  datatype ComparisonRecord = ComparisonRecord(
    year: int,
    homePrice: real,
    income: real,
    cpi: real,
    ratio: real,
    adjustedHomePrice: Option<real>,
    adjustedIncome: Option<real>)

  /** A row of `affordability_comparison`. */
  datatype GapRecord = GapRecord(
    comparisonYear: int,
    currentRatio: real,
    historicalRatio: real,
    homePriceDecreaseNeeded: real,
    incomeIncreaseNeeded: real)

  /** A row of `decade_summary`; an average is missing when no value was
      there to average. */
  datatype DecadeRecord = DecadeRecord(
    decade: int,
    avgHomePrice: Option<real>,
    avgIncome: Option<real>,
    avgPriceToIncomeRatio: Option<real>,
    avgAdjHomePrice: Option<real>,
    avgAdjIncome: Option<real>)

  /** Prices, incomes and CPI values are positive: no ratio divides by zero. */
  predicate PositiveAnnual(t: seq<AnnualRecord>)
  {
    forall i :: 0 <= i < |t| ==> t[i].homePrice > 0.0 && t[i].income > 0.0 && t[i].cpi > 0.0
  }

  predicate PositiveComparison(t: seq<ComparisonRecord>)
  {
    forall i :: 0 <= i < |t| ==>
      t[i].homePrice > 0.0 && t[i].income > 0.0 && t[i].cpi > 0.0 && t[i].ratio > 0.0
  }

  /** Every inflation-adjusted value that is present is positive. */
  predicate PositiveAdjusted(t: seq<ComparisonRecord>)
  {
    forall i :: 0 <= i < |t| ==>
      (t[i].adjustedHomePrice.Some? ==> t[i].adjustedHomePrice.value > 0.0) &&
      (t[i].adjustedIncome.Some? ==> t[i].adjustedIncome.value > 0.0)
  }

  function AnnualYears(t: seq<AnnualRecord>): seq<int>
  {
    seq(|t|, i requires 0 <= i < |t| => t[i].year)
  }

  function TableYears(t: seq<ComparisonRecord>): seq<int>
  {
    seq(|t|, i requires 0 <= i < |t| => t[i].year)
  }

  function GapYears(g: seq<GapRecord>): seq<int>
  {
    seq(|g|, i requires 0 <= i < |g| => g[i].comparisonYear)
  }

  function DecadeKeys(d: seq<DecadeRecord>): seq<int>
  {
    seq(|d|, i requires 0 <= i < |d| => d[i].decade)
  }

  /** The year whose CPI anchors the inflation adjustment. */
  const BaseYear: int := 2020

  /** The years the gap analysis compares with the latest year, in order. */
  const ComparisonYears: seq<int> := [1970, 1980, 1990, 2000, 2010]

  /** The ratio of the first row of year `y`: the row a scalar subquery or
      pandas' `.values[0]` picks. */
  function RatioOf(t: seq<ComparisonRecord>, y: int): real
    requires y in TableYears(t)
  {
    t[FirstIndex(TableYears(t), y).value].ratio
  }

  /** In a table without repeated years, the ratio of year `t[i].year` is
      the ratio of row `i`. */
  lemma RatioOfAscending(t: seq<ComparisonRecord>, i: nat)
    requires StrictlyIncreasing(TableYears(t)) && i < |t|
    ensures t[i].year in TableYears(t) && RatioOf(t, t[i].year) == t[i].ratio
  {
    assert TableYears(t)[i] == t[i].year;
    FirstIndexAscending(TableYears(t), i);
  }

  /** The gap-analysis row for one comparison year: the percentage by which
      the current price would have to fall, and the one by which the current
      income would have to rise, for the ratio to return to its historical
      value: lowering the price by the first, or raising the income by the
      second, turns the current ratio into the historical one. */
  function Gap(year: int, current: real, historical: real): (g: GapRecord)
    requires current != 0.0 && historical != 0.0
    ensures g.comparisonYear == year && g.currentRatio == current && g.historicalRatio == historical
    ensures current * (1.0 - g.homePriceDecreaseNeeded / 100.0) == historical
    ensures historical * (1.0 + g.incomeIncreaseNeeded / 100.0) == current
  {
    var decrease := (1.0 - historical / current) * 100.0;
    var increase := (current / historical - 1.0) * 100.0;
    assert 1.0 - decrease / 100.0 == historical / current;
    assert 1.0 + increase / 100.0 == current / historical;
    GapRecord(year, current, historical, decrease, increase)
  }

  /** The two percentages are not opposites of each other unless the two
      ratios are equal: the price cut and the income rise differ because the
      ratio is a quotient. */
  lemma GapNotSymmetric(year: int, current: real, historical: real)
    requires current > 0.0 && historical > 0.0
    ensures var g := Gap(year, current, historical);
      g.homePriceDecreaseNeeded == -g.incomeIncreaseNeeded <==> current == historical
  {
    var g := Gap(year, current, historical);
    var q := historical / current;
    assert current / historical == 1.0 / q;
    assert g.homePriceDecreaseNeeded + g.incomeIncreaseNeeded == (1.0 / q - q) * 100.0;
    if g.homePriceDecreaseNeeded == -g.incomeIncreaseNeeded {
      assert 1.0 / q == q;
      assert q * q == 1.0;
      assert q == 1.0;
    }
  }

  /** A current ratio of 5 against a historical ratio of 2: the price must
      fall by 60 percent, or the income rise by 150 percent. */
  lemma GapExample()
    ensures Gap(1970, 5.0, 2.0).homePriceDecreaseNeeded == 60.0
    ensures Gap(1970, 5.0, 2.0).incomeIncreaseNeeded == 150.0
  {
  }

  /** The columns a decade summary averages. */
  datatype Field = HomePrice | Income | Ratio | AdjustedHomePrice | AdjustedIncome

  function FieldValue(r: ComparisonRecord, f: Field): Option<real>
  {
    match f
    case HomePrice => Some(r.homePrice)
    case Income => Some(r.income)
    case Ratio => Some(r.ratio)
    case AdjustedHomePrice => r.adjustedHomePrice
    case AdjustedIncome => r.adjustedIncome
  }

  /** One column of a table, in row order. */
  function Column(rows: seq<ComparisonRecord>, f: Field): (c: seq<Option<real>>)
    ensures |c| == |rows|
  {
    if rows == [] then [] else [FieldValue(rows[0], f)] + Column(rows[1..], f)
  }

  /** The row of a decade summary for the rows of one decade: the mean of
      each of the five columns, missing values skipped. */
  function Summarize(decade: int, rows: seq<ComparisonRecord>): (r: DecadeRecord)
    ensures r.decade == decade
    ensures |rows| == 0 ==> r == DecadeRecord(decade, None, None, None, None, None)
    ensures |rows| > 0 ==> r.avgHomePrice.Some? && r.avgIncome.Some? && r.avgPriceToIncomeRatio.Some?
  {
    NominalColumnsPresent(rows);
    DecadeRecord(decade,
      Avg(Column(rows, HomePrice)),
      Avg(Column(rows, Income)),
      Avg(Column(rows, Ratio)),
      Avg(Column(rows, AdjustedHomePrice)),
      Avg(Column(rows, AdjustedIncome)))
  }

  lemma {:induction false} ColumnAppend(a: seq<ComparisonRecord>, b: seq<ComparisonRecord>, f: Field)
    ensures Column(a + b, f) == Column(a, f) + Column(b, f)
  {
    if a == [] {
      assert a + b == b;
    } else {
      assert (a + b)[1..] == a[1..] + b;
      ColumnAppend(a[1..], b, f);
    }
  }

  lemma {:induction false} ColumnAt(rows: seq<ComparisonRecord>, f: Field, i: nat)
    requires i < |rows|
    ensures Column(rows, f)[i] == FieldValue(rows[i], f)
  {
    if i > 0 {
      ColumnAt(rows[1..], f, i - 1);
    }
  }

  /** Rows with the same multiset give columns with the same multiset. */
  lemma {:induction false} ColumnPermutation(a: seq<ComparisonRecord>, b: seq<ComparisonRecord>, f: Field)
    requires multiset(a) == multiset(b)
    ensures multiset(Column(a, f)) == multiset(Column(b, f))
    decreases |a|
  {
    if a == [] {
      assert |b| == |multiset(b)| == 0;
    } else {
      var x, rest := a[0], a[1..];
      assert a == [x] + rest;
      assert x in multiset(b);
      var i :| 0 <= i < |b| && b[i] == x;
      ColumnPermutationStep(x, rest, b, i, f);
    }
  }

  /** The inductive step of ColumnPermutation: the first row of `a` is row
      `i` of `b`. */
  lemma {:induction false} ColumnPermutationStep(x: ComparisonRecord, rest: seq<ComparisonRecord>,
                                                 b: seq<ComparisonRecord>, i: nat, f: Field)
    requires i < |b| && b[i] == x
    requires multiset([x] + rest) == multiset(b)
    ensures multiset(Column([x] + rest, f)) == multiset(Column(b, f))
    decreases |rest| + 1, 0
  {
    var front, back := b[..i], b[i + 1..];
    RemoveOne(b, i);
    assert b == front + ([x] + back);
    assert multiset(rest) == multiset(front + back);
    ColumnPermutation(rest, front + back, f);
    ColumnMoveFront(x, front, back, rest, f);
  }

  lemma ColumnMoveFront(x: ComparisonRecord, front: seq<ComparisonRecord>, back: seq<ComparisonRecord>,
                        rest: seq<ComparisonRecord>, f: Field)
    requires multiset(Column(rest, f)) == multiset(Column(front + back, f))
    ensures multiset(Column([x] + rest, f)) == multiset(Column(front + ([x] + back), f))
  {
    ColumnAppend([x], rest, f);
    ColumnAppend(front, [x] + back, f);
    ColumnAppend([x], back, f);
    ColumnAppend(front, back, f);
    MultisetMoveFront(Column(front, f), Column([x], f), Column(back, f), Column(rest, f));
  }

  /** Moving one part of a sequence to its front keeps its multiset. */
  lemma MultisetMoveFront<T>(front: seq<T>, mid: seq<T>, back: seq<T>, rest: seq<T>)
    requires multiset(front + back) == multiset(rest)
    ensures multiset(front + (mid + back)) == multiset(mid + rest)
  {
    calc {
      multiset(front + (mid + back));
      multiset(front) + multiset(mid) + multiset(back);
      multiset(front + back) + multiset(mid);
    }
  }

  /** A decade's averages do not depend on the order of its rows. */
  lemma SummarizePermutation(decade: int, a: seq<ComparisonRecord>, b: seq<ComparisonRecord>)
    requires multiset(a) == multiset(b)
    ensures Summarize(decade, a) == Summarize(decade, b)
  {
    forall f: Field ensures Avg(Column(a, f)) == Avg(Column(b, f)) {
      ColumnPermutation(a, b, f);
      AvgPermutation(Column(a, f), Column(b, f));
    }
  }

  /** A decade with at least one row has a mean home price, income and
      ratio, each positive when the rows are. */
  lemma SummarizeNonEmpty(decade: int, rows: seq<ComparisonRecord>)
    requires |rows| > 0 && PositiveComparison(rows)
    ensures var s := Summarize(decade, rows);
      && s.avgHomePrice.Some? && s.avgHomePrice.value > 0.0
      && s.avgIncome.Some? && s.avgIncome.value > 0.0
      && s.avgPriceToIncomeRatio.Some? && s.avgPriceToIncomeRatio.value > 0.0
  {
    forall f: Field | f == HomePrice || f == Income || f == Ratio
      ensures Avg(Column(rows, f)).Some? && Avg(Column(rows, f)).value > 0.0
    {
      var c := Column(rows, f);
      ColumnAt(rows, f, 0);
      forall i | 0 <= i < |c| && c[i].Some? ensures c[i].value > 0.0 {
        ColumnAt(rows, f, i);
      }
      AvgPositive(c);
    }
  }

  /** Every column of no rows is empty; the price, income and ratio columns
      of some rows hold a value. */
  lemma NominalColumnsPresent(rows: seq<ComparisonRecord>)
    ensures forall f :: |rows| == 0 ==> Column(rows, f) == []
    ensures |rows| > 0 ==>
      AnyPresent(Column(rows, HomePrice)) && AnyPresent(Column(rows, Income)) && AnyPresent(Column(rows, Ratio))
  {
    if |rows| > 0 {
      ColumnAt(rows, HomePrice, 0);
      ColumnAt(rows, Income, 0);
      ColumnAt(rows, Ratio, 0);
    }
  }
}
