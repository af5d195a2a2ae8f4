/** The fallback half of the pipeline: the derivation the dashboard's
    `load_data` performs on an in-memory `economic_comparison` table when no
    database is found. It computes the same columns as the SQL script, but
    with its own edge cases: a fixed base CPI when 2020 is absent, an error
    when a comparison year is absent, and a fixed list of decades. */
module LoadData {
  import opened Wrappers
  import opened Ordering
  import opened Stats
  import opened Records

  // ---------------------------------------------------------------------
  // Ratio and inflation adjustment

  /** The CPI used when the table has no row for 2020. */
  const FallbackBaseCpi: real := 258.8

  /** `base_cpi`: the CPI of the first row of year 2020, or the fixed
      fallback when there is no such row. */
  function FallbackBase(rows: seq<AnnualRecord>): (b: real)
    ensures BaseYear !in AnnualYears(rows) ==> b == FallbackBaseCpi
    ensures BaseYear in AnnualYears(rows) ==> exists i :: (0 <= i < |rows| && rows[i].year == BaseYear &&
      b == rows[i].cpi && forall j :: 0 <= j < i ==> rows[j].year != BaseYear)
    ensures PositiveAnnual(rows) ==> b > 0.0
  {
    match FirstIndex(AnnualYears(rows), BaseYear)
    case None => FallbackBaseCpi
    case Some(i) =>
      assert forall j :: 0 <= j < i ==> AnnualYears(rows)[j] == rows[j].year;
      rows[i].cpi
  }

  /** One row with its ratio and its two values scaled by `base / cpi`. */
  function AdjustRow(a: AnnualRecord, base: real): (r: ComparisonRecord)
    requires a.income != 0.0 && a.cpi != 0.0
    ensures r.year == a.year && r.homePrice == a.homePrice && r.income == a.income && r.cpi == a.cpi
    ensures r.ratio * a.income == a.homePrice
    ensures r.adjustedHomePrice.Some? && r.adjustedIncome.Some?
    ensures r.adjustedHomePrice.value * a.cpi == a.homePrice * base
    ensures r.adjustedIncome.value * a.cpi == a.income * base
    ensures a.homePrice > 0.0 && a.income > 0.0 && a.cpi > 0.0 && base > 0.0 ==>
      r.adjustedHomePrice.value > 0.0 && r.adjustedIncome.value > 0.0
  {
    ScaleTimesDivisor(a.homePrice, base, a.cpi);
    ScaleTimesDivisor(a.income, base, a.cpi);
    ComparisonRecord(a.year, a.homePrice, a.income, a.cpi,
      a.homePrice / a.income,
      Some(a.homePrice * (base / a.cpi)),
      Some(a.income * (base / a.cpi)))
  }

  /** Both inflation-adjusted columns of every row hold a value. */
  predicate FullyAdjusted(t: seq<ComparisonRecord>)
  {
    forall i :: 0 <= i < |t| ==> t[i].adjustedHomePrice.Some? && t[i].adjustedIncome.Some?
  }

  /** The table after the ratio and the two adjusted columns are added: the
      same rows in the same order, nothing missing. */
  function FallbackComparison(rows: seq<AnnualRecord>): (t: seq<ComparisonRecord>)
    requires PositiveAnnual(rows)
    ensures |t| == |rows| && TableYears(t) == AnnualYears(rows)
    ensures forall i :: 0 <= i < |t| ==>
      t[i].homePrice == rows[i].homePrice && t[i].income == rows[i].income && t[i].cpi == rows[i].cpi
    ensures PositiveComparison(t) && PositiveAdjusted(t) && FullyAdjusted(t)
  {
    AdjustAll(rows, FallbackBase(rows))
  }

  /** Every row adjusted with the same base CPI. */
  function AdjustAll(rows: seq<AnnualRecord>, base: real): (t: seq<ComparisonRecord>)
    requires PositiveAnnual(rows)
    ensures |t| == |rows| && TableYears(t) == AnnualYears(rows)
    ensures forall i :: 0 <= i < |t| ==>
      t[i].homePrice == rows[i].homePrice && t[i].income == rows[i].income && t[i].cpi == rows[i].cpi
    ensures base > 0.0 ==> PositiveComparison(t) && PositiveAdjusted(t)
    ensures FullyAdjusted(t)
  {
    seq(|rows|, i requires 0 <= i < |rows| => AdjustRow(rows[i], base))
  }

  /** The ratio multiplied back by the income gives the price. */
  lemma FallbackRatio(rows: seq<AnnualRecord>, i: nat)
    requires PositiveAnnual(rows) && i < |rows|
    ensures FallbackComparison(rows)[i].ratio * rows[i].income == rows[i].homePrice
  {
    assert FallbackComparison(rows)[i].ratio == rows[i].homePrice / rows[i].income;
  }

  /** Each value adjusted with base `b` is its nominal value times
      `b / cpi`. */
  lemma AdjustAllScaled(rows: seq<AnnualRecord>, b: real, i: nat)
    requires PositiveAnnual(rows) && i < |rows|
    ensures var r := AdjustAll(rows, b)[i];
      && r.adjustedHomePrice.value * rows[i].cpi == rows[i].homePrice * b
      && r.adjustedIncome.value * rows[i].cpi == rows[i].income * b
  {
    assert AdjustAll(rows, b)[i] == AdjustRow(rows[i], b);
  }

  /** The adjusted price over the adjusted income is still the ratio. */
  lemma FallbackAdjustedRatio(rows: seq<AnnualRecord>, i: nat)
    requires PositiveAnnual(rows) && i < |rows|
    ensures var r := FallbackComparison(rows)[i];
      r.adjustedHomePrice.value == r.ratio * r.adjustedIncome.value
  {
    var a, b := rows[i], FallbackBase(rows);
    assert FallbackComparison(rows)[i] == AdjustRow(a, b);
    AdjustRowScaled(a, b);
  }

  /** One row scaled with base `b`: the adjusted price is the ratio times
      the adjusted income. */
  lemma AdjustRowScaled(a: AnnualRecord, b: real)
    requires a.income > 0.0 && a.cpi > 0.0
    ensures var r := AdjustRow(a, b);
      r.adjustedHomePrice.value == r.ratio * r.adjustedIncome.value
  {
    var r := AdjustRow(a, b);
    assert r.adjustedHomePrice.value == a.homePrice * (b / a.cpi);
    assert r.adjustedIncome.value == a.income * (b / a.cpi);
    assert a.homePrice / a.income * (a.income * (b / a.cpi)) == a.homePrice * (b / a.cpi);
  }

  lemma ScaleTimesDivisor(v: real, b: real, c: real)
    requires c != 0.0
    ensures v * (b / c) * c == v * b
  {
  }

  /** In the first row of year 2020 the adjusted values are the nominal
      ones. */
  lemma FallbackBaseYearUnchanged(rows: seq<AnnualRecord>, i: nat)
    requires PositiveAnnual(rows) && i < |rows| && rows[i].year == BaseYear
    requires forall j :: 0 <= j < i ==> rows[j].year != BaseYear
    ensures FallbackComparison(rows)[i].adjustedHomePrice.value == rows[i].homePrice
    ensures FallbackComparison(rows)[i].adjustedIncome.value == rows[i].income
  {
    var ys := AnnualYears(rows);
    assert ys[i] == BaseYear;
    var k := FirstIndex(ys, BaseYear).value;
    assert ys[k] == BaseYear;
    assert forall j :: 0 <= j < i ==> ys[j] != BaseYear;
    assert k == i;
    var c := rows[i].cpi;
    assert FallbackBase(rows) == c;
    assert FallbackComparison(rows)[i] == AdjustRow(rows[i], c);
    ScaleByOwn(rows[i].homePrice, c);
    ScaleByOwn(rows[i].income, c);
  }

  lemma ScaleByOwn(v: real, c: real)
    requires c > 0.0
    ensures v * (c / c) == v
  {
    assert c / c == 1.0;
  }

  /** Without a 2020 row every value is rescaled to the fixed CPI 258.8. */
  lemma FallbackWithoutBaseYear(rows: seq<AnnualRecord>, i: nat)
    requires PositiveAnnual(rows) && i < |rows| && BaseYear !in AnnualYears(rows)
    ensures var r := FallbackComparison(rows)[i];
      && r.adjustedHomePrice.value * rows[i].cpi == rows[i].homePrice * FallbackBaseCpi
      && r.adjustedIncome.value * rows[i].cpi == rows[i].income * FallbackBaseCpi
  {
    assert FallbackBase(rows) == FallbackBaseCpi;
    assert FallbackComparison(rows)[i] == AdjustAll(rows, FallbackBaseCpi)[i];
    AdjustAllScaled(rows, FallbackBaseCpi, i);
  }

  // ---------------------------------------------------------------------
  // Gap analysis

  /** Why the fallback derivation stops: `iloc[-1]` on an empty table, or
      `.values[0]` on the empty selection of a comparison year. */
  datatype LoadError = EmptyTable | MissingComparisonYear(year: int)

  /** The position of the first year of `years` that `present` lacks. */
  function FirstMissing(present: seq<int>, years: seq<int>): (r: Option<nat>)
    ensures r.None? <==> forall i :: 0 <= i < |years| ==> years[i] in present
    ensures r.Some? ==> (r.value < |years| && years[r.value] !in present &&
      forall j :: 0 <= j < r.value ==> years[j] in present)
  {
    if years == [] then None
    else if years[0] !in present then Some(0)
    else match FirstMissing(present, years[1..])
      case None => None
      case Some(k) => Some(k + 1)
  }

  /** The historical ratio of each year, each the ratio of the first row of
      that year, or the first year without a row. */
  function LookupRatios(t: seq<ComparisonRecord>, years: seq<int>): (r: Result<seq<real>, LoadError>)
    ensures r.Success? <==> forall i :: 0 <= i < |years| ==> years[i] in TableYears(t)
    ensures r.Success? ==> (|r.value| == |years| &&
      forall i :: 0 <= i < |years| ==> years[i] in TableYears(t) && r.value[i] == RatioOf(t, years[i]))
    ensures r.Failure? ==> exists k :: (0 <= k < |years| && years[k] !in TableYears(t) &&
      (forall j :: 0 <= j < k ==> years[j] in TableYears(t)) && r.error == MissingComparisonYear(years[k]))
  {
    match FirstMissing(TableYears(t), years)
    case Some(k) => Failure(MissingComparisonYear(years[k]))
    case None => Success(seq(|years|, i requires 0 <= i < |years| => RatioOf(t, years[i])))
  }

  /** The loop that collects `historical_ratios`, one `.values[0]` lookup per
      comparison year, stopping at the first year the table lacks. */
  method HistoricalRatios(t: seq<ComparisonRecord>, years: seq<int>) returns (r: Result<seq<real>, LoadError>)
    ensures r == LookupRatios(t, years)
  {
    var ratios: seq<real> := [];
    var i := 0;
    while i < |years|
      invariant 0 <= i <= |years|
      invariant forall j :: 0 <= j < i ==> years[j] in TableYears(t)
      invariant ratios == seq(i, j requires 0 <= j < i => RatioOf(t, years[j]))
    {
      var found := FirstIndex(TableYears(t), years[i]);
      if found.None? {
        var k := FirstMissing(TableYears(t), years).value;
        assert !(k < i) && !(i < k);
        return Failure(MissingComparisonYear(years[i]));
      }
      ratios := ratios + [t[found.value].ratio];
      i := i + 1;
    }
    return Success(ratios);
  }

  /** A ratio looked up in a positive table is positive. */
  lemma RatioOfPositive(t: seq<ComparisonRecord>, y: int)
    requires PositiveComparison(t) && y in TableYears(t)
    ensures RatioOf(t, y) > 0.0
  {
    var k := FirstIndex(TableYears(t), y).value;
    assert k < |t|;
  }

  /** The gap table of the fallback: every comparison year, in the fixed
      order, compared with the ratio of the last row. */
  function FallbackGaps(t: seq<ComparisonRecord>): (r: Result<seq<GapRecord>, LoadError>)
    requires PositiveComparison(t)
    ensures r.Success? <==> |t| > 0 && forall y :: y in ComparisonYears ==> y in TableYears(t)
    ensures |t| == 0 ==> r == Failure(EmptyTable)
    ensures |t| > 0 && r.Failure? ==> exists k :: (0 <= k < |ComparisonYears| &&
      ComparisonYears[k] !in TableYears(t) && (forall j :: 0 <= j < k ==> ComparisonYears[j] in TableYears(t)) &&
      r.error == MissingComparisonYear(ComparisonYears[k]))
    ensures r.Success? ==>
      && GapYears(r.value) == ComparisonYears
      && forall k :: 0 <= k < |r.value| ==> (ComparisonYears[k] in TableYears(t) &&
           r.value[k] == Gap(ComparisonYears[k], t[|t| - 1].ratio, RatioOf(t, ComparisonYears[k])))
  {
    if |t| == 0 then Failure(EmptyTable)
    else match LookupRatios(t, ComparisonYears)
      case Failure(e) => Failure(e)
      case Success(historical) =>
        var current := t[|t| - 1].ratio;
        assert forall i :: 0 <= i < |ComparisonYears| ==> historical[i] > 0.0 by {
          forall i | 0 <= i < |ComparisonYears| ensures historical[i] > 0.0 {
            RatioOfPositive(t, ComparisonYears[i]);
          }
        }
        var g := seq(|ComparisonYears|, i requires 0 <= i < |ComparisonYears| =>
          Gap(ComparisonYears[i], current, historical[i]));
        assert GapYears(g) == ComparisonYears;
        Success(g)
  }

  /** What a gap row means: cutting the current price by the first
      percentage, or raising the current income by the second, brings the
      latest ratio back to the comparison year's ratio. */
  lemma FallbackGapsRestoreRatio(t: seq<ComparisonRecord>, k: nat)
    requires PositiveComparison(t) && FallbackGaps(t).Success? && k < |FallbackGaps(t).value|
    ensures var g := FallbackGaps(t).value[k];
      && g.currentRatio == t[|t| - 1].ratio
      && ComparisonYears[k] in TableYears(t)
      && g.currentRatio * (1.0 - g.homePriceDecreaseNeeded / 100.0) == RatioOf(t, ComparisonYears[k])
      && RatioOf(t, ComparisonYears[k]) * (1.0 + g.incomeIncreaseNeeded / 100.0) == g.currentRatio
  {
    var y := ComparisonYears[k];
    var c, h := t[|t| - 1].ratio, RatioOf(t, y);
    RatioOfPositive(t, y);
    var g := FallbackGaps(t).value[k];
    assert g == Gap(y, c, h);
    GapMeaning(g, y, c, h);
  }

  /** The facts of `Gap` about one given gap row. */
  lemma GapMeaning(g: GapRecord, y: int, c: real, h: real)
    requires c != 0.0 && h != 0.0 && g == Gap(y, c, h)
    ensures g.currentRatio == c
    ensures c * (1.0 - g.homePriceDecreaseNeeded / 100.0) == h
    ensures h * (1.0 + g.incomeIncreaseNeeded / 100.0) == c
  {
  }

  // ---------------------------------------------------------------------
  // Decade summary

  /** The decades the dashboard summarises, in order. */
  const Decades: seq<int> := [1970, 1980, 1990, 2000, 2010, 2020]

  /** The listed decades ascend. */
  lemma DecadesAscending()
    ensures StrictlyIncreasing(Decades)
  {
  }

  /** `(year >= lo) & (year < hi)`: the selected rows, in table order. */
  function InYearRange(t: seq<ComparisonRecord>, lo: int, hi: int): (rows: seq<ComparisonRecord>)
    ensures forall r :: r in rows <==> r in t && lo <= r.year < hi
  {
    if t == [] then []
    else
      var rest := InYearRange(t[1..], lo, hi);
      assert forall r :: r in t <==> r == t[0] || r in t[1..];
      if lo <= t[0].year < hi then [t[0]] + rest else rest
  }

  /** Each row occurs in the selection as often as in the table, or not at
      all. */
  lemma {:induction false} InYearRangeMultiset(t: seq<ComparisonRecord>, lo: int, hi: int, r: ComparisonRecord)
    ensures multiset(InYearRange(t, lo, hi))[r] == if lo <= r.year < hi then multiset(t)[r] else 0
  {
    if t != [] {
      InYearRangeMultiset(t[1..], lo, hi, r);
      assert t == [t[0]] + t[1..];
    }
  }

  /** The summary row of decade `d` as the loop leaves it: the five means
      over the decade's rows, all None when it has none. */
  function DecadeSlot(t: seq<ComparisonRecord>, d: int): (r: DecadeRecord)
    ensures r.decade == d
    ensures r.avgHomePrice.Some? <==> exists i :: 0 <= i < |t| && d <= t[i].year < d + 10
  {
    var rows := InYearRange(t, d, d + 10);
    assert |rows| > 0 ==> rows[0] in rows;
    Summarize(d, rows)
  }

  /** A summary row without a missing value. */
  predicate Complete(s: DecadeRecord)
  {
    s.avgHomePrice.Some? && s.avgIncome.Some? && s.avgPriceToIncomeRatio.Some? &&
    s.avgAdjHomePrice.Some? && s.avgAdjIncome.Some?
  }

  /** `dropna`: the rows without a missing value, in order. */
  function DropIncomplete(s: seq<DecadeRecord>): (r: seq<DecadeRecord>)
    ensures forall x :: x in r <==> x in s && Complete(x)
  {
    if s == [] then []
    else
      var rest := DropIncomplete(s[1..]);
      assert forall x :: x in s <==> x == s[0] || x in s[1..];
      if Complete(s[0]) then [s[0]] + rest else rest
  }

  /** `dropna` keeps the rows in their order. */
  lemma {:induction false} DropIncompleteAscending(s: seq<DecadeRecord>)
    requires StrictlyIncreasing(DecadeKeys(s))
    ensures StrictlyIncreasing(DecadeKeys(DropIncomplete(s)))
  {
    if s != [] {
      var rest := DropIncomplete(s[1..]);
      assert DecadeKeys(s) == [s[0].decade] + DecadeKeys(s[1..]);
      AscendingCons(s[0].decade, DecadeKeys(s[1..]));
      DropIncompleteAscending(s[1..]);
      if Complete(s[0]) {
        assert DecadeKeys([s[0]] + rest) == [s[0].decade] + DecadeKeys(rest);
        forall z | z in DecadeKeys(rest) ensures s[0].decade < z {
          var j :| 0 <= j < |rest| && DecadeKeys(rest)[j] == z;
          assert rest[j] in s[1..];
          var m :| 0 <= m < |s[1..]| && s[1..][m] == rest[j];
          assert DecadeKeys(s[1..])[m] == z;
          assert z in DecadeKeys(s[1..]);
        }
        AscendingCons(s[0].decade, DecadeKeys(rest));
      }
    }
  }

  /** One slot per listed decade, before `dropna`. */
  function DecadeSlots(t: seq<ComparisonRecord>): seq<DecadeRecord>
  {
    seq(|Decades|, i requires 0 <= i < |Decades| => DecadeSlot(t, Decades[i]))
  }

  /** Each slot is the one of a listed decade. */
  lemma SlotsListed(t: seq<ComparisonRecord>)
    ensures forall x :: x in DecadeSlots(t) ==> x.decade in Decades && x == DecadeSlot(t, x.decade)
  {
  }

  /** The fallback decade summary: in ascending order, the complete slots of
      listed decades. */
  function FallbackDecades(t: seq<ComparisonRecord>): (s: seq<DecadeRecord>)
    ensures StrictlyIncreasing(DecadeKeys(s))
    ensures forall x :: x in s ==> Complete(x) && x.decade in Decades && x == DecadeSlot(t, x.decade)
  {
    SlotKeys(t);
    DecadesAscending();
    DropIncompleteAscending(DecadeSlots(t));
    SlotsListed(t);
    DropIncomplete(DecadeSlots(t))
  }

  /** The decade loop: a table with one row per listed decade, whose five
      columns the loop fills with the decade's means, or with None for a
      decade without rows, followed by `dropna`. */
  method DecadeSummaryTable(t: seq<ComparisonRecord>) returns (summary: seq<DecadeRecord>)
    ensures summary == FallbackDecades(t)
  {
    var table := new DecadeRecord[|Decades|](i requires 0 <= i < |Decades| =>
      DecadeRecord(Decades[i], None, None, None, None, None));
    for i := 0 to table.Length
      invariant forall j :: 0 <= j < table.Length ==> table[j].decade == Decades[j]
      invariant forall j :: 0 <= j < i ==> table[j] == DecadeSlot(t, table[j].decade)
    {
      var d := table[i].decade;
      var row := FillDecadeRow(table[i], InYearRange(t, d, d + 10));
      assert row == DecadeSlot(t, d);
      table[i] := row;
    }
    assert table[..] == DecadeSlots(t);
    summary := DropIncomplete(table[..]);
  }

  /** One pass of the decade loop: the five cells of the decade's row get
      the means of the selected rows, or None when no row was selected. */
  method FillDecadeRow(row: DecadeRecord, rows: seq<ComparisonRecord>) returns (filled: DecadeRecord)
    ensures filled == Summarize(row.decade, rows)
  {
    filled := row;
    if |rows| > 0 {
      filled := filled.(avgHomePrice := Avg(Column(rows, HomePrice)));
      filled := filled.(avgIncome := Avg(Column(rows, Income)));
      filled := filled.(avgPriceToIncomeRatio := Avg(Column(rows, Ratio)));
      filled := filled.(avgAdjHomePrice := Avg(Column(rows, AdjustedHomePrice)));
      filled := filled.(avgAdjIncome := Avg(Column(rows, AdjustedIncome)));
    } else {
      filled := filled.(avgHomePrice := None);
      filled := filled.(avgIncome := None);
      filled := filled.(avgPriceToIncomeRatio := None);
      filled := filled.(avgAdjHomePrice := None);
      filled := filled.(avgAdjIncome := None);
    }
  }

  /** A decade with rows, all of them positive and adjusted, has all five
      means; one without rows has none. */
  lemma DecadeSlotComplete(t: seq<ComparisonRecord>, d: int)
    requires PositiveComparison(t) && FullyAdjusted(t)
    ensures Complete(DecadeSlot(t, d)) <==> exists i :: 0 <= i < |t| && d <= t[i].year < d + 10
  {
    var rows := InYearRange(t, d, d + 10);
    if exists i :: 0 <= i < |t| && d <= t[i].year < d + 10 {
      var i :| 0 <= i < |t| && d <= t[i].year < d + 10;
      assert t[i] in rows;
      forall j | 0 <= j < |rows|
        ensures rows[j].homePrice > 0.0 && rows[j].income > 0.0 && rows[j].cpi > 0.0 && rows[j].ratio > 0.0
        ensures rows[j].adjustedHomePrice.Some? && rows[j].adjustedIncome.Some?
      {
        assert rows[j] in t;
      }
      SummarizeNonEmpty(d, rows);
      forall f: Field | f == AdjustedHomePrice || f == AdjustedIncome
        ensures Avg(Column(rows, f)).Some?
      {
        ColumnAt(rows, f, 0);
      }
    }
  }

  /** Slot `m` is the one of the `m`-th listed decade. */
  lemma SlotKeys(t: seq<ComparisonRecord>)
    ensures DecadeKeys(DecadeSlots(t)) == Decades
  {
  }

  /** A listed decade with a row survives `dropna`. */
  lemma FallbackDecadeKept(t: seq<ComparisonRecord>, m: nat)
    requires PositiveComparison(t) && FullyAdjusted(t) && m < |Decades|
    requires exists i :: 0 <= i < |t| && Decades[m] <= t[i].year < Decades[m] + 10
    ensures Decades[m] in DecadeKeys(FallbackDecades(t))
  {
    var slots := DecadeSlots(t);
    var s := FallbackDecades(t);
    DecadeSlotComplete(t, Decades[m]);
    assert slots[m] in slots;
    var k :| 0 <= k < |s| && s[k] == slots[m];
    assert DecadeKeys(s)[k] == Decades[m];
  }

  /** A surviving row is the slot of a listed decade that has a row. */
  lemma FallbackDecadeSurvivor(t: seq<ComparisonRecord>, k: nat)
    requires PositiveComparison(t) && FullyAdjusted(t) && k < |FallbackDecades(t)|
    ensures var x := FallbackDecades(t)[k];
      && x.decade in Decades
      && x == DecadeSlot(t, x.decade)
      && exists i :: 0 <= i < |t| && x.decade <= t[i].year < x.decade + 10
  {
    var slots := DecadeSlots(t);
    var x := FallbackDecades(t)[k];
    assert x in slots && Complete(x);
    var m :| 0 <= m < |slots| && slots[m] == x;
    DecadeSlotComplete(t, Decades[m]);
  }

  /** The fallback summary keeps, in the ascending order of the fixed list,
      exactly the listed decades that hold at least one row; each surviving
      row averages its five columns over the rows with
      `decade <= year < decade + 10`. */
  lemma FallbackDecadesRows(t: seq<ComparisonRecord>)
    requires PositiveComparison(t) && FullyAdjusted(t)
    ensures var s := FallbackDecades(t);
      && StrictlyIncreasing(DecadeKeys(s))
      && (forall d :: d in DecadeKeys(s) <==>
            d in Decades && exists i :: 0 <= i < |t| && d <= t[i].year < d + 10)
      && forall k :: 0 <= k < |s| ==> s[k] == Summarize(s[k].decade, InYearRange(t, s[k].decade, s[k].decade + 10))
  {
    SlotKeys(t);
    DecadesAscending();
    DropIncompleteAscending(DecadeSlots(t));
    FallbackDecadesKeys(t);
    FallbackDecadesMeans(t);
  }

  /** Each surviving row is its decade's slot. */
  lemma FallbackDecadesMeans(t: seq<ComparisonRecord>)
    requires PositiveComparison(t) && FullyAdjusted(t)
    ensures var s := FallbackDecades(t);
      forall k :: 0 <= k < |s| ==> s[k] == DecadeSlot(t, s[k].decade)
  {
    var s := FallbackDecades(t);
    forall k | 0 <= k < |s| ensures s[k] == DecadeSlot(t, s[k].decade) {
      FallbackDecadeSurvivor(t, k);
    }
  }

  lemma FallbackDecadesKeys(t: seq<ComparisonRecord>)
    requires PositiveComparison(t) && FullyAdjusted(t)
    ensures forall d :: d in DecadeKeys(FallbackDecades(t)) <==>
      d in Decades && exists i :: 0 <= i < |t| && d <= t[i].year < d + 10
  {
    var s := FallbackDecades(t);
    forall d ensures d in DecadeKeys(s) <==> d in Decades && exists i :: 0 <= i < |t| && d <= t[i].year < d + 10 {
      if d in DecadeKeys(s) {
        var k :| 0 <= k < |s| && DecadeKeys(s)[k] == d;
        FallbackDecadeSurvivor(t, k);
      }
      if d in Decades && exists i :: 0 <= i < |t| && d <= t[i].year < d + 10 {
        var m :| 0 <= m < |Decades| && Decades[m] == d;
        FallbackDecadeKept(t, m);
      }
    }
  }

  /** Rows with the same multiset give the same selection, up to order. */
  lemma InYearRangePermutation(a: seq<ComparisonRecord>, b: seq<ComparisonRecord>, lo: int, hi: int)
    requires multiset(a) == multiset(b)
    ensures multiset(InYearRange(a, lo, hi)) == multiset(InYearRange(b, lo, hi))
  {
    forall r ensures multiset(InYearRange(a, lo, hi))[r] == multiset(InYearRange(b, lo, hi))[r] {
      InYearRangeMultiset(a, lo, hi, r);
      InYearRangeMultiset(b, lo, hi, r);
    }
  }

  /** The fallback summary depends only on the multiset of rows. */
  lemma FallbackDecadesPermutation(a: seq<ComparisonRecord>, b: seq<ComparisonRecord>)
    requires multiset(a) == multiset(b)
    ensures FallbackDecades(a) == FallbackDecades(b)
  {
    forall i | 0 <= i < |Decades| ensures DecadeSlots(a)[i] == DecadeSlots(b)[i] {
      DecadeSlotPermutation(a, b, Decades[i]);
    }
    assert DecadeSlots(a) == DecadeSlots(b);
  }

  lemma DecadeSlotPermutation(a: seq<ComparisonRecord>, b: seq<ComparisonRecord>, d: int)
    requires multiset(a) == multiset(b)
    ensures DecadeSlot(a, d) == DecadeSlot(b, d)
  {
    InYearRangePermutation(a, b, d, d + 10);
    SummarizePermutation(d, InYearRange(a, d, d + 10), InYearRange(b, d, d + 10));
  }

  // ---------------------------------------------------------------------
  // The whole fallback derivation

  /** The three tables the fallback derives. */
  datatype FallbackTables = FallbackTables(
    comparison: seq<ComparisonRecord>,
    affordability: seq<GapRecord>,
    decades: seq<DecadeRecord>)

  /** The fallback derivation as a function of the input rows. It succeeds
      exactly when the input is non-empty and holds every comparison year;
      its tables then keep the input's years and list every comparison year. */
  function Fallback(rows: seq<AnnualRecord>): (r: Result<FallbackTables, LoadError>)
    requires PositiveAnnual(rows)
    ensures r.Success? <==> |rows| > 0 && forall y :: y in ComparisonYears ==> y in AnnualYears(rows)
    ensures |rows| == 0 ==> r == Failure(EmptyTable)
    ensures r.Success? ==>
      && TableYears(r.value.comparison) == AnnualYears(rows)
      && GapYears(r.value.affordability) == ComparisonYears
  {
    var t := FallbackComparison(rows);
    match FallbackGaps(t)
    case Failure(e) => Failure(e)
    case Success(g) => Success(FallbackTables(t, g, FallbackDecades(t)))
  }

  /** The steps of `load_data` after the input table is built, in the
      source's order: ratio and adjustment, the latest ratio, the loop over
      the comparison years, the gap columns, then the decade loop. */
  method DeriveFallbackTables(rows: seq<AnnualRecord>) returns (r: Result<FallbackTables, LoadError>)
    requires PositiveAnnual(rows)
    ensures r == Fallback(rows)
  {
    var t := FallbackComparison(rows);
    if |t| == 0 {
      return Failure(EmptyTable);
    }
    var current := t[|t| - 1].ratio;
    var historical := HistoricalRatios(t, ComparisonYears);
    if historical.Failure? {
      return Failure(historical.error);
    }
    var h := historical.value;
    forall i | 0 <= i < |ComparisonYears| ensures h[i] > 0.0 {
      RatioOfPositive(t, ComparisonYears[i]);
    }
    var gaps := seq(|ComparisonYears|, i requires 0 <= i < |ComparisonYears| =>
      Gap(ComparisonYears[i], current, h[i]));
    var decades := DecadeSummaryTable(t);
    r := Success(FallbackTables(t, gaps, decades));
  }
}
