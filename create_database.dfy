/** The SQL half of the pipeline: the view `annual_economic_indicators` and
    the tables `economic_comparison`, `affordability_comparison` and
    `decade_summary` that the database script derives from the three raw
    indicator tables. Each statement is a function of the tables it reads. */
module CreateDatabase {
  import opened Wrappers
  import opened Ordering
  import opened Stats
  import opened Records

  // ---------------------------------------------------------------------
  // annual_economic_indicators

  /** Every observed value is positive (NULLs aside). */
  predicate PositiveObservations(obs: seq<Observation>)
  {
    forall i :: 0 <= i < |obs| && obs[i].value.Some? ==> obs[i].value.value > 0.0
  }

  /** Some observation of year `y` holds a value. */
  predicate Observed(obs: seq<Observation>, y: int)
  {
    exists i :: 0 <= i < |obs| && obs[i].year == y && obs[i].value.Some?
  }

  /** The `year` column of a raw indicator table. */
  function ObservationYears(obs: seq<Observation>): seq<int>
  {
    seq(|obs|, i requires 0 <= i < |obs| => obs[i].year)
  }

  /** The `value` column with every row of another year blanked out: its
      present values are exactly the values of the group of year `y`. */
  function GroupValues(obs: seq<Observation>, y: int): seq<Option<real>>
  {
    seq(|obs|, i requires 0 <= i < |obs| => if obs[i].year == y then obs[i].value else None)
  }

  /** `AVG(value) ... GROUP BY year` for the group of year `y`; NULL when the
      group has no value, and also when there is no group, which is what the
      LEFT JOIN yields for a year missing from the joined table. */
  function AnnualMean(obs: seq<Observation>, y: int): (r: Option<real>)
    ensures r.Some? <==> Observed(obs, y)
  {
    var vs := GroupValues(obs, y);
    assert forall i :: 0 <= i < |obs| ==> vs[i] == if obs[i].year == y then obs[i].value else None;
    Avg(vs)
  }

  /** The mean of positive observations is positive. */
  lemma AnnualMeanPositive(obs: seq<Observation>, y: int)
    requires PositiveObservations(obs) && Observed(obs, y)
    ensures AnnualMean(obs, y).value > 0.0
  {
    var vs := GroupValues(obs, y);
    var i :| 0 <= i < |obs| && obs[i].year == y && obs[i].value.Some?;
    assert vs[i].Some?;
    forall k | 0 <= k < |vs| && vs[k].Some? ensures vs[k].value > 0.0 {
      assert vs[k] == obs[k].value;
    }
    AvgPositive(vs);
  }

  /** The mean of a year's observations lies between their least and their
      greatest value. */
  lemma AnnualMeanBetween(obs: seq<Observation>, y: int, lo: real, hi: real)
    requires Observed(obs, y)
    requires forall i :: 0 <= i < |obs| && obs[i].year == y && obs[i].value.Some? ==>
      lo <= obs[i].value.value <= hi
    ensures lo <= AnnualMean(obs, y).value <= hi
  {
    var vs := GroupValues(obs, y);
    var i :| 0 <= i < |obs| && obs[i].year == y && obs[i].value.Some?;
    assert vs[i].Some?;
    forall k | 0 <= k < |vs| && vs[k].Some? ensures lo <= vs[k].value <= hi {
      assert vs[k] == obs[k].value;
    }
    AvgBetween(vs, lo, hi);
  }

  /** The joined row of year `y`: its three means, or nothing when one of
      them is NULL, which the view's `IS NOT NULL` filters drop. */
  function JoinRow(hp: seq<Observation>, inc: seq<Observation>, cpi: seq<Observation>, y: int)
    : (r: Option<AnnualRecord>)
    ensures r.Some? <==> Observed(hp, y) && Observed(inc, y) && Observed(cpi, y)
    ensures r.Some? ==> r.value.year == y
  {
    match (AnnualMean(hp, y), AnnualMean(inc, y), AnnualMean(cpi, y))
    case (Some(p), Some(i), Some(c)) => Some(AnnualRecord(y, p, i, c))
    case _ => None
  }

  /** The joined rows of `years`, in that order: at most one per year, each
      for one of those years. */
  function JoinYears(years: seq<int>, hp: seq<Observation>, inc: seq<Observation>, cpi: seq<Observation>)
    : (t: seq<AnnualRecord>)
    ensures |t| <= |years|
    ensures forall a :: a in t ==> a.year in years
  {
    if years == [] then []
    else
      var rest := JoinYears(years[1..], hp, inc, cpi);
      assert forall y :: y in years[1..] ==> y in years;
      match JoinRow(hp, inc, cpi, years[0])
      case Some(a) => [a] + rest
      case None => rest
  }

  /** The join keeps a year exactly when all three means exist, keeps the
      order of `years`, and each kept row holds that year's means. */
  lemma JoinYearsRows(years: seq<int>, hp: seq<Observation>, inc: seq<Observation>, cpi: seq<Observation>)
    ensures var t := JoinYears(years, hp, inc, cpi);
      && (forall y :: y in AnnualYears(t) <==> y in years && JoinRow(hp, inc, cpi, y).Some?)
      && (forall a :: a in t ==> JoinRow(hp, inc, cpi, a.year) == Some(a))
      && (StrictlyIncreasing(years) ==> StrictlyIncreasing(AnnualYears(t)))
  {
    JoinYearsMembers(years, hp, inc, cpi);
    JoinYearsValues(years, hp, inc, cpi);
    if StrictlyIncreasing(years) {
      JoinYearsAscending(years, hp, inc, cpi);
    }
  }

  lemma {:induction false} JoinYearsMembers(years: seq<int>, hp: seq<Observation>, inc: seq<Observation>, cpi: seq<Observation>)
    ensures forall y :: y in AnnualYears(JoinYears(years, hp, inc, cpi)) <==> y in years && JoinRow(hp, inc, cpi, y).Some?
  {
    if years != [] {
      var y := years[0];
      var rest := JoinYears(years[1..], hp, inc, cpi);
      JoinYearsMembers(years[1..], hp, inc, cpi);
      assert years == [y] + years[1..];
      match JoinRow(hp, inc, cpi, y)
      case Some(a) => {
        assert AnnualYears([a] + rest) == [y] + AnnualYears(rest);
      }
      case None =>
    }
  }

  lemma {:induction false} JoinYearsValues(years: seq<int>, hp: seq<Observation>, inc: seq<Observation>, cpi: seq<Observation>)
    ensures forall a :: a in JoinYears(years, hp, inc, cpi) ==> JoinRow(hp, inc, cpi, a.year) == Some(a)
  {
    if years != [] {
      var y := years[0];
      var rest := JoinYears(years[1..], hp, inc, cpi);
      JoinYearsValues(years[1..], hp, inc, cpi);
      match JoinRow(hp, inc, cpi, y)
      case Some(a) => {
        assert JoinYears(years, hp, inc, cpi) == [a] + rest;
      }
      case None =>
        assert JoinYears(years, hp, inc, cpi) == rest;
    }
  }

  lemma {:induction false} JoinYearsAscending(years: seq<int>, hp: seq<Observation>, inc: seq<Observation>, cpi: seq<Observation>)
    requires StrictlyIncreasing(years)
    ensures StrictlyIncreasing(AnnualYears(JoinYears(years, hp, inc, cpi)))
  {
    if years != [] {
      var y := years[0];
      var rest := JoinYears(years[1..], hp, inc, cpi);
      JoinYearsAscending(years[1..], hp, inc, cpi);
      match JoinRow(hp, inc, cpi, y)
      case Some(a) => {
        assert years == [y] + years[1..];
        AscendingCons(y, years[1..]);
        AscendingPrepend(a, rest);
        assert JoinYears(years, hp, inc, cpi) == [a] + rest;
      }
      case None =>
        assert JoinYears(years, hp, inc, cpi) == rest;
    }
  }

  /** A row whose year precedes every year of an ascending table can be put
      in front of it. */
  lemma AscendingPrepend(a: AnnualRecord, rest: seq<AnnualRecord>)
    requires StrictlyIncreasing(AnnualYears(rest)) && forall b :: b in rest ==> a.year < b.year
    ensures StrictlyIncreasing(AnnualYears([a] + rest))
  {
    forall z | z in AnnualYears(rest) ensures a.year < z {
      var j :| 0 <= j < |rest| && AnnualYears(rest)[j] == z;
      assert rest[j] in rest;
    }
    assert AnnualYears([a] + rest) == [a.year] + AnnualYears(rest);
    AscendingCons(a.year, AnnualYears(rest));
  }

  /** The view `annual_economic_indicators`. */
  function AnnualIndicators(hp: seq<Observation>, inc: seq<Observation>, cpi: seq<Observation>)
    : (view: seq<AnnualRecord>)
    ensures StrictlyIncreasing(AnnualYears(view))
    ensures forall y :: y in AnnualYears(view) <==> Observed(hp, y) && Observed(inc, y) && Observed(cpi, y)
    ensures forall k :: 0 <= k < |view| ==>
      && AnnualMean(hp, view[k].year) == Some(view[k].homePrice)
      && AnnualMean(inc, view[k].year) == Some(view[k].income)
      && AnnualMean(cpi, view[k].year) == Some(view[k].cpi)
  {
    var years := SortedDistinct(ObservationYears(hp));
    assert forall y :: Observed(hp, y) ==> y in ObservationYears(hp) by {
      forall y | Observed(hp, y) ensures y in ObservationYears(hp) {
        var i :| 0 <= i < |hp| && hp[i].year == y && hp[i].value.Some?;
        assert ObservationYears(hp)[i] == y;
      }
    }
    JoinYearsRows(years, hp, inc, cpi);
    JoinYears(years, hp, inc, cpi)
  }

  /** Positive observations give a view of positive means. */
  lemma AnnualIndicatorsPositive(hp: seq<Observation>, inc: seq<Observation>, cpi: seq<Observation>)
    requires PositiveObservations(hp) && PositiveObservations(inc) && PositiveObservations(cpi)
    ensures PositiveAnnual(AnnualIndicators(hp, inc, cpi))
  {
    var view := AnnualIndicators(hp, inc, cpi);
    forall k | 0 <= k < |view|
      ensures view[k].homePrice > 0.0 && view[k].income > 0.0 && view[k].cpi > 0.0
    {
      var y := view[k].year;
      assert AnnualYears(view)[k] == y;
      AnnualMeanPositive(hp, y);
      AnnualMeanPositive(inc, y);
      AnnualMeanPositive(cpi, y);
    }
  }

  // ---------------------------------------------------------------------
  // economic_comparison

  /** `(SELECT consumer_price_index FROM base_year)`: the CPI of the view's
      row for 2020, NULL when the view has none. */
  function BaseCpi(view: seq<AnnualRecord>): (r: Option<real>)
    ensures r.None? <==> BaseYear !in AnnualYears(view)
    ensures r.Some? ==> exists i :: 0 <= i < |view| && view[i].year == BaseYear && view[i].cpi == r.value
  {
    match FirstIndex(AnnualYears(view), BaseYear)
    case None => None
    case Some(i) => Some(view[i].cpi)
  }

  /** `value * base / cpi`, which SQL makes NULL when the base is NULL. */
  function Rescale(value: real, base: Option<real>, cpi: real): (r: Option<real>)
    requires cpi != 0.0
    ensures r.Some? <==> base.Some?
    ensures r.Some? ==> r.value * cpi == value * base.value
    ensures r.Some? && value > 0.0 && base.value > 0.0 && cpi > 0.0 ==> r.value > 0.0
  {
    match base
    case None => None
    case Some(b) => Some(value * b / cpi)
  }

  /** One row of `economic_comparison` from one row of the view. */
  function CompareRow(a: AnnualRecord, base: Option<real>): (r: ComparisonRecord)
    requires a.income != 0.0 && a.cpi != 0.0
    ensures r.year == a.year && r.homePrice == a.homePrice && r.income == a.income && r.cpi == a.cpi
    ensures r.ratio * a.income == a.homePrice
    ensures r.adjustedHomePrice.Some? <==> base.Some?
    ensures r.adjustedIncome.Some? <==> base.Some?
    ensures base.Some? ==>
      && r.adjustedHomePrice.value * a.cpi == a.homePrice * base.value
      && r.adjustedIncome.value * a.cpi == a.income * base.value
  {
    ComparisonRecord(a.year, a.homePrice, a.income, a.cpi,
      a.homePrice / a.income,
      Rescale(a.homePrice, base, a.cpi),
      Rescale(a.income, base, a.cpi))
  }

  /** The table `economic_comparison`: one row per row of the view, in the
      view's (ascending) year order, with the nominal columns carried over. */
  function EconomicComparison(view: seq<AnnualRecord>): (t: seq<ComparisonRecord>)
    requires PositiveAnnual(view)
    ensures |t| == |view| && TableYears(t) == AnnualYears(view)
    ensures forall i :: 0 <= i < |t| ==>
      t[i].homePrice == view[i].homePrice && t[i].income == view[i].income && t[i].cpi == view[i].cpi
    ensures PositiveComparison(t) && PositiveAdjusted(t)
  {
    var base := BaseCpi(view);
    assert base.Some? ==> base.value > 0.0;
    seq(|view|, i requires 0 <= i < |view| => CompareRow(view[i], base))
  }

  /** The ratio column is the price divided by the income: multiplied back by
      the income it gives the price. */
  lemma ComparisonRatio(view: seq<AnnualRecord>, i: nat)
    requires PositiveAnnual(view) && i < |view|
    ensures var r := EconomicComparison(view)[i];
      r.ratio * view[i].income == view[i].homePrice
  {
    var r := EconomicComparison(view)[i];
    assert r.ratio == view[i].homePrice / view[i].income;
  }

  /** The adjusted columns are NULL exactly when the view has no 2020 row;
      otherwise each is its nominal value rescaled by CPI[2020] / CPI[year],
      and their quotient is still the price-to-income ratio. */
  lemma ComparisonAdjustment(view: seq<AnnualRecord>, i: nat)
    requires PositiveAnnual(view) && i < |view|
    ensures var r := EconomicComparison(view)[i];
      && (r.adjustedHomePrice.None? <==> BaseYear !in AnnualYears(view))
      && (r.adjustedIncome.None? <==> BaseYear !in AnnualYears(view))
      && (r.adjustedHomePrice.Some? ==>
            && r.adjustedHomePrice.value * view[i].cpi == view[i].homePrice * BaseCpi(view).value
            && r.adjustedIncome.value * view[i].cpi == view[i].income * BaseCpi(view).value
            && r.adjustedHomePrice.value == r.ratio * r.adjustedIncome.value)
  {
    var r := EconomicComparison(view)[i];
    assert r == CompareRow(view[i], BaseCpi(view));
    if BaseCpi(view).Some? {
      CompareRowAdjusted(view[i], BaseCpi(view).value);
    }
  }

  /** One row rescaled with base CPI `b`: adjusted times CPI is nominal times
      `b`, and the adjusted price is the ratio times the adjusted income. */
  lemma CompareRowAdjusted(a: AnnualRecord, b: real)
    requires a.income > 0.0 && a.cpi > 0.0
    ensures var r := CompareRow(a, Some(b));
      && r.adjustedHomePrice.Some? && r.adjustedIncome.Some?
      && r.adjustedHomePrice.value * a.cpi == a.homePrice * b
      && r.adjustedIncome.value * a.cpi == a.income * b
      && r.adjustedHomePrice.value == r.ratio * r.adjustedIncome.value
  {
    var r := CompareRow(a, Some(b));
    assert r.adjustedHomePrice.value == a.homePrice * b / a.cpi;
    assert r.adjustedIncome.value == a.income * b / a.cpi;
    assert a.homePrice / a.income * (a.income * b / a.cpi) == a.homePrice * b / a.cpi;
  }

  /** In the base-year row the adjusted values are the nominal ones. */
  lemma ComparisonBaseYearUnchanged(view: seq<AnnualRecord>, i: nat)
    requires PositiveAnnual(view) && StrictlyIncreasing(AnnualYears(view))
    requires i < |view| && view[i].year == BaseYear
    ensures EconomicComparison(view)[i].adjustedHomePrice == Some(view[i].homePrice)
    ensures EconomicComparison(view)[i].adjustedIncome == Some(view[i].income)
  {
    assert AnnualYears(view)[i] == BaseYear;
    FirstIndexAscending(AnnualYears(view), i);
    var c := view[i].cpi;
    assert BaseCpi(view) == Some(c);
    assert EconomicComparison(view)[i] == CompareRow(view[i], Some(c));
    RescaleByOwnCpi(view[i].homePrice, c);
    RescaleByOwnCpi(view[i].income, c);
  }

  /** Rescaling by a row's own CPI leaves a value unchanged. */
  lemma RescaleByOwnCpi(v: real, c: real)
    requires c > 0.0
    ensures Rescale(v, Some(c), c).Some? && Rescale(v, Some(c), c).value == v
  {
    assert Rescale(v, Some(c), c).value == v * c / c;
  }

  /** A 1970 price of 23000 at a CPI of 38.8, rescaled to a 2020 CPI of
      258.8, is about 153412. */
  lemma AdjustmentExample()
    ensures 153412.0 < Rescale(23000.0, Some(258.8), 38.8).value < 153413.0
  {
    assert Rescale(23000.0, Some(258.8), 38.8).value == 23000.0 * 258.8 / 38.8;
  }

  // ---------------------------------------------------------------------
  // affordability_comparison

  /** `current_data`: the ratio of the row whose year is `MAX(year)`; NULL
      for an empty table. */
  function CurrentRatio(t: seq<ComparisonRecord>): (r: Option<real>)
    requires PositiveComparison(t)
    ensures r.Some? <==> |t| > 0
    ensures r.Some? ==> r.value > 0.0
    ensures r.Some? ==> exists i :: (0 <= i < |t| &&
      (forall j :: 0 <= j < |t| ==> t[j].year <= t[i].year) && r.value == t[i].ratio)
  {
    if |t| == 0 then None
    else
      var ys := TableYears(t);
      var y := MaxOf(ys);
      var i := FirstIndex(ys, y).value;
      assert forall j :: 0 <= j < |t| ==> ys[j] == t[j].year && ys[j] in ys;
      assert t[i].ratio > 0.0 && t[i].year == y && RatioOf(t, y) == t[i].ratio;
      Some(RatioOf(t, y))
  }

  /** `WHERE e.year IN (1970, ..., 2010)`, scanned in table order, each kept
      row becoming a gap row against `current`. */
  function GapRows(t: seq<ComparisonRecord>, current: real): seq<GapRecord>
    requires current > 0.0 && PositiveComparison(t)
  {
    if t == [] then []
    else if t[0].year in ComparisonYears then
      [Gap(t[0].year, current, t[0].ratio)] + GapRows(t[1..], current)
    else GapRows(t[1..], current)
  }

  /** Each gap row compares `current` with the ratio of a table row of the
      same comparison year. */
  lemma {:induction false} GapRowsFrom(t: seq<ComparisonRecord>, current: real)
    requires current > 0.0 && PositiveComparison(t)
    ensures forall k :: 0 <= k < |GapRows(t, current)| ==> FromRow(t, current, GapRows(t, current)[k])
  {
    if t != [] {
      var g := GapRows(t, current);
      var rest := GapRows(t[1..], current);
      GapRowsFrom(t[1..], current);
      forall j | 0 <= j < |rest| ensures FromRow(t, current, rest[j]) {
        assert FromRow(t[1..], current, rest[j]);
        var i :| 0 <= i < |t[1..]| && t[1..][i].year in ComparisonYears &&
          rest[j] == Gap(t[1..][i].year, current, t[1..][i].ratio);
        assert t[i + 1] == t[1..][i];
      }
      if t[0].year in ComparisonYears {
        assert g == [Gap(t[0].year, current, t[0].ratio)] + rest;
        assert t[0].year in ComparisonYears && g[0] == Gap(t[0].year, current, t[0].ratio);
      } else {
        assert g == rest;
      }
    }
  }

  /** `row` compares `current` with the ratio of a row of `t` whose year is a
      comparison year. */
  predicate FromRow(t: seq<ComparisonRecord>, current: real, row: GapRecord)
    requires current > 0.0 && PositiveComparison(t)
  {
    exists i :: 0 <= i < |t| && t[i].year in ComparisonYears && row == Gap(t[i].year, current, t[i].ratio)
  }

  /** The gap table holds exactly the comparison years present in the table,
      ascending when the table is. */
  lemma {:induction false} GapRowsYears(t: seq<ComparisonRecord>, current: real)
    requires current > 0.0 && PositiveComparison(t)
    ensures var g := GapRows(t, current);
      && (forall y :: y in GapYears(g) <==> y in ComparisonYears && y in TableYears(t))
      && (StrictlyIncreasing(TableYears(t)) ==> StrictlyIncreasing(GapYears(g)))
  {
    if t != [] {
      var rest := GapRows(t[1..], current);
      GapRowsYears(t[1..], current);
      assert TableYears(t) == [t[0].year] + TableYears(t[1..]);
      AscendingCons(t[0].year, TableYears(t[1..]));
      if t[0].year in ComparisonYears {
        var g := [Gap(t[0].year, current, t[0].ratio)] + rest;
        assert GapYears(g) == [t[0].year] + GapYears(rest);
        AscendingCons(t[0].year, GapYears(rest));
      }
    }
  }

  /** The table `affordability_comparison`: one gap row for each table row
      of a comparison year, against the current ratio; none for an empty
      table. */
  function AffordabilityComparison(t: seq<ComparisonRecord>): (g: seq<GapRecord>)
    requires PositiveComparison(t)
    ensures |t| == 0 ==> g == []
    ensures forall y :: y in GapYears(g) <==> y in ComparisonYears && y in TableYears(t)
    ensures |t| > 0 ==> forall k :: 0 <= k < |g| ==> FromRow(t, CurrentRatio(t).value, g[k])
  {
    if |t| == 0 then []
    else
      var current := CurrentRatio(t).value;
      GapRowsYears(t, current);
      GapRowsFrom(t, current);
      GapRows(t, current)
  }

  /** The comparison years that occur in the table, in their fixed order. */
  function PresentComparisonYears(t: seq<ComparisonRecord>): (ys: seq<int>)
    ensures StrictlyIncreasing(ys)
    ensures forall y :: y in ys <==> y in ComparisonYears && y in TableYears(t)
  {
    FilterYears(ComparisonYears, TableYears(t))
  }

  /** The years of `ys` that occur in `present`, in the order of `ys`. */
  function FilterYears(ys: seq<int>, present: seq<int>): (r: seq<int>)
    requires StrictlyIncreasing(ys)
    ensures StrictlyIncreasing(r)
    ensures forall y :: y in r <==> y in ys && y in present
  {
    if ys == [] then []
    else
      var rest := FilterYears(ys[1..], present);
      AscendingCons(ys[0], ys[1..]);
      assert ys == [ys[0]] + ys[1..];
      AscendingCons(ys[0], rest);
      if ys[0] in present then [ys[0]] + rest else rest
  }

  /** Over a table of distinct ascending years, the gap table has one row for
      each comparison year the table holds, in the fixed order, each comparing
      that year's ratio with the ratio of the latest year; a comparison year
      the table lacks is silently left out. */
  lemma AffordabilityComparisonRows(t: seq<ComparisonRecord>)
    requires PositiveComparison(t) && StrictlyIncreasing(TableYears(t))
    ensures var g := AffordabilityComparison(t);
      && GapYears(g) == PresentComparisonYears(t)
      && forall k :: 0 <= k < |g| ==>
           && g[k].comparisonYear in TableYears(t)
           && g[k] == Gap(g[k].comparisonYear, t[|t| - 1].ratio, RatioOf(t, g[k].comparisonYear))
  {
    var g := AffordabilityComparison(t);
    if |t| == 0 {
      assert g == [];
      assert forall y :: y !in PresentComparisonYears(t);
      StrictlyIncreasingUnique(GapYears(g), PresentComparisonYears(t));
    } else {
      var ys := TableYears(t);
      var current := t[|t| - 1].ratio;
      MaxOfAscendingIsLast(ys);
      RatioOfAscending(t, |t| - 1);
      assert CurrentRatio(t).value == current;
      assert g == GapRows(t, current);
      GapRowsYears(t, current);
      GapRowsFrom(t, current);
      StrictlyIncreasingUnique(GapYears(g), PresentComparisonYears(t));
      forall k | 0 <= k < |g|
        ensures g[k].comparisonYear in TableYears(t)
        ensures g[k] == Gap(g[k].comparisonYear, current, RatioOf(t, g[k].comparisonYear))
      {
        assert FromRow(t, current, g[k]);
        var i :| 0 <= i < |t| && t[i].year in ComparisonYears && g[k] == Gap(t[i].year, current, t[i].ratio);
        RatioOfAscending(t, i);
      }
    }
  }

  // ---------------------------------------------------------------------
  // decade_summary

  /** SQLite's integer division, which truncates toward zero. */
  function TruncDiv(a: int, b: int): int
    requires b > 0
  {
    if a >= 0 then a / b else -((-a) / b)
  }

  /** `CAST(year/10 * 10 AS INTEGER)`. */
  function DecadeOf(year: int): (d: int)
    ensures d % 10 == 0
    ensures year >= 0 ==> d <= year < d + 10
    ensures year < 0 ==> d - 10 < year <= d
  {
    TruncDiv(year, 10) * 10
  }

  /** Bucketing examples: 1984 and 1980 fall in 1980, 1979 in 1970; a
      negative year is truncated toward zero, not floored. */
  lemma DecadeOfExamples()
    ensures DecadeOf(1984) == 1980 && DecadeOf(1980) == 1980 && DecadeOf(1979) == 1970
    ensures DecadeOf(-15) == -10
  {
  }

  /** For a non-negative year the decade is the multiple of ten that starts
      the ten-year span holding it. */
  lemma DecadeOfSpan(year: int, d: int)
    requires year >= 0
    ensures DecadeOf(year) == d <==> d % 10 == 0 && d <= year < d + 10
  {
    var q := year / 10;
    assert DecadeOf(year) == q * 10;
    assert q * 10 <= year < q * 10 + 10;
    if d % 10 == 0 && d <= year < d + 10 {
      var e := d / 10;
      assert d == e * 10;
      assert e == q;
    }
  }

  /** The rows of decade `d`, in table order. */
  function RowsInDecade(t: seq<ComparisonRecord>, d: int): (rows: seq<ComparisonRecord>)
    ensures forall r :: r in rows <==> r in t && DecadeOf(r.year) == d
  {
    if t == [] then []
    else
      var rest := RowsInDecade(t[1..], d);
      assert forall r :: r in t <==> r == t[0] || r in t[1..];
      if DecadeOf(t[0].year) == d then [t[0]] + rest else rest
  }

  /** Each row occurs in its decade's group as often as in the table. */
  lemma {:induction false} RowsInDecadeMultiset(t: seq<ComparisonRecord>, d: int, r: ComparisonRecord)
    ensures multiset(RowsInDecade(t, d))[r] == if DecadeOf(r.year) == d then multiset(t)[r] else 0
  {
    if t != [] {
      RowsInDecadeMultiset(t[1..], d, r);
      assert t == [t[0]] + t[1..];
    }
  }

  /** The decade of each row, in table order. */
  function DecadeColumn(t: seq<ComparisonRecord>): seq<int>
  {
    seq(|t|, i requires 0 <= i < |t| => DecadeOf(t[i].year))
  }

  /** The decades holding a row are those of the decade column. */
  lemma DecadeColumnKeys(t: seq<ComparisonRecord>)
    ensures forall d :: d in DecadeColumn(t) <==> exists i :: 0 <= i < |t| && DecadeOf(t[i].year) == d
  {
    forall d | exists i :: 0 <= i < |t| && DecadeOf(t[i].year) == d ensures d in DecadeColumn(t) {
      var i :| 0 <= i < |t| && DecadeOf(t[i].year) == d;
      assert DecadeColumn(t)[i] == d;
    }
  }

  /** The table `decade_summary`: `GROUP BY` decade, `ORDER BY` decade. It
      lists, in ascending order, exactly the decades holding a row. */
  function DecadeSummary(t: seq<ComparisonRecord>): (s: seq<DecadeRecord>)
    ensures StrictlyIncreasing(DecadeKeys(s))
    ensures forall d :: d in DecadeKeys(s) <==> exists i :: 0 <= i < |t| && DecadeOf(t[i].year) == d
  {
    var ds := SortedDistinct(DecadeColumn(t));
    var s := seq(|ds|, k requires 0 <= k < |ds| => Summarize(ds[k], RowsInDecade(t, ds[k])));
    DecadeColumnKeys(t);
    assert DecadeKeys(s) == ds;
    s
  }

  /** The decade summary has one row per decade that holds at least one row
      of the table, in ascending decade order; each averages the five columns
      over exactly that decade's rows, and the nominal averages are never
      NULL. */
  lemma DecadeSummaryRows(t: seq<ComparisonRecord>)
    requires PositiveComparison(t)
    ensures var s := DecadeSummary(t);
      && StrictlyIncreasing(DecadeKeys(s))
      && (forall d :: d in DecadeKeys(s) <==> exists i :: 0 <= i < |t| && DecadeOf(t[i].year) == d)
      && forall k :: 0 <= k < |s| ==>
           && |RowsInDecade(t, s[k].decade)| > 0
           && s[k] == Summarize(s[k].decade, RowsInDecade(t, s[k].decade))
           && s[k].avgHomePrice.Some? && s[k].avgIncome.Some? && s[k].avgPriceToIncomeRatio.Some?
  {
    var s := DecadeSummary(t);
    forall k | 0 <= k < |s|
      ensures |RowsInDecade(t, s[k].decade)| > 0
      ensures s[k] == Summarize(s[k].decade, RowsInDecade(t, s[k].decade))
      ensures s[k].avgHomePrice.Some? && s[k].avgIncome.Some? && s[k].avgPriceToIncomeRatio.Some?
    {
      DecadeSummaryRowAt(t, k);
    }
  }

  /** Row `k` of the summary averages a non-empty group of positive rows. */
  lemma DecadeSummaryRowAt(t: seq<ComparisonRecord>, k: nat)
    requires PositiveComparison(t) && k < |DecadeSummary(t)|
    ensures var x := DecadeSummary(t)[k];
      && |RowsInDecade(t, x.decade)| > 0
      && x == Summarize(x.decade, RowsInDecade(t, x.decade))
      && x.avgHomePrice.Some? && x.avgIncome.Some? && x.avgPriceToIncomeRatio.Some?
  {
    var ds := SortedDistinct(DecadeColumn(t));
    var d := ds[k];
    assert d in ds;
    var i :| 0 <= i < |t| && DecadeColumn(t)[i] == d;
    var rows := RowsInDecade(t, d);
    assert t[i] in rows;
    forall j | 0 <= j < |rows|
      ensures rows[j].homePrice > 0.0 && rows[j].income > 0.0 && rows[j].cpi > 0.0 && rows[j].ratio > 0.0
    {
      assert rows[j] in t;
    }
    SummarizeNonEmpty(d, rows);
  }

  /** The decade summary depends only on the multiset of rows, not on their
      order. */
  lemma DecadeSummaryPermutation(a: seq<ComparisonRecord>, b: seq<ComparisonRecord>)
    requires multiset(a) == multiset(b)
    ensures DecadeSummary(a) == DecadeSummary(b)
  {
    forall d ensures d in DecadeColumn(a) <==> d in DecadeColumn(b) {
      if d in DecadeColumn(a) {
        var i :| 0 <= i < |a| && DecadeColumn(a)[i] == d;
        assert a[i] in multiset(b);
        var j :| 0 <= j < |b| && b[j] == a[i];
        assert DecadeColumn(b)[j] == d;
      }
      if d in DecadeColumn(b) {
        var j :| 0 <= j < |b| && DecadeColumn(b)[j] == d;
        assert b[j] in multiset(a);
        var i :| 0 <= i < |a| && a[i] == b[j];
        assert DecadeColumn(a)[i] == d;
      }
    }
    var ds := SortedDistinct(DecadeColumn(a));
    StrictlyIncreasingUnique(ds, SortedDistinct(DecadeColumn(b)));
    forall k | 0 <= k < |ds|
      ensures Summarize(ds[k], RowsInDecade(a, ds[k])) == Summarize(ds[k], RowsInDecade(b, ds[k]))
    {
      forall r ensures multiset(RowsInDecade(a, ds[k]))[r] == multiset(RowsInDecade(b, ds[k]))[r] {
        RowsInDecadeMultiset(a, ds[k], r);
        RowsInDecadeMultiset(b, ds[k], r);
      }
      assert multiset(RowsInDecade(a, ds[k])) == multiset(RowsInDecade(b, ds[k]));
      SummarizePermutation(ds[k], RowsInDecade(a, ds[k]), RowsInDecade(b, ds[k]));
    }
  }

  // ---------------------------------------------------------------------
  // The whole script

  /** The four derived tables of the store. */
  datatype Database = Database(
    annual: seq<AnnualRecord>,
    comparison: seq<ComparisonRecord>,
    affordability: seq<GapRecord>,
    decades: seq<DecadeRecord>)

  /** The script's statements in order, from the three raw indicator tables. */
  function BuildDatabase(hp: seq<Observation>, inc: seq<Observation>, cpi: seq<Observation>): (db: Database)
    requires PositiveObservations(hp) && PositiveObservations(inc) && PositiveObservations(cpi)
    ensures StrictlyIncreasing(TableYears(db.comparison)) && PositiveComparison(db.comparison)
    ensures forall y :: y in TableYears(db.comparison) <==> Observed(hp, y) && Observed(inc, y) && Observed(cpi, y)
    ensures GapYears(db.affordability) == PresentComparisonYears(db.comparison)
    ensures forall k :: 0 <= k < |db.decades| ==> db.decades[k].avgPriceToIncomeRatio.Some?
  {
    AnnualIndicatorsPositive(hp, inc, cpi);
    var view := AnnualIndicators(hp, inc, cpi);
    var t := EconomicComparison(view);
    AffordabilityComparisonRows(t);
    DecadeSummaryRows(t);
    Database(view, t, AffordabilityComparison(t), DecadeSummary(t))
  }
}
