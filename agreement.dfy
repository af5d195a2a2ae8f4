/** Where the database script and the dashboard's fallback derivation agree,
    and where their edge cases make them differ. */
module PipelineAgreement {
  import opened Wrappers
  import opened Ordering
  import opened Records
  import opened CreateDatabase
  import opened LoadData

  /** With a 2020 row both derivations give the same comparison table: the
      same ratio, and the same adjusted values, `price * base / cpi` being
      `price * (base / cpi)`. */
  lemma ComparisonAgreesWithBaseYear(view: seq<AnnualRecord>)
    requires PositiveAnnual(view) && BaseYear in AnnualYears(view)
    ensures FallbackComparison(view) == EconomicComparison(view)
  {
    var a, b := FallbackComparison(view), EconomicComparison(view);
    var c := BaseCpi(view).value;
    assert FallbackBase(view) == c by {
      var i := FirstIndex(AnnualYears(view), BaseYear).value;
      assert BaseCpi(view) == Some(view[i].cpi);
    }
    forall i | 0 <= i < |view| ensures a[i] == b[i] {
      var r := view[i];
      assert a[i] == AdjustRow(r, c);
      assert b[i] == CompareRow(r, Some(c));
      RowAgrees(r, c);
    }
  }

  /** One row: the fallback's adjustment with base `c` is the SQL one with
      base CPI `c`. */
  lemma RowAgrees(r: AnnualRecord, c: real)
    requires r.income != 0.0 && r.cpi != 0.0
    ensures AdjustRow(r, c) == CompareRow(r, Some(c))
  {
    var x, y := AdjustRow(r, c), CompareRow(r, Some(c));
    SameOption(x.adjustedHomePrice, y.adjustedHomePrice, r.homePrice, c, r.cpi);
    SameOption(x.adjustedIncome, y.adjustedIncome, r.income, c, r.cpi);
  }

  lemma SameOption(o: Option<real>, p: Option<real>, v: real, b: real, c: real)
    requires c != 0.0
    requires o.Some? && o.value == v * (b / c)
    requires p.Some? && p.value == v * b / c
    ensures o == p
  {
    assert v * (b / c) == v * b / c;
    assert o == Some(o.value) && p == Some(p.value);
  }

  /** Without a 2020 row the database leaves both adjusted columns NULL,
      while the fallback rescales to the fixed CPI 258.8; the nominal
      columns and the ratio still agree. */
  lemma ComparisonWithoutBaseYear(view: seq<AnnualRecord>, i: nat)
    requires PositiveAnnual(view) && BaseYear !in AnnualYears(view) && i < |view|
    ensures var e, f := EconomicComparison(view)[i], FallbackComparison(view)[i];
      && e.adjustedHomePrice.None? && e.adjustedIncome.None?
      && f.adjustedHomePrice.Some? && f.adjustedIncome.Some?
      && f.adjustedHomePrice.value * view[i].cpi == view[i].homePrice * FallbackBaseCpi
      && f.adjustedIncome.value * view[i].cpi == view[i].income * FallbackBaseCpi
      && e.ratio == f.ratio && e.year == f.year
  {
    ComparisonAdjustment(view, i);
    FallbackWithoutBaseYear(view, i);
  }

  /** Two tables with the same years and the same ratio column look up the
      same historical ratios. */
  lemma SameRatios(a: seq<ComparisonRecord>, b: seq<ComparisonRecord>, y: int)
    requires TableYears(a) == TableYears(b) && y in TableYears(a)
    requires forall i :: 0 <= i < |a| ==> a[i].ratio == b[i].ratio
    ensures RatioOf(a, y) == RatioOf(b, y)
  {
    assert |a| == |TableYears(a)| == |TableYears(b)| == |b|;
  }

  /** The comparison years are listed in ascending order. */
  lemma ComparisonYearsAscending()
    ensures StrictlyIncreasing(ComparisonYears)
  {
  }

  /** Over a view that holds every comparison year, the two gap tables are
      the same: the same years in the same order, the same current ratio and
      the same historical ratios. */
  lemma GapsAgree(view: seq<AnnualRecord>)
    requires PositiveAnnual(view) && StrictlyIncreasing(AnnualYears(view))
    requires forall y :: y in ComparisonYears ==> y in AnnualYears(view)
    ensures FallbackGaps(FallbackComparison(view)) == Success(AffordabilityComparison(EconomicComparison(view)))
  {
    var f, e := FallbackComparison(view), EconomicComparison(view);
    assert ComparisonYears[0] in AnnualYears(view);
    forall i | 0 <= i < |f| ensures f[i].ratio == e[i].ratio {
      ComparisonRatio(view, i);
      FallbackRatio(view, i);
    }
    GapTablesAgree(f, e);
  }

  /** Two ascending tables with the same years and ratios, holding every
      comparison year, give the same gap table in both derivations. */
  lemma GapTablesAgree(f: seq<ComparisonRecord>, e: seq<ComparisonRecord>)
    requires PositiveComparison(f) && PositiveComparison(e)
    requires TableYears(f) == TableYears(e) && StrictlyIncreasing(TableYears(e))
    requires forall i :: 0 <= i < |f| ==> f[i].ratio == e[i].ratio
    requires forall y :: y in ComparisonYears ==> y in TableYears(e)
    ensures FallbackGaps(f) == Success(AffordabilityComparison(e))
  {
    assert ComparisonYears[0] in TableYears(e);
    assert |f| == |TableYears(f)| == |e| > 0;
    FallbackGapsTable(f);
    DatabaseGapsTable(e);
    GapsOverAgree(f, e);
  }

  /** Tables with the same years and ratios have the same gap rows. */
  lemma GapsOverAgree(f: seq<ComparisonRecord>, e: seq<ComparisonRecord>)
    requires PositiveComparison(f) && PositiveComparison(e) && |f| > 0
    requires TableYears(f) == TableYears(e)
    requires forall i :: 0 <= i < |f| ==> f[i].ratio == e[i].ratio
    requires forall y :: y in ComparisonYears ==> y in TableYears(e)
    ensures GapsOver(f) == GapsOver(e)
  {
    assert |f| == |TableYears(f)| == |e|;
    assert f[|f| - 1].ratio == e[|e| - 1].ratio;
    forall k | 0 <= k < |ComparisonYears| ensures GapsOver(f)[k] == GapsOver(e)[k] {
      SameRatios(f, e, ComparisonYears[k]);
    }
  }

  /** One gap row per comparison year, in the fixed order, each comparing the
      last row's ratio with that year's ratio. */
  function GapsOver(t: seq<ComparisonRecord>): seq<GapRecord>
    requires PositiveComparison(t) && |t| > 0
    requires forall y :: y in ComparisonYears ==> y in TableYears(t)
  {
    assert forall k :: 0 <= k < |ComparisonYears| ==> RatioOf(t, ComparisonYears[k]) > 0.0 by {
      forall k | 0 <= k < |ComparisonYears| ensures RatioOf(t, ComparisonYears[k]) > 0.0 {
        RatioOfPositive(t, ComparisonYears[k]);
      }
    }
    seq(|ComparisonYears|, k requires 0 <= k < |ComparisonYears| =>
      Gap(ComparisonYears[k], t[|t| - 1].ratio, RatioOf(t, ComparisonYears[k])))
  }

  /** The fallback's gap table over a table holding every comparison year. */
  lemma FallbackGapsTable(t: seq<ComparisonRecord>)
    requires PositiveComparison(t) && |t| > 0
    requires forall y :: y in ComparisonYears ==> y in TableYears(t)
    ensures FallbackGaps(t) == Success(GapsOver(t))
  {
    var g := FallbackGaps(t).value;
    assert |g| == |GapYears(g)| == |ComparisonYears|;
    assert g == GapsOver(t);
  }

  /** The database's gap table over an ascending table holding every
      comparison year. */
  lemma DatabaseGapsTable(t: seq<ComparisonRecord>)
    requires PositiveComparison(t) && |t| > 0 && StrictlyIncreasing(TableYears(t))
    requires forall y :: y in ComparisonYears ==> y in TableYears(t)
    ensures AffordabilityComparison(t) == GapsOver(t)
  {
    var g := AffordabilityComparison(t);
    AllComparisonYearsPresent(t);
    AffordabilityComparisonRows(t);
    assert |g| == |GapYears(g)| == |ComparisonYears|;
    forall k | 0 <= k < |g| ensures g[k] == GapsOver(t)[k] {
      assert GapYears(g)[k] == ComparisonYears[k];
    }
  }

  /** A table holding every comparison year keeps all of them, in order, in
      the database's gap table. */
  lemma AllComparisonYearsPresent(e: seq<ComparisonRecord>)
    requires PositiveComparison(e) && StrictlyIncreasing(TableYears(e))
    requires forall y :: y in ComparisonYears ==> y in TableYears(e)
    ensures GapYears(AffordabilityComparison(e)) == ComparisonYears
  {
    AffordabilityComparisonRows(e);
    ComparisonYearsAscending();
    StrictlyIncreasingUnique(PresentComparisonYears(e), ComparisonYears);
  }

  /** A comparison year missing from the view stops the fallback with an
      error, while the database's gap table simply has no row for it. */
  lemma MissingYearDiverges(view: seq<AnnualRecord>, y: int)
    requires PositiveAnnual(view) && |view| > 0
    requires y in ComparisonYears && y !in AnnualYears(view)
    ensures Fallback(view).Failure? && Fallback(view).error.MissingComparisonYear?
    ensures y !in GapYears(AffordabilityComparison(EconomicComparison(view)))
  {
    var f, e := FallbackComparison(view), EconomicComparison(view);
    if |e| > 0 {
      GapRowsYears(e, CurrentRatio(e).value);
    }
  }

  /** For non-negative years, grouping by `year/10*10` and selecting
      `d <= year < d + 10` pick the same rows of a decade `d`. */
  lemma {:induction false} RowsInDecadeIsRange(t: seq<ComparisonRecord>, d: int)
    requires d % 10 == 0
    requires forall i :: 0 <= i < |t| ==> t[i].year >= 0
    ensures RowsInDecade(t, d) == InYearRange(t, d, d + 10)
  {
    if t != [] {
      DecadeOfSpan(t[0].year, d);
      RowsInDecadeIsRange(t[1..], d);
    }
  }

  /** The decade of a year from 1970 to 2029 is one of the listed decades. */
  lemma DecadeListed(year: int)
    requires 1970 <= year < 2030
    ensures DecadeOf(year) in Decades
  {
    var d := DecadeOf(year);
    DecadeOfSpan(year, d);
    assert d % 10 == 0 && 1960 < d <= 2020;
    assert d == 1970 || d == 1980 || d == 1990 || d == 2000 || d == 2010 || d == 2020;
  }

  /** Each listed decade is a multiple of ten. */
  lemma ListedDecadeIsMultiple(d: int)
    requires d in Decades
    ensures d % 10 == 0
  {
  }

  /** When every year lies in 1970..2029 the two summaries list the same
      decades. */
  lemma DecadeKeysAgree(t: seq<ComparisonRecord>)
    requires PositiveComparison(t) && FullyAdjusted(t)
    requires forall i :: 0 <= i < |t| ==> 1970 <= t[i].year < 2030
    ensures DecadeKeys(DecadeSummary(t)) == DecadeKeys(FallbackDecades(t))
  {
    var s, f := DecadeSummary(t), FallbackDecades(t);
    DecadeSummaryRows(t);
    FallbackDecadesRows(t);
    forall d ensures d in DecadeKeys(s) <==> d in DecadeKeys(f) {
      if d in DecadeKeys(s) {
        var i :| 0 <= i < |t| && DecadeOf(t[i].year) == d;
        DecadeListed(t[i].year);
        DecadeOfSpan(t[i].year, d);
      }
      if d in DecadeKeys(f) {
        var i :| 0 <= i < |t| && d <= t[i].year < d + 10;
        ListedDecadeIsMultiple(d);
        DecadeOfSpan(t[i].year, d);
      }
    }
    StrictlyIncreasingUnique(DecadeKeys(s), DecadeKeys(f));
  }

  /** When every year lies in 1970..2029 and every adjusted value is
      present, the database's decade summary and the fallback's are the
      same table. */
  lemma DecadesAgree(t: seq<ComparisonRecord>)
    requires PositiveComparison(t) && FullyAdjusted(t)
    requires forall i :: 0 <= i < |t| ==> 1970 <= t[i].year < 2030
    ensures DecadeSummary(t) == FallbackDecades(t)
  {
    var s, f := DecadeSummary(t), FallbackDecades(t);
    DecadeKeysAgree(t);
    assert |s| == |DecadeKeys(s)| == |DecadeKeys(f)| == |f|;
    forall k | 0 <= k < |s| ensures s[k] == f[k] {
      DecadeRowsAgree(t, k);
    }
  }

  /** With the same decade keys, row `k` of both summaries averages the same
      rows. */
  lemma DecadeRowsAgree(t: seq<ComparisonRecord>, k: nat)
    requires PositiveComparison(t) && FullyAdjusted(t)
    requires forall i :: 0 <= i < |t| ==> 1970 <= t[i].year < 2030
    requires DecadeKeys(DecadeSummary(t)) == DecadeKeys(FallbackDecades(t)) && k < |DecadeSummary(t)|
    ensures k < |FallbackDecades(t)| && DecadeSummary(t)[k] == FallbackDecades(t)[k]
  {
    var s, f := DecadeSummary(t), FallbackDecades(t);
    assert |s| == |DecadeKeys(s)| && |f| == |DecadeKeys(f)|;
    assert DecadeKeys(s)[k] == DecadeKeys(f)[k];
    var d := s[k].decade;
    DecadeSummaryRowAt(t, k);
    assert f[k] in f;
    ListedDecadeIsMultiple(d);
    RowsInDecadeIsRange(t, d);
  }

  /** Rows after 2029 show the difference: the database summarises rows of
      2030..2039 under the decade 2030 ... */
  lemma DatabaseKeepsDecade2030(t: seq<ComparisonRecord>)
    requires PositiveComparison(t) && |t| > 0
    requires forall i :: 0 <= i < |t| ==> 2030 <= t[i].year < 2040
    ensures DecadeKeys(DecadeSummary(t)) == [2030]
  {
    DecadeSummaryRows(t);
    forall i | 0 <= i < |t| ensures DecadeOf(t[i].year) == 2030 {
      DecadeOfSpan(t[i].year, 2030);
    }
    assert DecadeOf(t[0].year) == 2030;
    StrictlyIncreasingUnique(DecadeKeys(DecadeSummary(t)), [2030]);
  }

  /** ... while the fallback, whose decades end with 2020, drops every row
      from 2030 on. */
  lemma FallbackDropsDecade2030(t: seq<ComparisonRecord>)
    requires PositiveComparison(t) && FullyAdjusted(t)
    requires forall i :: 0 <= i < |t| ==> t[i].year >= 2030
    ensures FallbackDecades(t) == []
  {
    var slots := DecadeSlots(t);
    forall m | 0 <= m < |slots| ensures !Complete(slots[m]) {
      DecadeSlotComplete(t, Decades[m]);
    }
    DropAllIncomplete(slots);
  }

  /** `dropna` on rows that all have a missing value leaves nothing. */
  lemma {:induction false} DropAllIncomplete(s: seq<DecadeRecord>)
    requires forall i :: 0 <= i < |s| ==> !Complete(s[i])
    ensures DropIncomplete(s) == []
  {
    if s != [] {
      assert !Complete(s[0]);
      DropAllIncomplete(s[1..]);
    }
  }

  /** On a view that holds 2020 and every comparison year, with all years in
      1970..2029, the fallback derivation yields exactly the database's
      three derived tables. */
  lemma PipelinesAgree(view: seq<AnnualRecord>)
    requires PositiveAnnual(view) && StrictlyIncreasing(AnnualYears(view))
    requires BaseYear in AnnualYears(view)
    requires forall y :: y in ComparisonYears ==> y in AnnualYears(view)
    requires forall i :: 0 <= i < |view| ==> 1970 <= view[i].year < 2030
    ensures var e := EconomicComparison(view);
      Fallback(view) == Success(FallbackTables(e, AffordabilityComparison(e), DecadeSummary(e)))
  {
    var e := EconomicComparison(view);
    ComparisonAgreesWithBaseYear(view);
    GapsAgree(view);
    forall i | 0 <= i < |e| ensures 1970 <= e[i].year < 2030 {
      assert TableYears(e)[i] == AnnualYears(view)[i];
    }
    DecadesAgree(e);
  }
}
