/** The preprocessing run of `main`, without the loading and saving: clean
    the chart table, clean the side tables, merge, and cut the analysis
    views. */
module Pipeline {
  import opened Wrappers
  import opened Tables
  import Text
  import Charts
  import opened Registries
  import Merge
  import Segments

  /** The tables the run hands to the saving step. */
  datatype Processed = Processed(
    chartsClean: seq<Charts.ChartRow>,
    others: OtherTables,
    merged: seq<Merge.MergedRow>,
    analysis: Segments.AnalysisDatasets)

  /** The four views are the selections of `merged` by their predicates. */
  ghost predicate ViewsOf(a: Segments.AnalysisDatasets, merged: seq<Merge.MergedRow>) {
    && Segments.IsSelection(a.completeSales, merged, Segments.HasCompleteSales)
    && Segments.IsSelection(a.recentGames, merged, Segments.IsRecent)
    && Segments.IsSelection(a.majorPublishers, merged, Segments.IsMajorPublisher)
    && Segments.IsSelection(a.topPlatforms, merged, Segments.IsTopPlatform)
  }

  /** The stages of `main` in order; the first `KeyError` stops the run. */
  function Preprocess(raw: RawDatasets, parse: Charts.DateParser): (r: Result<Processed>)
    ensures r.Failure? <==> raw.geoCities.None? || raw.geoCountries.None? || raw.developers.None? || raw.publishers.None?
    ensures raw.geoCities.None? ==> r == Failure(MissingDataset("geo_cities"))
    ensures raw.geoCities.Some? && raw.geoCountries.None? ==> r == Failure(MissingDataset("geo_countries"))
    ensures raw.geoCities.Some? && raw.geoCountries.Some? && (raw.developers.None? || raw.publishers.None?) ==>
      r == Failure(MissingColumn("country_pub"))
    ensures r.Success? ==> |r.value.chartsClean| == |raw.charts|
    ensures r.Success? ==> r.value.chartsClean == Charts.CleanCharts(raw.charts, parse)
    ensures r.Success? ==> CleanOtherDatasets(raw) == Success(r.value.others)
    ensures r.Success? ==> Merge.MergeDatasets(r.value.chartsClean, r.value.others) == Success(r.value.merged)
    ensures r.Success? ==> ViewsOf(r.value.analysis, r.value.merged)
  {
    var charts := Charts.CleanCharts(raw.charts, parse);
    var others :- CleanOtherDatasets(raw);
    var merged :- Merge.MergeDatasets(charts, others);
    Success(Processed(charts, others, merged, Segments.CreateAnalysisDatasets(merged)))
  }

  /** The merged table holds every cleaned chart row, in order, and so is
      at least as long as the raw chart table; and it holds no chart row
      that the cleaning did not produce. */
  lemma PreprocessKeepsCharts(raw: RawDatasets, parse: Charts.DateParser)
    ensures var r := Preprocess(raw, parse);
      r.Success? ==>
        && r.value.chartsClean == Charts.CleanCharts(raw.charts, parse)
        && IsSubsequence(r.value.chartsClean, Merge.ChartsOf(r.value.merged))
        && Merge.ChartsWithin(r.value.merged, r.value.chartsClean)
        && |r.value.merged| >= |raw.charts|
  {
    var charts := Charts.CleanCharts(raw.charts, parse);
    var others := CleanOtherDatasets(raw);
    if others.Success? {
      Merge.MergeKeepsCharts(charts, others.value);
      Merge.MergeChartsFromInput(charts, others.value);
    }
  }

  /** Rows carrying only flagged chart rows are all flagged. */
  lemma FlagCarriesOver(merged: seq<Merge.MergedRow>, charts: seq<Charts.ChartRow>)
    requires Merge.ChartsWithin(merged, charts)
    requires forall k :: 0 <= k < |charts| ==> charts[k].hasCompleteSales
    ensures forall i :: 0 <= i < |merged| ==> merged[i].chart.hasCompleteSales
  {
    forall i | 0 <= i < |merged|
      ensures merged[i].chart.hasCompleteSales
    {
      var k :| 0 <= k < |charts| && charts[k] == merged[i].chart;
    }
  }

  /** Since every cleaned row carries the completeness flag, the
      complete-sales view is the whole merged table. */
  lemma CompleteSalesIsMerged(raw: RawDatasets, parse: Charts.DateParser)
    ensures var r := Preprocess(raw, parse);
      r.Success? ==> r.value.analysis.completeSales == r.value.merged
  {
    var r := Preprocess(raw, parse);
    if r.Success? {
      PreprocessKeepsCharts(raw, parse);
      Charts.CleanChartsAllFlagged(raw.charts, parse);
      FlagCarriesOver(r.value.merged, r.value.chartsClean);
      Segments.CompleteSalesIsAll(r.value.merged);
    }
  }

  /** A date parser for the examples, standing in for `pd.to_datetime`: it
      knows one ISO date. */
  function ExampleParse(s: string): Option<Charts.Date> {
    if s == "1998-05-12" then Some(Charts.Date(1998, 5, 12)) else None
  }

  /** A chart row with two regional figures, the genre and the critic score
      missing. */
  const ExampleRaw: Charts.RawChartRow := Charts.RawChartRow(
    Some("Gran Turismo"), Some("PS"), None, Some("Sony Computer Entertainment"), Some("Polyphony Digital"),
    Some("1998-05-12"), Some(1.5), Some(2.0), None, None, Some(10.85), None)

  /** A trimmed platform code other than "nan" and "Unknown" comes
      through the text cleaning unchanged. */
  lemma ExampleCodeKept()
    ensures Charts.CleanText(Some("PS")) == "PS"
  {
    assert "PS"[0] == 'P' && "PS"[1] == 'S';
    Text.StripTrimmed("PS");
  }

  /** The example row's platform: the code kept and its generation looked
      up. */
  lemma ExamplePlatform()
    ensures Charts.CleanChartRow(ExampleRaw, ExampleParse).platform == "PS"
    ensures Charts.CleanChartRow(ExampleRaw, ExampleParse).platformGeneration == "5th Gen"
  {
    ExampleCodeKept();
    assert Charts.PlatformGeneration("PS") == "5th Gen" by {
      assert Charts.LastEntryFor(Charts.PlatformTable, 0, "PS");
      Charts.LookupLastEntry(Charts.PlatformTable, 0, "PS");
    }
  }

  /** The example row's missing genre is filled. */
  lemma ExampleGenre()
    ensures Charts.CleanChartRow(ExampleRaw, ExampleParse).genre == "Unknown"
  {
  }

  /** The example row's date columns: the parsed year and its decade. */
  lemma ExampleDates()
    ensures var c := Charts.CleanChartRow(ExampleRaw, ExampleParse);
      c.year == Some(1998) && c.decade == Some(1990)
  {
    Charts.YearAndDecade(ExampleRaw, ExampleParse);
    var c := Charts.CleanChartRow(ExampleRaw, ExampleParse);
    var d := c.decade.value;
    assert d % 10 == 0 && d <= 1998 < d + 10;
  }

  /** The figures of the example row, on any row that has them: the
      regional sum ignores the reported total, the missing score is zero,
      and the completeness flag is set although two regional figures were
      missing. */
  lemma ExampleSales(raw: Charts.RawChartRow, parse: Charts.DateParser)
    requires raw.naSales == Some(1.5) && raw.jpSales == Some(2.0) && raw.palSales.None? && raw.otherSales.None?
    requires raw.totalSales == Some(10.85) && raw.criticScore.None?
    ensures var c := Charts.CleanChartRow(raw, parse);
      && c.calculatedTotal == 3.5 && c.totalSales == 10.85 && c.criticScore == 0.0
      && c.hasCompleteSales && !Charts.OriginallyComplete(raw)
  {
    Charts.CalculatedTotalIgnoresTotalSales(raw, parse, raw.totalSales);
    Charts.CompleteSalesFlagAlwaysTrue(raw, parse);
  }
}
