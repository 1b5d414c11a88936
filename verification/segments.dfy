/** The four analysis views of `create_analysis_datasets`, each a row
    selection of the merged table. */
module Segments {
  import opened Wrappers
  import opened Tables
  import Merge

  /** The publishers of the major-publisher view. */
  const MajorPublishers: seq<string> := [
    "Electronic Arts", "Activision", "Nintendo", "Sony Computer Entertainment",
    "Microsoft", "Ubisoft", "Sega", "Konami"
  ]

  /** The platform codes of the top-platform view. */
  const TopPlatforms: seq<string> := ["PC", "PS2", "PS3", "PS4", "X360", "XOne", "NS", "DS", "3DS"]

  /** The four views, by their names in the source. */
  datatype AnalysisDatasets = AnalysisDatasets(
    completeSales: seq<Merge.MergedRow>,
    recentGames: seq<Merge.MergedRow>,
    majorPublishers: seq<Merge.MergedRow>,
    topPlatforms: seq<Merge.MergedRow>)

  predicate HasCompleteSales(row: Merge.MergedRow) {
    row.chart.hasCompleteSales
  }

  /** `year >= 2010`; a missing year compares false. */
  predicate IsRecent(row: Merge.MergedRow) {
    row.chart.year.Some? && row.chart.year.value >= 2010
  }

  /** `publisher.isin(major_publishers)`: exact string membership. */
  predicate IsMajorPublisher(row: Merge.MergedRow) {
    row.chart.publisher in MajorPublishers
  }

  /** `platform.isin(top_platforms)`. */
  predicate IsTopPlatform(row: Merge.MergedRow) {
    row.chart.platform in TopPlatforms
  }

  /** The reference meaning of `table[mask]`: `view` keeps the order of
      `table`, and holds each row satisfying `p` as often as `table` does
      and no other row. */
  ghost predicate IsSelection<T(!new)>(view: seq<T>, table: seq<T>, p: T -> bool) {
    && IsSubsequence(view, table)
    && forall x :: multiset(view)[x] == if p(x) then multiset(table)[x] else 0
  }

  /** A row is in a selection exactly when it is in the table and satisfies
      the predicate. */
  lemma SelectionMembership<T(!new)>(view: seq<T>, table: seq<T>, p: T -> bool, x: T)
    requires IsSelection(view, table, p)
    ensures x in view <==> x in table && p(x)
  {
    assert x in view <==> multiset(view)[x] > 0;
    assert x in table <==> multiset(table)[x] > 0;
  }

  /** `Filter` computes the selection. */
  lemma FilterIsSelection<T(!new)>(table: seq<T>, p: T -> bool)
    ensures IsSelection(Filter(table, p), table, p)
  {
    FilterIsSubsequence(table, p);
    forall x
      ensures multiset(Filter(table, p))[x] == if p(x) then multiset(table)[x] else 0
    {
      FilterCount(table, p, x);
    }
  }

  /** `create_analysis_datasets`: four independent selections of the
      merged table. */
  function CreateAnalysisDatasets(merged: seq<Merge.MergedRow>): (a: AnalysisDatasets)
    ensures IsSelection(a.completeSales, merged, HasCompleteSales)
    ensures IsSelection(a.recentGames, merged, IsRecent)
    ensures IsSelection(a.majorPublishers, merged, IsMajorPublisher)
    ensures IsSelection(a.topPlatforms, merged, IsTopPlatform)
  {
    FilterIsSelection(merged, HasCompleteSales);
    FilterIsSelection(merged, IsRecent);
    FilterIsSelection(merged, IsMajorPublisher);
    FilterIsSelection(merged, IsTopPlatform);
    AnalysisDatasets(
      Filter(merged, HasCompleteSales),
      Filter(merged, IsRecent),
      Filter(merged, IsMajorPublisher),
      Filter(merged, IsTopPlatform))
  }

  /** A row without a year is in no recent-games view. */
  lemma RecentGamesHaveYears(merged: seq<Merge.MergedRow>, x: Merge.MergedRow)
    ensures x in CreateAnalysisDatasets(merged).recentGames ==> x.chart.year.Some? && x.chart.year.value >= 2010
  {
    SelectionMembership(CreateAnalysisDatasets(merged).recentGames, merged, IsRecent, x);
  }

  /** When every row carries the completeness flag, the complete-sales view
      is the whole merged table. */
  lemma CompleteSalesIsAll(merged: seq<Merge.MergedRow>)
    requires forall i :: 0 <= i < |merged| ==> merged[i].chart.hasCompleteSales
    ensures CreateAnalysisDatasets(merged).completeSales == merged
  {
    FilterAll(merged, HasCompleteSales);
  }

  /** The views are independent: a row of the merged table is in each view
      whose predicate it satisfies, so in several, one or none of them. */
  lemma ViewsIndependent(merged: seq<Merge.MergedRow>, x: Merge.MergedRow)
    requires x in merged
    ensures var a := CreateAnalysisDatasets(merged);
      && (x in a.completeSales <==> HasCompleteSales(x))
      && (x in a.recentGames <==> IsRecent(x))
      && (x in a.majorPublishers <==> IsMajorPublisher(x))
      && (x in a.topPlatforms <==> IsTopPlatform(x))
  {
    var a := CreateAnalysisDatasets(merged);
    SelectionMembership(a.completeSales, merged, HasCompleteSales, x);
    SelectionMembership(a.recentGames, merged, IsRecent, x);
    SelectionMembership(a.majorPublishers, merged, IsMajorPublisher, x);
    SelectionMembership(a.topPlatforms, merged, IsTopPlatform, x);
  }
}
