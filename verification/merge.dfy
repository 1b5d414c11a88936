/** The three left-outer merges of `merge_datasets`: chart rows with the
    developer registry on the developer name, then with the publisher
    registry on the publisher name, then with the country table on the
    publisher's country. */
module Merge {
  import opened Wrappers
  import opened Text
  import opened Tables
  import Schema
  import Charts
  import opened Registries

  /** What one merge stage contributed to a row: nothing, when the stage
      did not run because its table is absent (its columns are then missing
      from the result), or the matched row, `None` when the key matched
      nothing (its columns are then NaN in that row). */
  datatype Attached<T> = NotMerged | Merged(found: Option<T>)

  /** A row of the merged table: the cleaned chart row, unchanged, and what
      each stage attached to it. */
  datatype MergedRow = MergedRow(
    chart: Charts.ChartRow,
    developer: Attached<RegistryRow>,
    publisher: Attached<RegistryRow>,
    geo: Attached<GeoCountryRow>)

  function ChartOf(row: MergedRow): Charts.ChartRow {
    row.chart
  }

  /** The chart part of every row of a merged table. */
  function ChartsOf(rows: seq<MergedRow>): (cs: seq<Charts.ChartRow>)
    ensures |cs| == |rows|
  {
    Map(rows, ChartOf)
  }

  function Unmerged(c: Charts.ChartRow): MergedRow {
    MergedRow(c, NotMerged, NotMerged, NotMerged)
  }

  /** `charts_clean.copy()`: the merge starts from the chart rows alone. */
  function Start(charts: seq<Charts.ChartRow>): (rows: seq<MergedRow>)
    ensures ChartsOf(rows) == charts
    ensures forall i :: 0 <= i < |rows| ==> rows[i].developer.NotMerged? && rows[i].publisher.NotMerged? && rows[i].geo.NotMerged?
  {
    var rows := Map(charts, Unmerged);
    assert ChartsOf(rows) == charts;
    rows
  }

  /** One merge stage: `rows.merge(right, how='left')` on the keys `lkey`
      and `rkey`, where `attach` records the matched row in the output row. */
  function Stage<R, K(==)>(rows: seq<MergedRow>, right: seq<R>, lkey: MergedRow -> K, rkey: R -> K,
                           attach: (MergedRow, Option<R>) -> MergedRow): (out: seq<MergedRow>)
    ensures |out| >= |rows|
    ensures var j := LeftJoin(rows, right, lkey, rkey);
      |out| == |j| && forall k :: 0 <= k < |j| ==> out[k] == attach(j[k].0, j[k].1)
  {
    Map(LeftJoin(rows, right, lkey, rkey), (p: (MergedRow, Option<R>)) => attach(p.0, p.1))
  }

  /** The row-count law: one output row per match of each left row, and
      one for a left row without a match. */
  lemma StageRowCount<R, K>(rows: seq<MergedRow>, right: seq<R>, lkey: MergedRow -> K, rkey: R -> K,
                            attach: (MergedRow, Option<R>) -> MergedRow)
    ensures |Stage(rows, right, lkey, rkey, attach)| == FanOut(rows, right, lkey, rkey)
  {
    LeftJoinLength(rows, right, lkey, rkey);
  }

  /** The output rows are exactly the input rows with a joined registry row
      attached: a row carrying the same key, or `None` when the registry has
      no row with that key. */
  lemma StageMembership<R, K>(rows: seq<MergedRow>, right: seq<R>, lkey: MergedRow -> K, rkey: R -> K,
                              attach: (MergedRow, Option<R>) -> MergedRow, y: MergedRow)
    ensures y in Stage(rows, right, lkey, rkey, attach) <==>
      exists x, m :: x in rows && Joined((x, m), right, lkey, rkey) && y == attach(x, m)
  {
    var j := LeftJoin(rows, right, lkey, rkey);
    var out := Stage(rows, right, lkey, rkey, attach);
    if y in out {
      var k :| 0 <= k < |out| && out[k] == y;
      LeftJoinMembership(rows, right, lkey, rkey, j[k]);
      assert j[k].0 in rows && Joined((j[k].0, j[k].1), right, lkey, rkey) && y == attach(j[k].0, j[k].1);
    }
    if exists x, m :: x in rows && Joined((x, m), right, lkey, rkey) && y == attach(x, m) {
      var x, m :| x in rows && Joined((x, m), right, lkey, rkey) && y == attach(x, m);
      LeftJoinMembership(rows, right, lkey, rkey, (x, m));
      var k :| 0 <= k < |j| && j[k] == (x, m);
      assert out[k] == y;
    }
  }

  /** A stage whose `attach` leaves the chart part alone keeps every chart
      row, in order: the input's chart rows are a subsequence of the
      output's. */
  lemma StageKeepsCharts<R, K>(rows: seq<MergedRow>, right: seq<R>, lkey: MergedRow -> K, rkey: R -> K,
                               attach: (MergedRow, Option<R>) -> MergedRow)
    requires forall x: MergedRow, m: Option<R> :: attach(x, m).chart == x.chart
    ensures IsSubsequence(ChartsOf(rows), ChartsOf(Stage(rows, right, lkey, rkey, attach)))
  {
    var j := LeftJoin(rows, right, lkey, rkey);
    LeftJoinKeepsLeftRows(rows, right, lkey, rkey);
    MapSubsequence(rows, Lefts(j), ChartOf);
    assert ChartsOf(Stage(rows, right, lkey, rkey, attach)) == Map(Lefts(j), ChartOf);
  }

  /** An `attach` that leaves the chart part alone does so on every pair of
      a merge output. */
  lemma AttachedChartAt<R>(attach: (MergedRow, Option<R>) -> MergedRow, j: seq<(MergedRow, Option<R>)>)
    requires forall x: MergedRow, m: Option<R> :: attach(x, m).chart == x.chart
    ensures forall k :: 0 <= k < |j| ==> attach(j[k].0, j[k].1).chart == j[k].0.chart
  {
  }

  /** Every row of `rows` carries one of the chart rows `charts`. */
  predicate ChartsWithin(rows: seq<MergedRow>, charts: seq<Charts.ChartRow>) {
    forall i :: 0 <= i < |rows| ==> rows[i].chart in charts
  }

  /** A stage whose `attach` leaves the chart part alone invents no chart
      row: every output row carries the chart row of an input row. */
  lemma StageChartsFromInput<R, K>(rows: seq<MergedRow>, right: seq<R>, lkey: MergedRow -> K, rkey: R -> K,
                                   attach: (MergedRow, Option<R>) -> MergedRow, charts: seq<Charts.ChartRow>)
    requires forall x: MergedRow, m: Option<R> :: attach(x, m).chart == x.chart
    requires ChartsWithin(rows, charts)
    ensures ChartsWithin(Stage(rows, right, lkey, rkey, attach), charts)
  {
    var j := LeftJoin(rows, right, lkey, rkey);
    var out := Stage(rows, right, lkey, rkey, attach);
    AttachedChartAt(attach, j);
    forall k | 0 <= k < |out|
      ensures out[k].chart in charts
    {
      LeftJoinRowFromLeft(rows, right, lkey, rkey, k);
      var i :| 0 <= i < |rows| && rows[i] == j[k].0;
    }
  }

  /** When each left key matches at most one registry row the stage keeps
      the row count and the order: output row `i` is input row `i` with its
      registry row, or `None`, attached. */
  lemma StageAtMostOneMatch<R, K>(rows: seq<MergedRow>, right: seq<R>, lkey: MergedRow -> K, rkey: R -> K,
                                  attach: (MergedRow, Option<R>) -> MergedRow)
    requires forall i :: 0 <= i < |rows| ==> |Matches(right, rkey, lkey(rows[i]))| <= 1
    ensures var out := Stage(rows, right, lkey, rkey, attach);
      && |out| == |rows|
      && forall i :: 0 <= i < |rows| ==> out[i] == attach(rows[i], SoleMatch(Matches(right, rkey, lkey(rows[i]))))
  {
    LeftJoinAtMostOneMatch(rows, right, lkey, rkey);
  }

  function DeveloperKey(row: MergedRow): string {
    row.chart.developer
  }

  function PublisherKey(row: MergedRow): string {
    row.chart.publisher
  }

  function RegistryKey(r: RegistryRow): string {
    r.name
  }

  /** The `country_pub` cell: the publisher registry's country when the
      publisher merge found the publisher, NaN otherwise. It is a column of
      the table only when the developer merge ran first (see
      `Schema.CountryPubColumnPresence`); `CountryPubCell` shows it is the
      value of that column. */
  function CountryPub(row: MergedRow): Option<string> {
    match row.publisher
    case Merged(Some(p)) => Some(p.country)
    case _ => None
  }

  function GeoKey(g: GeoCountryRow): Option<string> {
    g.country
  }

  /** The cell of registry column `c` in row `r`. */
  function RegistryCell(r: RegistryRow, c: string): string {
    if c == "city" then r.city else if c == "country" then r.country else r.name
  }

  /** The cell of column `c` that a merge adds: NaN when nothing matched. */
  function CellValue(found: Option<RegistryRow>, c: string): Option<string> {
    if found.Some? then Some(RegistryCell(found.value, c)) else None
  }

  /** The cells a registry merge adds to a row: one for each registry column
      other than the key, named by the suffix rule against the columns `left`
      present before the merge, holding the matched row's value, or NaN when
      nothing matched. */
  function AddedCells(found: Option<RegistryRow>, cols: seq<string>, key: string, left: seq<string>, suffix: string): (cells: seq<(string, Option<string>)>)
    ensures var kept := Filter(cols, (c: string) => c != key);
      |cells| == |kept| && forall k :: 0 <= k < |kept| ==>
        cells[k].0 == Schema.RightName(kept[k], left, suffix) &&
        cells[k].1 == CellValue(found, kept[k])
  {
    var kept := Filter(cols, (c: string) => c != key);
    seq(|kept|, k requires 0 <= k < |kept| => (Schema.RightName(kept[k], left, suffix), CellValue(found, kept[k])))
  }

  /** The named place cells of a merged row: those the developer merge added
      to the chart columns, then those the publisher merge added to the
      columns present after the developer merge. */
  function PlaceCells(y: MergedRow): seq<(string, Option<string>)> {
    var dev := if y.developer.Merged? then
      AddedCells(y.developer.found, Schema.DeveloperColumns, "developer", Schema.CleanChartColumns(), "_dev")
    else [];
    var pub := if y.publisher.Merged? then
      AddedCells(y.publisher.found, Schema.PublisherColumns, "publisher", Schema.JoinedColumns(y.developer.Merged?, false), "_pub")
    else [];
    dev + pub
  }

  /** The value of the first cell named `n`, or `None` when the row has no
      such column. */
  function CellNamed(cells: seq<(string, Option<string>)>, n: string): (v: Option<Option<string>>)
    ensures v.None? <==> forall k :: 0 <= k < |cells| ==> cells[k].0 != n
    decreases |cells|
  {
    if |cells| == 0 then None
    else if cells[0].0 == n then Some(cells[0].1)
    else CellNamed(cells[1..], n)
  }

  /** A cell named `n` with no earlier cell of that name is the one
      `CellNamed` finds. */
  lemma {:induction false} CellNamedAt(cells: seq<(string, Option<string>)>, n: string, i: int)
    requires 0 <= i < |cells| && cells[i].0 == n
    requires forall k :: 0 <= k < i ==> cells[k].0 != n
    ensures CellNamed(cells, n) == Some(cells[i].1)
    decreases i
  {
    if i > 0 {
      CellNamedAt(cells[1..], n, i - 1);
    }
  }

  /** In four cells whose last alone is named `n`, that one is found. */
  lemma CellNamedFourth(a: (string, Option<string>), b: (string, Option<string>), c: (string, Option<string>),
                        d: (string, Option<string>), n: string)
    requires a.0 != n && b.0 != n && c.0 != n && d.0 == n
    ensures CellNamed([a, b, c, d], n) == Some(d.1)
  {
    CellNamedAt([a, b, c, d], n, 3);
  }

  /** Against the chart columns, a registry merge adds its place cells
      unsuffixed. */
  lemma PlaceCellsOnCharts(found: Option<RegistryRow>, cols: seq<string>, key: string, suffix: string)
    requires (cols == Schema.DeveloperColumns && key == "developer") || (cols == Schema.PublisherColumns && key == "publisher")
    ensures AddedCells(found, cols, key, Schema.CleanChartColumns(), suffix)
         == [("city", CellValue(found, "city")), ("country", CellValue(found, "country"))]
  {
    Schema.RegistryColumnsBesideKey();
    Schema.AddedNamesNotInCharts();
  }

  /** After the developer merge, the publisher merge finds `city` and
      `country` taken and adds its cells as `city_pub` and `country_pub`. */
  lemma PublisherCellsAfterDevelopers(found: Option<RegistryRow>)
    ensures AddedCells(found, Schema.PublisherColumns, "publisher", Schema.JoinedColumns(true, false), "_pub")
         == [("city_pub", CellValue(found, "city")), ("country_pub", CellValue(found, "country"))]
  {
    Schema.RegistryColumnsBesideKey();
    Schema.DeveloperMergeColumns();
    Schema.PubSuffixedNames();
    var c1 := Schema.CleanChartColumns() + ["city", "country"];
    assert c1[|c1| - 2] == "city" && c1[|c1| - 1] == "country";
  }

  /** After both registry merges a row has the developer's `city` and
      `country` and the publisher's `city_pub` and `country_pub`. */
  lemma PlaceCellsBothMerges(y: MergedRow)
    requires y.developer.Merged? && y.publisher.Merged?
    ensures PlaceCells(y) == [
      ("city", CellValue(y.developer.found, "city")), ("country", CellValue(y.developer.found, "country")),
      ("city_pub", CellValue(y.publisher.found, "city")), ("country_pub", CellValue(y.publisher.found, "country"))]
  {
    PlaceCellsOnCharts(y.developer.found, Schema.DeveloperColumns, "developer", "_dev");
    PublisherCellsAfterDevelopers(y.publisher.found);
  }

  /** After at most one registry merge a row has only unsuffixed place
      cells. */
  lemma PlaceCellsOneMerge(y: MergedRow)
    requires !(y.developer.Merged? && y.publisher.Merged?)
    ensures forall k :: 0 <= k < |PlaceCells(y)| ==> PlaceCells(y)[k].0 == "city" || PlaceCells(y)[k].0 == "country"
    ensures CellNamed(PlaceCells(y), "country_pub").None?
  {
    if y.developer.Merged? {
      PlaceCellsOnCharts(y.developer.found, Schema.DeveloperColumns, "developer", "_dev");
    } else if y.publisher.Merged? {
      assert Schema.JoinedColumns(false, false) == Schema.CleanChartColumns();
      PlaceCellsOnCharts(y.publisher.found, Schema.PublisherColumns, "publisher", "_pub");
    }
  }

  /** The suffix rule puts the publisher's country under `country_pub`
      exactly when both registry merges ran, so the cell the geography merge
      keys on is `CountryPub`: the publisher registry's country, NaN when the
      publisher was not found. */
  lemma CountryPubCell(y: MergedRow)
    ensures y.developer.Merged? && y.publisher.Merged? ==>
      CellNamed(PlaceCells(y), "country_pub") == Some(CountryPub(y))
    ensures !(y.developer.Merged? && y.publisher.Merged?) ==>
      CellNamed(PlaceCells(y), "country_pub").None?
  {
    if y.developer.Merged? && y.publisher.Merged? {
      PlaceCellsBothMerges(y);
      var cells := PlaceCells(y);
      CellNamedFourth(cells[0], cells[1], cells[2], cells[3], "country_pub");
    } else {
      PlaceCellsOneMerge(y);
    }
  }

  function AttachDeveloper(row: MergedRow, m: Option<RegistryRow>): MergedRow {
    row.(developer := Merged(m))
  }

  function AttachPublisher(row: MergedRow, m: Option<RegistryRow>): MergedRow {
    row.(publisher := Merged(m))
  }

  function AttachGeo(row: MergedRow, m: Option<GeoCountryRow>): MergedRow {
    row.(geo := Merged(m))
  }

  /** Row `y` carries what the developer merge attaches: the registry row
      whose name is its developer, or `None` when no registry row has that
      name. */
  predicate DeveloperJoined(y: MergedRow, developers: seq<RegistryRow>) {
    y.developer.Merged? && Joined((y, y.developer.found), developers, DeveloperKey, RegistryKey)
  }

  /** Row `y` carries what the publisher merge attaches: the registry row
      whose name is its publisher, or `None` when no registry row has that
      name. */
  predicate PublisherJoined(y: MergedRow, publishers: seq<RegistryRow>) {
    y.publisher.Merged? && Joined((y, y.publisher.found), publishers, PublisherKey, RegistryKey)
  }

  /** Row `y` carries what the geography merge attaches: the normalised
      country row whose `Country` equals its `country_pub`, or `None` when
      there is none. */
  predicate GeoJoined(y: MergedRow, geo: seq<GeoCountryRow>) {
    y.geo.Merged? && Joined((y, y.geo.found), NormaliseGeo(geo), CountryPub, GeoKey)
  }

  /** The developer merge: `on='developer'`, `suffixes=('', '_dev')`. */
  function MergeDevelopers(rows: seq<MergedRow>, developers: seq<RegistryRow>): (out: seq<MergedRow>)
    ensures |out| >= |rows|
    ensures forall k :: 0 <= k < |out| ==> DeveloperJoined(out[k], developers)
  {
    var out := Stage(rows, developers, DeveloperKey, RegistryKey, AttachDeveloper);
    assert forall k :: 0 <= k < |out| ==> DeveloperJoined(out[k], developers) by {
      var j := LeftJoin(rows, developers, DeveloperKey, RegistryKey);
      forall k | 0 <= k < |out|
        ensures DeveloperJoined(out[k], developers)
      {
        LeftJoinMembership(rows, developers, DeveloperKey, RegistryKey, j[k]);
      }
    }
    out
  }

  /** The publisher merge: `on='publisher'`, `suffixes=('', '_pub')`. */
  function MergePublishers(rows: seq<MergedRow>, publishers: seq<RegistryRow>): (out: seq<MergedRow>)
    ensures |out| >= |rows|
    ensures forall k :: 0 <= k < |out| ==> PublisherJoined(out[k], publishers)
  {
    var out := Stage(rows, publishers, PublisherKey, RegistryKey, AttachPublisher);
    assert forall k :: 0 <= k < |out| ==> PublisherJoined(out[k], publishers) by {
      var j := LeftJoin(rows, publishers, PublisherKey, RegistryKey);
      forall k | 0 <= k < |out|
        ensures PublisherJoined(out[k], publishers)
      {
        LeftJoinMembership(rows, publishers, PublisherKey, RegistryKey, j[k]);
      }
    }
    out
  }

  /** The developer merge row by row: its rows are exactly the input rows,
      each with a developer-registry row of the same name attached, or with
      `None` when the registry has no row of that name. */
  lemma MergeDevelopersMembership(rows: seq<MergedRow>, developers: seq<RegistryRow>, y: MergedRow)
    ensures y in MergeDevelopers(rows, developers) <==>
      exists x, m :: x in rows && Joined((x, m), developers, DeveloperKey, RegistryKey) && y == x.(developer := Merged(m))
  {
    StageMembership(rows, developers, DeveloperKey, RegistryKey, AttachDeveloper, y);
  }

  /** The publisher merge row by row, keyed on the publisher name. */
  lemma MergePublishersMembership(rows: seq<MergedRow>, publishers: seq<RegistryRow>, y: MergedRow)
    ensures y in MergePublishers(rows, publishers) <==>
      exists x, m :: x in rows && Joined((x, m), publishers, PublisherKey, RegistryKey) && y == x.(publisher := Merged(m))
  {
    StageMembership(rows, publishers, PublisherKey, RegistryKey, AttachPublisher, y);
  }

  /** A row of the developer merge is an input row whose developer part,
      and only that, was set by the merge. */
  lemma DeveloperMergeRow(rows: seq<MergedRow>, developers: seq<RegistryRow>, y: MergedRow)
    requires y in MergeDevelopers(rows, developers)
    ensures DeveloperJoined(y, developers)
    ensures exists x :: x in rows && y == x.(developer := y.developer)
  {
    MergeDevelopersMembership(rows, developers, y);
    var x, m :| x in rows && Joined((x, m), developers, DeveloperKey, RegistryKey) && y == x.(developer := Merged(m));
    assert DeveloperKey(y) == DeveloperKey(x);
  }

  /** A row of the publisher merge is an input row whose publisher part,
      and only that, was set by the merge. */
  lemma PublisherMergeRow(rows: seq<MergedRow>, publishers: seq<RegistryRow>, y: MergedRow)
    requires y in MergePublishers(rows, publishers)
    ensures PublisherJoined(y, publishers)
    ensures exists x :: x in rows && y == x.(publisher := y.publisher)
  {
    MergePublishersMembership(rows, publishers, y);
    var x, m :| x in rows && Joined((x, m), publishers, PublisherKey, RegistryKey) && y == x.(publisher := Merged(m));
    assert PublisherKey(y) == PublisherKey(x);
  }

  /** The `Country` cell of the country table after `.str.strip()` and then
      `.str.replace('"', '')`; a missing cell stays missing. */
  function NormaliseCountry(cell: Option<string>): (n: Option<string>)
    ensures n.Some? <==> cell.Some?
    ensures n.Some? ==> '"' !in n.value
    ensures n.Some? ==> multiset(n.value) == multiset(Strip(cell.value))['"' := 0]
  {
    match cell
    case None => None
    case Some(s) => Some(RemoveChar(Strip(s), '"'))
  }

  function NormaliseGeoRow(g: GeoCountryRow): GeoCountryRow {
    g.(country := NormaliseCountry(g.country))
  }

  /** The country table with its key column normalised; the other cells are
      unchanged. */
  function NormaliseGeo(geo: seq<GeoCountryRow>): (n: seq<GeoCountryRow>)
    ensures |n| == |geo|
    ensures forall i :: 0 <= i < |geo| ==>
      n[i].attributes == geo[i].attributes && n[i].country == NormaliseCountry(geo[i].country)
  {
    Map(geo, NormaliseGeoRow)
  }

  /** The geography merge: `left_on='country_pub'`, `right_on='Country'`,
      `suffixes=('', '_geo')`, against the normalised country table. The
      left key is used as it stands. */
  function MergeGeo(rows: seq<MergedRow>, geo: seq<GeoCountryRow>): (out: seq<MergedRow>)
    ensures |out| >= |rows|
    ensures forall k :: 0 <= k < |out| ==> GeoJoined(out[k], geo)
  {
    var n := NormaliseGeo(geo);
    var out := Stage(rows, n, CountryPub, GeoKey, AttachGeo);
    assert forall k :: 0 <= k < |out| ==> GeoJoined(out[k], geo) by {
      var j := LeftJoin(rows, n, CountryPub, GeoKey);
      forall k | 0 <= k < |out|
        ensures GeoJoined(out[k], geo)
      {
        LeftJoinMembership(rows, n, CountryPub, GeoKey, j[k]);
      }
    }
    out
  }

  /** The geography merge row by row: its rows are exactly the input rows,
      each with a normalised country row whose `Country` equals the row's
      `country_pub` attached, or with `None` when there is none. */
  lemma MergeGeoMembership(rows: seq<MergedRow>, geo: seq<GeoCountryRow>, y: MergedRow)
    ensures y in MergeGeo(rows, geo) <==>
      exists x, m :: x in rows && Joined((x, m), NormaliseGeo(geo), CountryPub, GeoKey) && y == x.(geo := Merged(m))
  {
    StageMembership(rows, NormaliseGeo(geo), CountryPub, GeoKey, AttachGeo, y);
  }

  /** `merge_datasets`: the developer merge if that table is present, the
      publisher merge if that one is, then the geography merge if the
      country table is present. The geography merge needs a `country_pub`
      column and fails with a `KeyError` on a table without it. */
  function MergeDatasets(charts: seq<Charts.ChartRow>, other: OtherTables): (r: Result<seq<MergedRow>>)
    ensures r.Failure? <==> other.geoCountries.Some? && !(other.developers.Some? && other.publishers.Some?)
    ensures r.Failure? ==> r.error == MissingColumn("country_pub")
  {
    var rows0 := Start(charts);
    var rows1 := if other.developers.Some? then MergeDevelopers(rows0, other.developers.value) else rows0;
    var rows2 := if other.publishers.Some? then MergePublishers(rows1, other.publishers.value) else rows1;
    Schema.CountryPubColumnPresence(other.developers.Some?, other.publishers.Some?);
    if other.geoCountries.None? then Success(rows2)
    else if "country_pub" !in Schema.JoinedColumns(other.developers.Some?, other.publishers.Some?) then
      Failure(MissingColumn("country_pub"))
    else Success(MergeGeo(rows2, other.geoCountries.value))
  }

  /** The tables `MergeDatasets` builds before the geography merge. */
  function PlaceMerged(charts: seq<Charts.ChartRow>, other: OtherTables): (rows: seq<MergedRow>)
    ensures MergeDatasets(charts, other).Success? && other.geoCountries.None? ==>
      MergeDatasets(charts, other).value == rows
    ensures MergeDatasets(charts, other).Success? && other.geoCountries.Some? ==>
      MergeDatasets(charts, other).value == MergeGeo(rows, other.geoCountries.value)
  {
    var rows0 := Start(charts);
    var rows1 := if other.developers.Some? then MergeDevelopers(rows0, other.developers.value) else rows0;
    if other.publishers.Some? then MergePublishers(rows1, other.publishers.value) else rows1
  }

  /** A stage that attaches only its own part keeps the chart rows. */
  lemma AttachKeepsChart()
    ensures forall x: MergedRow, m :: AttachDeveloper(x, m).chart == x.chart
    ensures forall x: MergedRow, m :: AttachPublisher(x, m).chart == x.chart
    ensures forall x: MergedRow, m :: AttachGeo(x, m).chart == x.chart
  {
  }

  /** No merge loses or reorders a chart row: the cleaned chart table is a
      subsequence of the chart part of the merged table, which is therefore
      at least as long. */
  lemma MergeKeepsCharts(charts: seq<Charts.ChartRow>, other: OtherTables)
    ensures var r := MergeDatasets(charts, other);
      r.Success? ==> IsSubsequence(charts, ChartsOf(r.value)) && |r.value| >= |charts|
  {
    var r := MergeDatasets(charts, other);
    AttachKeepsChart();
    var rows0 := Start(charts);
    SubsequenceReflexive(charts);
    var rows1 := if other.developers.Some? then MergeDevelopers(rows0, other.developers.value) else rows0;
    if other.developers.Some? {
      StageKeepsCharts(rows0, other.developers.value, DeveloperKey, RegistryKey, AttachDeveloper);
      SubsequenceTransitive(charts, ChartsOf(rows0), ChartsOf(rows1));
    }
    var rows2 := if other.publishers.Some? then MergePublishers(rows1, other.publishers.value) else rows1;
    if other.publishers.Some? {
      StageKeepsCharts(rows1, other.publishers.value, PublisherKey, RegistryKey, AttachPublisher);
      SubsequenceTransitive(charts, ChartsOf(rows1), ChartsOf(rows2));
    }
    assert rows2 == PlaceMerged(charts, other);
    if r.Success? && other.geoCountries.Some? {
      var geo := NormaliseGeo(other.geoCountries.value);
      StageKeepsCharts(rows2, geo, CountryPub, GeoKey, AttachGeo);
      SubsequenceTransitive(charts, ChartsOf(rows2), ChartsOf(r.value));
    }
    if r.Success? {
      SubsequenceLength(charts, ChartsOf(r.value));
    }
  }

  /** Conversely no merge invents a chart row: every row of the merged
      table carries one of the cleaned chart rows. */
  lemma MergeChartsFromInput(charts: seq<Charts.ChartRow>, other: OtherTables)
    ensures var r := MergeDatasets(charts, other);
      r.Success? ==> ChartsWithin(r.value, charts)
  {
    var r := MergeDatasets(charts, other);
    AttachKeepsChart();
    var rows0 := Start(charts);
    assert ChartsWithin(rows0, charts) by {
      forall i | 0 <= i < |rows0|
        ensures rows0[i].chart in charts
      {
        assert ChartsOf(rows0)[i] == rows0[i].chart;
      }
    }
    var rows1 := if other.developers.Some? then MergeDevelopers(rows0, other.developers.value) else rows0;
    if other.developers.Some? {
      StageChartsFromInput(rows0, other.developers.value, DeveloperKey, RegistryKey, AttachDeveloper, charts);
    }
    var rows2 := if other.publishers.Some? then MergePublishers(rows1, other.publishers.value) else rows1;
    if other.publishers.Some? {
      StageChartsFromInput(rows1, other.publishers.value, PublisherKey, RegistryKey, AttachPublisher, charts);
    }
    assert rows2 == PlaceMerged(charts, other);
    if r.Success? && other.geoCountries.Some? {
      StageChartsFromInput(rows2, NormaliseGeo(other.geoCountries.value), CountryPub, GeoKey, AttachGeo, charts);
    }
  }

  /** Every key of `rows` matches at most one row of `right`. */
  predicate AtMostOneMatch<R, K(==)>(rows: seq<MergedRow>, right: seq<R>, lkey: MergedRow -> K, rkey: R -> K) {
    forall i :: 0 <= i < |rows| ==> |Matches(right, rkey, lkey(rows[i]))| <= 1
  }

  /** With distinct registry keys, a key matches at most once. */
  lemma UniqueKeysAtMostOneMatch<R, K>(rows: seq<MergedRow>, right: seq<R>, lkey: MergedRow -> K, rkey: R -> K)
    requires UniqueKeys(right, rkey)
    ensures AtMostOneMatch(rows, right, lkey, rkey)
  {
    forall i | 0 <= i < |rows|
      ensures |Matches(right, rkey, lkey(rows[i]))| <= 1
    {
      UniqueKeysMatchAtMostOnce(right, rkey, lkey(rows[i]));
    }
  }

  /** A one-match stage keeps each chart row in its place. */
  lemma OneMatchStageCharts<R, K>(rows: seq<MergedRow>, right: seq<R>, lkey: MergedRow -> K, rkey: R -> K,
                                  attach: (MergedRow, Option<R>) -> MergedRow)
    requires AtMostOneMatch(rows, right, lkey, rkey)
    requires forall x: MergedRow, m: Option<R> :: attach(x, m).chart == x.chart
    ensures ChartsOf(Stage(rows, right, lkey, rkey, attach)) == ChartsOf(rows)
  {
    StageAtMostOneMatch(rows, right, lkey, rkey, attach);
  }

  /** When the registry names are distinct and the normalised country names
      are distinct, the merged table has exactly one row per chart row, in
      the chart table's order. */
  lemma MergeUniqueKeys(charts: seq<Charts.ChartRow>, other: OtherTables)
    requires other.developers.Some? ==> UniqueKeys(other.developers.value, RegistryKey)
    requires other.publishers.Some? ==> UniqueKeys(other.publishers.value, RegistryKey)
    requires other.geoCountries.Some? ==> UniqueKeys(NormaliseGeo(other.geoCountries.value), GeoKey)
    ensures var r := MergeDatasets(charts, other);
      r.Success? ==> ChartsOf(r.value) == charts && |r.value| == |charts|
  {
    var r := MergeDatasets(charts, other);
    AttachKeepsChart();
    var rows0 := Start(charts);
    var rows1 := if other.developers.Some? then MergeDevelopers(rows0, other.developers.value) else rows0;
    if other.developers.Some? {
      UniqueKeysAtMostOneMatch(rows0, other.developers.value, DeveloperKey, RegistryKey);
      OneMatchStageCharts(rows0, other.developers.value, DeveloperKey, RegistryKey, AttachDeveloper);
    }
    var rows2 := if other.publishers.Some? then MergePublishers(rows1, other.publishers.value) else rows1;
    if other.publishers.Some? {
      UniqueKeysAtMostOneMatch(rows1, other.publishers.value, PublisherKey, RegistryKey);
      OneMatchStageCharts(rows1, other.publishers.value, PublisherKey, RegistryKey, AttachPublisher);
    }
    assert rows2 == PlaceMerged(charts, other);
    if r.Success? && other.geoCountries.Some? {
      var geo := NormaliseGeo(other.geoCountries.value);
      UniqueKeysAtMostOneMatch(rows2, geo, CountryPub, GeoKey);
      OneMatchStageCharts(rows2, geo, CountryPub, GeoKey, AttachGeo);
    }
  }

  /** A row of the geography merge: the input row with the country-table
      row of the same key attached, or `None` when no country row has that
      key. */
  lemma GeoMergeRow(rows: seq<MergedRow>, geo: seq<GeoCountryRow>, y: MergedRow)
    requires y in MergeGeo(rows, geo)
    ensures y.geo.Merged?
    ensures y.geo.found.Some? ==> y.geo.found.value in NormaliseGeo(geo) && y.geo.found.value.country == CountryPub(y)
    ensures y.geo.found.None? ==> forall g :: g in NormaliseGeo(geo) ==> g.country != CountryPub(y)
    ensures GeoJoined(y, geo)
    ensures exists x :: x in rows && y == x.(geo := y.geo)
  {
    MergeGeoMembership(rows, geo, y);
    var x, m :| x in rows && Joined((x, m), NormaliseGeo(geo), CountryPub, GeoKey) && y == x.(geo := Merged(m));
    assert CountryPub(y) == CountryPub(x);
  }

  /** What a stage left in row `y`: the stage's attachment when its table
      was present, nothing when the stage did not run. */
  predicate DeveloperStage(y: MergedRow, developers: Option<seq<RegistryRow>>) {
    if developers.Some? then DeveloperJoined(y, developers.value) else y.developer.NotMerged?
  }

  predicate PublisherStage(y: MergedRow, publishers: Option<seq<RegistryRow>>) {
    if publishers.Some? then PublisherJoined(y, publishers.value) else y.publisher.NotMerged?
  }

  predicate GeoStage(y: MergedRow, geo: Option<seq<GeoCountryRow>>) {
    if geo.Some? then GeoJoined(y, geo.value) else y.geo.NotMerged?
  }

  /** A row before the geography merge carries a chart row of the input,
      what the developer and publisher merges attached, and no geography
      part. */
  lemma PlaceMergedRow(charts: seq<Charts.ChartRow>, other: OtherTables, y: MergedRow)
    requires y in PlaceMerged(charts, other)
    ensures y.chart in charts && y.geo.NotMerged?
    ensures DeveloperStage(y, other.developers) && PublisherStage(y, other.publishers)
  {
    var rows0 := Start(charts);
    var rows1 := if other.developers.Some? then MergeDevelopers(rows0, other.developers.value) else rows0;
    var y1 := y;
    if other.publishers.Some? {
      PublisherMergeRow(rows1, other.publishers.value, y);
      y1 :| y1 in rows1 && y == y1.(publisher := y.publisher);
    }
    var y0 := y1;
    if other.developers.Some? {
      DeveloperMergeRow(rows0, other.developers.value, y1);
      y0 :| y0 in rows0 && y1 == y0.(developer := y1.developer);
    }
    var k :| 0 <= k < |rows0| && rows0[k] == y0;
    assert ChartsOf(rows0)[k] == y0.chart;
  }

  /** Every row of a successful merge carries a chart row of the input and,
      for each stage, the attachment that stage makes on its own key: the
      developer name, the publisher name, and `country_pub`; a stage whose
      table is absent leaves its part unset. Later stages keep what earlier
      ones attached. */
  lemma MergedRowParts(charts: seq<Charts.ChartRow>, other: OtherTables, y: MergedRow)
    ensures var r := MergeDatasets(charts, other);
      r.Success? && y in r.value ==>
        && y.chart in charts
        && DeveloperStage(y, other.developers)
        && PublisherStage(y, other.publishers)
        && GeoStage(y, other.geoCountries)
  {
    var r := MergeDatasets(charts, other);
    if r.Success? && y in r.value {
      var rows2 := PlaceMerged(charts, other);
      if other.geoCountries.Some? {
        GeoMergeRow(rows2, other.geoCountries.value, y);
        var y2 :| y2 in rows2 && y == y2.(geo := y.geo);
        PlaceMergedRow(charts, other, y2);
      } else {
        PlaceMergedRow(charts, other, y);
      }
    }
  }

  /** In a merged table that went through the geography merge, each row was
      joined on the value of its column named `country_pub`, which is the
      publisher registry's country. */
  lemma GeoMergeKeysOnCountryPubColumn(charts: seq<Charts.ChartRow>, other: OtherTables, y: MergedRow)
    ensures var r := MergeDatasets(charts, other);
      r.Success? && y in r.value && other.geoCountries.Some? ==>
        && CellNamed(PlaceCells(y), "country_pub") == Some(CountryPub(y))
        && GeoJoined(y, other.geoCountries.value)
  {
    var r := MergeDatasets(charts, other);
    if r.Success? && y in r.value && other.geoCountries.Some? {
      MergedRowParts(charts, other, y);
      CountryPubCell(y);
    }
  }

  /** The chart side of the geography key is not normalised: a publisher
      country containing a double quote matches no country row. */
  lemma QuotedCountryPubNeverMatches(rows: seq<MergedRow>, geo: seq<GeoCountryRow>, y: MergedRow)
    requires y in MergeGeo(rows, geo)
    requires CountryPub(y).Some? && '"' in CountryPub(y).value
    ensures y.geo == Merged(None)
  {
    GeoMergeRow(rows, geo, y);
  }

  /** pandas matches a missing key with a missing key: a row whose publisher
      was not found has a missing `country_pub` and is paired with a country
      row exactly when the country table has a row without a name. */
  lemma MissingCountryPubMatchesMissingCountry(rows: seq<MergedRow>, geo: seq<GeoCountryRow>, y: MergedRow)
    requires y in MergeGeo(rows, geo)
    requires CountryPub(y).None?
    ensures y.geo.Merged?
    ensures y.geo.found.Some? <==> exists g :: g in geo && g.country.None?
    ensures y.geo.found.Some? ==> y.geo.found.value.country.None?
  {
    GeoMergeRow(rows, geo, y);
    var n := NormaliseGeo(geo);
    if g :| g in geo && g.country.None? {
      var i :| 0 <= i < |geo| && geo[i] == g;
      assert n[i] in n && n[i].country.None?;
    }
    if y.geo.found.Some? {
      var i :| 0 <= i < |n| && n[i] == y.geo.found.value;
      assert geo[i] in geo;
    }
  }

  /** A country name wrapped in double quotes loses the quotes but keeps
      whatever lies inside them, surrounding spaces included: stripping
      happens before the quotes are removed. */
  lemma QuotedCountryKeepsInside(inside: string)
    requires '"' !in inside
    ensures NormaliseCountry(Some(['"'] + inside + ['"'])) == Some(inside)
  {
    var s := ['"'] + inside + ['"'];
    assert Strip(s) == s by {
      assert s[0] == '"' && s[|s| - 1] == '"';
      StripTrimmed(s);
    }
    assert RemoveChar(s, '"') == inside by {
      RemoveCharAppend(['"'] + inside, ['"'], '"');
      RemoveCharAppend(['"'], inside, '"');
      RemoveAbsentChar(inside, '"');
      assert RemoveChar(['"'], '"') == [];
    }
  }

  /** So the quoted name `" France"` becomes ` France`, which is not the
      country name `France`. */
  lemma QuotedFranceKeepsSpace()
    ensures NormaliseCountry(Some("\" France\"")) == Some(" France")
    ensures NormaliseCountry(Some("\" France\"")) != Some("France")
  {
    var inside := " France";
    assert '"' !in inside by {
      assert forall k :: 0 <= k < |inside| ==> inside[k] != '"';
    }
    assert "\" France\"" == ['"'] + inside + ['"'];
    QuotedCountryKeepsInside(inside);
    assert inside[0] != "France"[0];
  }
}
