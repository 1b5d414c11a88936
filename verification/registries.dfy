/** Cleaning of the developer and publisher registries and pass-through of
    the geography tables (`clean_other_datasets`). */
module Registries {
  import opened Wrappers
  import opened Text
  import Tables
  import Charts

  /** A row of the raw developer or publisher registry: the company name
      (the `developer` or `publisher` column) and where it is based. */
  datatype RawRegistryRow = RawRegistryRow(name: Option<string>, city: Option<string>, country: Option<string>)

  /** A cleaned registry row: every cell present. */
  datatype RegistryRow = RegistryRow(name: string, city: string, country: string)

  /** A row of the country table: the `Country` cell, followed by the
      descriptive cells, which the pipeline never inspects. */
  datatype GeoCountryRow = GeoCountryRow(country: Option<string>, attributes: seq<Option<string>>)

  /** A row of the city table, which the pipeline passes on untouched. */
  datatype GeoCityRow = GeoCityRow(cells: seq<Option<string>>)

  /** The raw tables by name; a table missing from the dictionary is
      `None`. The chart table is always present. */
  datatype RawDatasets = RawDatasets(
    charts: seq<Charts.RawChartRow>,
    developers: Option<seq<RawRegistryRow>>,
    publishers: Option<seq<RawRegistryRow>>,
    geoCities: Option<seq<GeoCityRow>>,
    geoCountries: Option<seq<GeoCountryRow>>)

  /** The dictionary of cleaned side tables; a key it lacks is `None`. */
  datatype OtherTables = OtherTables(
    developers: Option<seq<RegistryRow>>,
    publishers: Option<seq<RegistryRow>>,
    geoCities: Option<seq<GeoCityRow>>,
    geoCountries: Option<seq<GeoCountryRow>>)

  /** One registry row through `clean_other_datasets`: the name through
      `astype(str).str.strip()`, city and country through `fillna('Unknown')`.
      Unlike the chart text columns, the name gets no "nan" replacement and
      city and country are not trimmed. */
  function CleanRegistryRow(raw: RawRegistryRow): (r: RegistryRow)
    ensures IsStripOf(r.name, AsStr(raw.name))
    ensures raw.city.Some? ==> r.city == raw.city.value
    ensures raw.city.None? ==> r.city == "Unknown"
    ensures raw.country.Some? ==> r.country == raw.country.value
    ensures raw.country.None? ==> r.country == "Unknown"
  {
    RegistryRow(Strip(AsStr(raw.name)), raw.city.GetOr("Unknown"), raw.country.GetOr("Unknown"))
  }

  /** A registry table cleaned row by row, in order. */
  function CleanRegistry(rows: seq<RawRegistryRow>): (r: seq<RegistryRow>)
    ensures |r| == |rows|
    ensures forall i :: 0 <= i < |rows| ==> r[i] == CleanRegistryRow(rows[i])
  {
    Tables.Map(rows, CleanRegistryRow)
  }

  /** A registry table when present, cleaned. */
  function CleanOptionalRegistry(rows: Option<seq<RawRegistryRow>>): (r: Option<seq<RegistryRow>>)
    ensures r.Some? <==> rows.Some?
    ensures r.Some? ==> r.value == CleanRegistry(rows.value)
  {
    match rows
    case None => None
    case Some(t) => Some(CleanRegistry(t))
  }

  /** `clean_other_datasets`: each registry present is cleaned, an absent
      one stays absent; the geography tables are copied over, and a missing
      one is a `KeyError`, the city table being looked up first. */
  function CleanOtherDatasets(raw: RawDatasets): (r: Result<OtherTables>)
    ensures r.Failure? <==> raw.geoCities.None? || raw.geoCountries.None?
    ensures raw.geoCities.None? ==> r == Failure(MissingDataset("geo_cities"))
    ensures raw.geoCities.Some? && raw.geoCountries.None? ==> r == Failure(MissingDataset("geo_countries"))
    ensures r.Success? ==>
      && r.value.geoCities == raw.geoCities
      && r.value.geoCountries == raw.geoCountries
      && (r.value.developers.Some? <==> raw.developers.Some?)
      && (r.value.publishers.Some? <==> raw.publishers.Some?)
      && (r.value.developers.Some? ==> r.value.developers.value == CleanRegistry(raw.developers.value))
      && (r.value.publishers.Some? ==> r.value.publishers.value == CleanRegistry(raw.publishers.value))
  {
    var developers := CleanOptionalRegistry(raw.developers);
    var publishers := CleanOptionalRegistry(raw.publishers);
    if raw.geoCities.None? then Failure(MissingDataset("geo_cities"))
    else if raw.geoCountries.None? then Failure(MissingDataset("geo_countries"))
    else Success(OtherTables(developers, publishers, raw.geoCities, raw.geoCountries))
  }

  /** Cleaned registry names are trimmed, and city and country are present
      and keep a present raw value unchanged. */
  lemma RegistryRowClean(raw: RawRegistryRow)
    ensures var r := CleanRegistryRow(raw);
      && IsTrimmed(r.name)
      && (raw.name.Some? ==> r.name == Strip(raw.name.value))
      && (raw.city.Some? ==> r.city == raw.city.value)
      && (raw.country.Some? ==> r.country == raw.country.value)
      && (raw.city.None? ==> r.city == "Unknown")
      && (raw.country.None? ==> r.country == "Unknown")
  {
    var r := CleanRegistryRow(raw);
    var i: nat, j: nat :| IsStripAt(r.name, AsStr(raw.name), i, j);
    StripCharacterised(r.name, AsStr(raw.name));
  }

  /** "nan" is already trimmed. */
  lemma NanTrimmed()
    ensures Strip("nan") == "nan"
  {
    assert "nan"[0] == 'n' && "nan"[2] == 'n';
    StripTrimmed("nan");
  }

  /** A registry row without a name is renamed "nan", not "Unknown" as an
      absent chart text cell would be. */
  lemma AbsentNameBecomesNan(raw: RawRegistryRow)
    requires raw.name.None?
    ensures CleanRegistryRow(raw).name == "nan"
    ensures CleanRegistryRow(raw).name != Charts.CleanText(raw.name)
  {
    NanTrimmed();
    StripCharacterised(CleanRegistryRow(raw).name, "nan");
  }

  /** Since a cleaned chart text cell is never "nan", a registry row without
      a name matches no cleaned chart row's developer or publisher. */
  lemma NamelessRowNeverMatches(raw: RawRegistryRow, chart: Charts.RawChartRow, parse: Charts.DateParser)
    requires raw.name.None?
    ensures var c := Charts.CleanChartRow(chart, parse);
      CleanRegistryRow(raw).name != c.developer && CleanRegistryRow(raw).name != c.publisher
  {
    AbsentNameBecomesNan(raw);
    Charts.TextFieldsClean(chart, parse);
  }
}
